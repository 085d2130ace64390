/** What many modules share: optional values and results, lists without repetition, two lists shuffled
    together, sizes of sets, and Python dictionaries that keep their insertion order. Nothing here is about
    the programs modelled; it is collected in one place so that each notion is defined only once and the
    modules built on it stay short. The last part is about texts cut into pieces, as both stream generators
    cut them. */
module Basics {

  datatype Option<+T> = None | Some(value: T)

  datatype Result<+T, +E> = Ok(value: T) | Err(error: E)

  function OrElse(s: Option<string>, default: string): string {
    if s.Some? then s.value else default
  }

  ghost predicate NoDup<K>(s: seq<K>) {
    forall i, j :: 0 <= i < j < |s| ==> s[i] != s[j]
  }

  lemma NoDupConcat<K>(a: seq<K>, b: seq<K>)
    requires NoDup(a) && NoDup(b) && forall x :: x in a ==> x !in b
    ensures NoDup(a + b)
  {
    forall i, j | 0 <= i < j < |a + b|
      ensures (a + b)[i] != (a + b)[j]
    {
      if i < |a| <= j {
        assert a[i] in a && b[j - |a|] in b;
      }
    }
  }

  lemma {:induction false} NoDupFits<K>(s: seq<K>, within: set<K>)
    requires NoDup(s) && forall i :: 0 <= i < |s| ==> s[i] in within
    ensures |s| <= |within|
  {
    if s != [] {
      var rest := within - {s[0]};
      forall i | 0 <= i < |s[1..]|
        ensures s[1..][i] in rest
      {
        assert s[1..][i] == s[i + 1];
      }
      NoDupFits(s[1..], rest);
    }
  }

  lemma SubsetSize<T>(a: set<T>, b: set<T>)
    requires a <= b
    ensures |a| <= |b|
  {
    assert b == a + (b - a);
  }

  function Elements<K>(s: seq<K>): set<K> {
    set x | x in s
  }

  lemma {:induction false} ElementsSize<K>(s: seq<K>)
    ensures |Elements(s)| <= |s|
    ensures NoDup(s) ==> |Elements(s)| == |s|
  {
    if s != [] {
      ElementsSize(s[1..]);
      assert s == [s[0]] + s[1..];
      assert Elements(s) == {s[0]} + Elements(s[1..]);
      assert NoDup(s) ==> s[0] !in s[1..];
    }
  }

  /** A map that sends no two keys to the same value has as many values as keys. */
  lemma {:induction false} InjectiveSize<K, V>(m: map<K, V>)
    requires forall i, j :: i in m && j in m && m[i] == m[j] ==> i == j
    ensures |m.Values| == |m|
    decreases |m.Keys|
  {
    if m == map[] {
      assert m.Values == {};
    } else {
      var k :| k in m;
      var rest := m - {k};
      assert m.Keys == rest.Keys + {k};
      InjectiveSize(rest);
      assert m.Values == rest.Values + {m[k]};
    }
  }

  lemma NothingBefore<T>(s: seq<T>)
    ensures [] + s == s && s + [] == s
  {
  }

  lemma Associates<T>(a: seq<T>, b: seq<T>, c: seq<T>)
    ensures a + (b + c) == a + b + c
  {
  }

  /** `a` is the elements of `b` at the positions `at`, in order. */
  ghost predicate Selects<T>(a: seq<T>, b: seq<T>, at: seq<nat>) {
    && |at| == |a|
    && (forall k :: 0 <= k < |at| ==> at[k] < |b| && a[k] == b[at[k]])
    && (forall k, l :: 0 <= k < l < |at| ==> at[k] < at[l])
  }

  /** `a` is `b` with some elements left out. */
  ghost predicate Sublist<T>(a: seq<T>, b: seq<T>) {
    exists at: seq<nat> :: Selects(a, b, at)
  }

  lemma SublistNone<T>(b: seq<T>)
    ensures Sublist([], b)
  {
    assert Selects([], b, []);
  }

  lemma SublistSnoc<T>(a: seq<T>, b: seq<T>, x: T)
    requires Sublist(a, b)
    ensures Sublist(a, b + [x]) && Sublist(a + [x], b + [x])
  {
    var at: seq<nat> :| Selects(a, b, at);
    assert Selects(a, b + [x], at) && Selects(a + [x], b + [x], at + [|b|]);
  }

  lemma SublistCons<T>(x: T, a: seq<T>, b: seq<T>)
    requires Sublist(a, b)
    ensures Sublist(a, [x] + b) && Sublist([x] + a, [x] + b)
  {
    var at: seq<nat> :| Selects(a, b, at);
    var later: seq<nat> := seq(|at|, k requires 0 <= k < |at| => at[k] + 1);
    assert Selects(a, [x] + b, later) && Selects([x] + a, [x] + b, [0] + later);
  }

  lemma SublistSelf<T>(a: seq<T>)
    ensures Sublist(a, a)
  {
    assert Selects(a, a, seq(|a|, k requires 0 <= k < |a| => k));
  }

  lemma SublistWithout<T>(a: seq<T>, i: nat)
    requires i < |a|
    ensures Sublist(a[..i] + a[i + 1..], a)
  {
    assert Selects(a[..i] + a[i + 1..], a, seq(|a| - 1, k requires 0 <= k < |a| - 1 => if k < i then k else k + 1));
  }

  lemma SublistTrans<T>(a: seq<T>, b: seq<T>, c: seq<T>)
    requires Sublist(a, b) && Sublist(b, c)
    ensures Sublist(a, c)
  {
    var at: seq<nat> :| Selects(a, b, at);
    var bt: seq<nat> :| Selects(b, c, bt);
    assert Selects(a, c, seq(|at|, k requires 0 <= k < |at| => bt[at[k]]));
  }

  /** `c` is `a` and `b` shuffled together, each in its own order. */
  ghost predicate Interleaves<T>(a: seq<T>, b: seq<T>, c: seq<T>) {
    if c == [] then a == [] && b == []
    else
      || (a != [] && a[0] == c[0] && Interleaves(a[1..], b, c[1..]))
      || (b != [] && b[0] == c[0] && Interleaves(a, b[1..], c[1..]))
  }

  // ---- Dictionaries ----

  /** A dictionary with its insertion order. */
  type Dictionary<V> = seq<(string, V)>

  /** `d[k] = v`: a known key keeps its place. */
  function Put<V>(d: Dictionary<V>, k: string, v: V): Dictionary<V> {
    if d == [] then [(k, v)]
    else if d[0].0 == k then [(k, v)] + d[1..]
    else [d[0]] + Put(d[1..], k, v)
  }

  /** `d.get(k)`. */
  function Get<V>(d: Dictionary<V>, k: string): Option<V> {
    if d == [] then None else if d[0].0 == k then Some(d[0].1) else Get(d[1..], k)
  }

  /** `d.pop(k, None)`. */
  function Drop<V>(d: Dictionary<V>, k: string): Dictionary<V> {
    if d == [] then [] else if d[0].0 == k then d[1..] else [d[0]] + Drop(d[1..], k)
  }

  /** `list(d.values())`. */
  function Values<V>(d: Dictionary<V>): seq<V> {
    seq(|d|, i requires 0 <= i < |d| => d[i].1)
  }

  ghost predicate UniqueKeys<V>(d: Dictionary<V>) {
    forall i, j :: 0 <= i < j < |d| ==> d[i].0 != d[j].0
  }

  lemma {:induction false} GetNone<V>(d: Dictionary<V>, k: string)
    ensures Get(d, k).None? <==> forall i :: 0 <= i < |d| ==> d[i].0 != k
  {
    if d != [] {
      GetNone(d[1..], k);
      assert forall i :: 1 <= i < |d| ==> d[i] == d[1..][i - 1];
    }
  }

  lemma {:induction false} PutGet<V>(d: Dictionary<V>, k: string, v: V)
    ensures forall j :: Get(Put(d, k, v), j) == if j == k then Some(v) else Get(d, j)
    ensures UniqueKeys(d) ==> UniqueKeys(Put(d, k, v))
  {
    if d != [] {
      PutGet(d[1..], k, v);
      if d[0].0 != k {
        var rest := Put(d[1..], k, v);
        assert ([d[0]] + rest)[1..] == rest;
        if UniqueKeys(d) {
          GetNone(d[1..], d[0].0);
          GetNone(rest, d[0].0);
        }
      }
    }
  }

  lemma {:induction false} DropGet<V>(d: Dictionary<V>, k: string)
    requires UniqueKeys(d)
    ensures forall j :: Get(Drop(d, k), j) == if j == k then None else Get(d, j)
    ensures UniqueKeys(Drop(d, k))
  {
    if d != [] {
      GetNone(d[1..], d[0].0);
      if d[0].0 != k {
        DropGet(d[1..], k);
        var rest := Drop(d[1..], k);
        assert ([d[0]] + rest)[1..] == rest;
        GetNone(rest, d[0].0);
      }
    }
  }

  // ---- Texts in pieces ----

  function Joined<T>(parts: seq<seq<T>>): seq<T> {
    if parts == [] then [] else parts[0] + Joined(parts[1..])
  }

  /** `s` cut every `size` characters. */
  function Slices(s: string, size: nat): seq<string>
    requires size > 0
    decreases |s|
  {
    if s == "" then []
    else if |s| <= size then [s]
    else [s[..size]] + Slices(s[size..], size)
  }

  lemma {:induction false} SlicesJoin(s: string, size: nat)
    requires size > 0
    ensures Joined(Slices(s, size)) == s
    ensures forall i :: 0 <= i < |Slices(s, size)| ==> 0 < |Slices(s, size)[i]| <= size
  {
    if |s| > size {
      SlicesJoin(s[size..], size);
      assert s == s[..size] + s[size..];
    } else if s != "" {
      assert [s][1..] == [];
    }
  }

  /** `s[pos:pos + size]`, which Python ends at the end of the text. */
  function SliceAt(s: string, pos: nat, size: nat): string
    requires pos < |s|
  {
    s[pos..if pos + size < |s| then pos + size else |s|]
  }

  function TextFrom(s: string, pos: nat): string {
    if pos < |s| then s[pos..] else ""
  }

  lemma SliceStep(s: string, pos: nat, size: nat)
    requires pos < |s| && size > 0
    ensures Slices(TextFrom(s, pos), size) == [SliceAt(s, pos, size)] + Slices(TextFrom(s, pos + size), size)
  {
    if pos + size < |s| {
      assert |s[pos..]| > size;
      assert s[pos..][..size] == s[pos..pos + size];
      assert s[pos..][size..] == s[pos + size..];
    } else {
      assert s[pos..|s|] == s[pos..];
    }
  }
}
