/** Grouping undoes flattening. */
module GenaiRoundTrip {
  import opened Basics
  import opened GenaiGroup

  /** The decimal spelling of an index. */
  function Decimal(n: nat): (s: string)
    ensures s != "" && forall i :: 0 <= i < |s| ==> '0' <= s[i] <= '9'
  {
    var d := ('0' as int + n % 10) as char;
    if n < 10 then [d] else Decimal(n / 10) + [d]
  }

  lemma {:induction false} DecimalParses(n: nat)
    ensures IsDigits(Decimal(n)) && ToInt(Decimal(n)) == n && !HasDot(Decimal(n))
  {
    if n >= 10 {
      DecimalParses(n / 10);
      var s := Decimal(n);
      assert s[..|s| - 1] == Decimal(n / 10);
    }
  }

  /** Trees that flattening can represent: no dictionary or list is empty, dictionary keys have no dots
      and are not all digits, and lists hold containers. */
  ghost predicate WellFormed<V>(t: Val<V>) {
    match t
    case Leaf(_) => true
    case Dict(m) => m != map[] && forall h :: h in m ==> !HasDot(h) && !IsDigits(h) && WellFormed(m[h])
    case List(xs) => xs != [] && forall i :: 0 <= i < |xs| ==> !xs[i].Leaf? && WellFormed(xs[i])
  }

  /** The dotted path of `rest` below `head`; a leaf has the empty path and adds no dot. */
  function Join<V>(head: string, t: Val<V>, rest: string): string {
    if t.Leaf? then head else head + "." + rest
  }

  /** The dotted paths of all leaves. */
  ghost function Paths<V>(t: Val<V>): set<string> {
    match t
    case Leaf(_) => {""}
    case Dict(m) => set h, p | h in m.Keys && p in Paths(m[h]) :: Join(h, m[h], p)
    case List(xs) => set i: nat, p | i < |xs| && p in Paths(xs[i]) :: Join(Decimal(i), xs[i], p)
  }

  /** The leaf at a path. */
  function Lookup<V>(t: Val<V>, path: string): Option<V> {
    match t
    case Leaf(v) => if path == "" then Some(v) else None
    case Dict(m) =>
      var h := Head(path);
      if h !in m || m[h].Leaf? == HasDot(path) then None else Lookup(m[h], Rest(path))
    case List(xs) =>
      var h := Head(path);
      if !IsDigits(h) || ToInt(h) >= |xs| || h != Decimal(ToInt(h)) || xs[ToInt(h)].Leaf? == HasDot(path) then None
      else Lookup(xs[ToInt(h)], Rest(path))
  }

  lemma JoinSplits<V>(h: string, t: Val<V>, p: string)
    requires !HasDot(h) && (t.Leaf? ==> p == "")
    ensures Head(Join(h, t, p)) == h && Rest(Join(h, t, p)) == p && HasDot(Join(h, t, p)) == !t.Leaf?
  {
    var k := Join(h, t, p);
    if !t.Leaf? {
      assert k[|h|] == '.';
      HeadUnique(k, h);
    }
  }

  lemma {:induction false} HeadUnique(k: string, h: string)
    requires !HasDot(h) && h <= k && |h| < |k| && k[|h|] == '.'
    ensures Head(k) == h
  {
    if h != "" {
      assert k[0] == h[0] && h[0] in h;
      HeadUnique(k[1..], h[1..]);
    }
  }

  /** A well-formed tree has exactly the paths that lead to its leaves, and at least one. */
  lemma {:induction false} PathsExact<V>(t: Val<V>)
    requires WellFormed(t)
    ensures forall p :: p in Paths(t) <==> Lookup(t, p).Some?
    ensures Paths(t) != {}
  {
    match t
    case Leaf(v) =>
      assert "" in Paths(t);
    case Dict(m) =>
      forall h | h in m
        ensures forall p :: p in Paths(m[h]) <==> Lookup(m[h], p).Some?
        ensures Paths(m[h]) != {}
      {
        PathsExact(m[h]);
      }
      forall p
        ensures p in Paths(t) <==> Lookup(t, p).Some?
      {
        DictPath(m, p);
      }
      var h :| h in m;
      var p :| p in Paths(m[h]);
      assert Join(h, m[h], p) in Paths(t);
    case List(xs) =>
      forall i | 0 <= i < |xs|
        ensures forall p :: p in Paths(xs[i]) <==> Lookup(xs[i], p).Some?
        ensures Paths(xs[i]) != {}
      {
        PathsExact(xs[i]);
      }
      forall p
        ensures p in Paths(t) <==> Lookup(t, p).Some?
      {
        ListPath(xs, p);
      }
      var p :| p in Paths(xs[0]);
      assert Join(Decimal(0), xs[0], p) in Paths(t);
  }

  lemma DictPath<V>(m: map<string, Val<V>>, path: string)
    requires WellFormed(Dict(m))
    requires forall h, p :: h in m ==> (p in Paths(m[h]) <==> Lookup(m[h], p).Some?)
    ensures path in Paths(Dict(m)) <==> Lookup(Dict(m), path).Some?
  {
    if h, p :| h in m.Keys && p in Paths(m[h]) && path == Join(h, m[h], p) {
      JoinSplits(h, m[h], p);
    }
    if Lookup(Dict(m), path).Some? {
      var h := Head(path);
      assert Rest(path) in Paths(m[h]) && path == Join(h, m[h], Rest(path));
    }
  }

  lemma ListPath<V>(xs: seq<Val<V>>, path: string)
    requires WellFormed(List(xs))
    requires forall i, p :: 0 <= i < |xs| ==> (p in Paths(xs[i]) <==> Lookup(xs[i], p).Some?)
    ensures path in Paths(List(xs)) <==> Lookup(List(xs), path).Some?
  {
    if i: nat, p :| i < |xs| && p in Paths(xs[i]) && path == Join(Decimal(i), xs[i], p) {
      DecimalParses(i);
      JoinSplits(Decimal(i), xs[i], p);
    }
    if Lookup(List(xs), path).Some? {
      var i := ToInt(Head(path));
      assert Rest(path) in Paths(xs[i]) && path == Join(Decimal(i), xs[i], Rest(path));
    }
  }

  /** The flat dictionary of a tree. */
  ghost function Flatten<V>(t: Val<V>): map<string, V>
    requires WellFormed(t)
  {
    PathsExact(t);
    map p | p in Paths(t) :: Lookup(t, p).value
  }

  /** `d` lists the entries of `m`, each once, in some order. */
  ghost predicate ListsEntries<V(!new)>(d: Dictionary<V>, m: map<string, V>) {
    && UniqueKeys(d)
    && (forall e :: e in d ==> e.0 in m && m[e.0] == e.1)
    && (forall k :: k in m ==> (k, m[k]) in d)
  }

  lemma {:induction false} PutNew<V>(d: Dictionary<V>, k: string, v: V)
    requires forall e :: e in d ==> e.0 != k
    ensures Put(d, k, v) == d + [(k, v)]
  {
    if d != [] {
      assert d[0] in d;
      PutNew(d[1..], k, v);
    }
  }

  lemma UniqueLast<V>(d: Dictionary<V>)
    requires UniqueKeys(d) && d != []
    ensures UniqueKeys(d[..|d| - 1]) && forall e :: e in d[..|d| - 1] ==> e.0 != d[|d| - 1].0
    ensures forall e :: e in d <==> e in d[..|d| - 1] || e == d[|d| - 1]
  {
    assert d == d[..|d| - 1] + [d[|d| - 1]];
  }

  lemma UniqueSnoc<V>(d: Dictionary<V>, k: string, v: V)
    requires UniqueKeys(d) && forall e :: e in d ==> e.0 != k
    ensures UniqueKeys(Put(d, k, v)) && forall e :: e in Put(d, k, v) <==> e in d || e == (k, v)
  {
    PutNew(d, k, v);
    assert forall i :: 0 <= i < |d| ==> d[i] in d;
  }

  /** What lies below the key `h`. */
  lemma {:induction false} SubHeadEntries<V(!new)>(d: Dictionary<V>, h: string)
    requires UniqueKeys(d) && !HasDot(h)
    ensures UniqueKeys(SubHead(d, h))
    ensures forall r, v :: (r, v) in SubHead(d, h) <==> (h + "." + r, v) in d
  {
    if d != [] {
      var n := |d| - 1;
      var (k, v) := d[n];
      UniqueLast(d);
      SubHeadEntries(d[..n], h);
      forall r
        ensures h + "." + r == k <==> HasDot(k) && Head(k) == h && r == Rest(k)
      {
        PathHead(h, r);
      }
      if HasDot(k) && Head(k) == h {
        forall e | e in SubHead(d[..n], h)
          ensures e.0 != Rest(k)
        {
          assert (h + "." + e.0, e.1) in d[..n];
        }
        UniqueSnoc(SubHead(d[..n], h), Rest(k), v);
      }
    }
  }

  lemma PathHead(h: string, r: string)
    requires !HasDot(h)
    ensures Head(h + "." + r) == h && Rest(h + "." + r) == r && HasDot(h + "." + r)
  {
    assert (h + "." + r)[|h|] == '.';
    HeadUnique(h + "." + r, h);
  }

  /** Every key of index `i` spells it in the one way `Decimal` does, and leads deeper. */
  ghost predicate PlainIndex<V>(d: Dictionary<V>, i: nat) {
    forall e :: e in d && Indexes(e.0) && ToInt(Head(e.0)) == i ==> Head(e.0) == Decimal(i) && HasDot(e.0)
  }

  lemma {:induction false} SubIndexEntries<V(!new)>(d: Dictionary<V>, i: nat)
    requires UniqueKeys(d) && PlainIndex(d, i)
    ensures UniqueKeys(SubIndex(d, i))
    ensures forall r, v :: (r, v) in SubIndex(d, i) <==> (Decimal(i) + "." + r, v) in d
  {
    if d != [] {
      var n := |d| - 1;
      var (k, v) := d[n];
      UniqueLast(d);
      SubIndexEntries(d[..n], i);
      DecimalParses(i);
      forall r
        ensures Decimal(i) + "." + r == k <==> Indexes(k) && ToInt(Head(k)) == i && r == Rest(k)
      {
        PathHead(Decimal(i), r);
      }
      if Indexes(k) && ToInt(Head(k)) == i {
        forall e | e in SubIndex(d[..n], i)
          ensures e.0 != Rest(k)
        {
          assert (Decimal(i) + "." + e.0, e.1) in d[..n];
        }
        UniqueSnoc(SubIndex(d[..n], i), Rest(k), v);
      }
    }
  }

  lemma {:induction false} LeavesEntries<V(!new)>(d: Dictionary<V>)
    requires UniqueKeys(d)
    ensures forall k, v :: (k in Leaves(d) && Leaves(d)[k] == v) <==> ((k, v) in d && !HasDot(k))
  {
    if d != [] {
      UniqueLast(d);
      LeavesEntries(d[..|d| - 1]);
    }
  }

  lemma HeadsEntries<V>(d: Dictionary<V>)
    ensures forall h :: h in Heads(d) <==> exists e :: e in d && HasDot(e.0) && Head(e.0) == h
  {
    forall e | e in d && HasDot(e.0)
      ensures Head(e.0) in Heads(d)
    {
      var i :| 0 <= i < |d| && d[i] == e;
    }
  }

  lemma {:induction false} IndicesEntries<V>(d: Dictionary<V>)
    ensures forall n :: n in SortedIndices(d) <==> exists e :: e in d && Indexes(e.0) && ToInt(Head(e.0)) == n
    ensures Increasing(SortedIndices(d))
  {
    if d != [] {
      var front, k := d[..|d| - 1], d[|d| - 1].0;
      IndicesEntries(front);
      assert forall e :: e in d <==> e in front || e == d[|d| - 1];
      if Indexes(k) {
        InsertUniqueMembers(ToInt(Head(k)), SortedIndices(front));
        InsertIncreasing(ToInt(Head(k)), SortedIndices(front));
      }
    }
  }

  ghost predicate Increasing(s: seq<nat>) {
    forall i, j :: 0 <= i < j < |s| ==> s[i] < s[j]
  }

  lemma {:induction false} InsertIncreasing(n: nat, s: seq<nat>)
    requires Increasing(s)
    ensures Increasing(InsertUnique(n, s))
  {
    if s != [] && n > s[0] {
      InsertIncreasing(n, s[1..]);
      InsertUniqueMembers(n, s[1..]);
      var out := InsertUnique(n, s[1..]);
      forall j | 0 <= j < |out|
        ensures s[0] < out[j]
      {
        assert out[j] in out;
      }
    }
  }

  /** An increasing list of exactly the numbers from `lo` below `hi` counts them off. */
  lemma {:induction false} CountsOff(s: seq<nat>, lo: nat, hi: nat)
    requires Increasing(s) && lo <= hi && forall n :: n in s <==> lo <= n < hi
    ensures |s| == hi - lo && forall j :: 0 <= j < |s| ==> s[j] == lo + j
  {
    if s == [] {
      assert lo < hi ==> lo in s;
    } else {
      assert s[0] in s && lo in s;
      var i :| 0 <= i < |s| && s[i] == lo;
      assert s[0] <= s[i];
      assert s == [s[0]] + s[1..];
      forall n
        ensures n in s[1..] <==> lo + 1 <= n < hi
      {
        if n in s[1..] {
          var j :| 0 <= j < |s[1..]| && s[1..][j] == n;
          assert s[j + 1] == n && s[0] < s[j + 1] && n in s;
        }
        if lo + 1 <= n < hi {
          assert n in s && n != s[0];
        }
      }
      CountsOff(s[1..], lo + 1, hi);
    }
  }

  // ---- The round trip ----

  /** `d` lists exactly the leaves of `t` under their paths, each once. */
  ghost predicate ListsLeaves<V(!new)>(d: Dictionary<V>, t: Val<V>) {
    UniqueKeys(d) && forall k, v :: (k, v) in d <==> Lookup(t, k) == Some(v)
  }

  lemma EntriesAreLeaves<V(!new)>(t: Val<V>, d: Dictionary<V>)
    requires WellFormed(t) && ListsEntries(d, Flatten(t))
    ensures ListsLeaves(d, t)
  {
    PathsExact(t);
    forall k, v
      ensures (k, v) in d <==> Lookup(t, k) == Some(v)
    {
      if Lookup(t, k) == Some(v) {
        assert k in Flatten(t);
      }
    }
  }

  lemma SomeLeaf<V(!new)>(t: Val<V>) returns (p: string)
    requires WellFormed(t)
    ensures Lookup(t, p).Some?
  {
    PathsExact(t);
    p :| p in Paths(t);
  }

  /** Grouping any listing of the leaves gives the tree back. */
  lemma {:induction false} GroupUndoesListing<V(!new)>(t: Val<V>, d: Dictionary<V>)
    requires WellFormed(t) && !t.Leaf? && ListsLeaves(d, t)
    ensures Group(d) == t
  {
    match t
    case Dict(m) =>
      forall h | h in m && !m[h].Leaf?
        ensures Group(SubHead(d, h)) == m[h]
      {
        DictBelow(m, d, h);
        GroupUndoesListing(m[h], SubHead(d, h));
      }
      DictTop(m, d);
    case List(xs) =>
      forall i | 0 <= i < |xs|
        ensures Group(SubIndex(d, i)) == xs[i]
      {
        ListBelow(xs, d, i);
        GroupUndoesListing(xs[i], SubIndex(d, i));
      }
      ListTop(xs, d);
  }

  lemma DictBelow<V(!new)>(m: map<string, Val<V>>, d: Dictionary<V>, h: string)
    requires WellFormed(Dict(m)) && ListsLeaves(d, Dict(m)) && h in m && !m[h].Leaf?
    ensures ListsLeaves(SubHead(d, h), m[h])
  {
    SubHeadEntries(d, h);
    forall r, v
      ensures (r, v) in SubHead(d, h) <==> Lookup(m[h], r) == Some(v)
    {
      PathHead(h, r);
      assert Lookup(Dict(m), h + "." + r) == Lookup(m[h], r);
    }
  }

  lemma DictTop<V(!new)>(m: map<string, Val<V>>, d: Dictionary<V>)
    requires WellFormed(Dict(m)) && ListsLeaves(d, Dict(m))
    requires forall h :: h in m && !m[h].Leaf? ==> Group(SubHead(d, h)) == m[h]
    ensures Group(d) == Dict(m)
  {
    DictKeys(m, d);
    TopKeys(m, d);
    EntryKeys(d);
    assert Leaves(d).Keys + Heads(d) == m.Keys;
    forall h | h in m
      ensures Group(d).entries[h] == m[h]
    {
      EntryOf(d, h);
    }
    SameMap(Group(d).entries, m);
  }

  lemma TopKeys<V(!new)>(m: map<string, Val<V>>, d: Dictionary<V>)
    requires WellFormed(Dict(m)) && ListsLeaves(d, Dict(m))
    ensures forall h :: h in Leaves(d) <==> h in m && m[h].Leaf?
    ensures forall h :: h in Leaves(d) ==> Leaves(d)[h] == m[h].v
    ensures forall h :: h in Heads(d) <==> h in m && !m[h].Leaf?
  {
    DictKeys(m, d);
    LeavesEntries(d);
    HeadsEntries(d);
    forall h
      ensures h in Leaves(d) <==> h in m && m[h].Leaf?
      ensures h in Leaves(d) ==> Leaves(d)[h] == m[h].v
      ensures h in Heads(d) <==> h in m && !m[h].Leaf?
    {
      KeyListed(m, d, h);
      if h in Leaves(d) {
        assert (h, Leaves(d)[h]) in d;
        assert Lookup(Dict(m), h) == Some(Leaves(d)[h]);
      }
    }
  }

  /** A listed key starts with a dictionary key, and goes on exactly below a container. */
  lemma DictKeys<V(!new)>(m: map<string, Val<V>>, d: Dictionary<V>)
    requires WellFormed(Dict(m)) && ListsLeaves(d, Dict(m))
    ensures forall e :: e in d ==> Head(e.0) in m && m[Head(e.0)].Leaf? == !HasDot(e.0)
    ensures !AnyIndex(d)
  {
    forall e | e in d
      ensures Head(e.0) in m && m[Head(e.0)].Leaf? == !HasDot(e.0)
    {
      assert (e.0, e.1) in d;
      assert Lookup(Dict(m), e.0) == Some(e.1);
    }
    assert forall i :: 0 <= i < |d| ==> d[i] in d;
  }

  lemma KeyListed<V(!new)>(m: map<string, Val<V>>, d: Dictionary<V>, h: string)
    requires WellFormed(Dict(m)) && ListsLeaves(d, Dict(m))
    ensures h in m && m[h].Leaf? ==> (h, m[h].v) in d
    ensures h in m && !m[h].Leaf? ==> exists e :: e in d && HasDot(e.0) && Head(e.0) == h
  {
    if h in m && m[h].Leaf? {
      assert Lookup(Dict(m), h) == Some(m[h].v);
    } else if h in m {
      var e := KeyBelow(m, d, h);
    }
  }

  lemma KeyBelow<V(!new)>(m: map<string, Val<V>>, d: Dictionary<V>, h: string) returns (e: (string, V))
    requires WellFormed(Dict(m)) && ListsLeaves(d, Dict(m)) && h in m && !m[h].Leaf?
    ensures e in d && HasDot(e.0) && Head(e.0) == h
  {
    var p := SomeLeaf(m[h]);
    var k := h + "." + p;
    DictLookup(m, h, p);
    e := (k, Lookup(m[h], p).value);
    assert (k, e.1) in d;
  }

  lemma DictLookup<V>(m: map<string, Val<V>>, h: string, p: string)
    requires h in m && !m[h].Leaf? && !HasDot(h)
    ensures Lookup(Dict(m), h + "." + p) == Lookup(m[h], p)
    ensures HasDot(h + "." + p) && Head(h + "." + p) == h
  {
    PathHead(h, p);
  }

  lemma ListLookup<V(!new)>(xs: seq<Val<V>>, i: nat, r: string)
    requires WellFormed(List(xs)) && i < |xs|
    ensures Lookup(List(xs), Decimal(i) + "." + r) == Lookup(xs[i], r)
    ensures Indexes(Decimal(i) + "." + r) && ToInt(Head(Decimal(i) + "." + r)) == i
  {
    DecimalParses(i);
    PathHead(Decimal(i), r);
  }

  /** Every listed key has the decimal spelling of an index and leads deeper. */
  lemma ListKeys<V(!new)>(xs: seq<Val<V>>, d: Dictionary<V>)
    requires WellFormed(List(xs)) && ListsLeaves(d, List(xs))
    ensures forall e :: e in d ==> Indexes(e.0) && ToInt(Head(e.0)) < |xs|
    ensures forall i :: PlainIndex(d, i)
  {
    forall e | e in d
      ensures Indexes(e.0) && ToInt(Head(e.0)) < |xs| && HasDot(e.0) && Head(e.0) == Decimal(ToInt(Head(e.0)))
    {
      assert (e.0, e.1) in d;
      assert Lookup(List(xs), e.0) == Some(e.1);
    }
  }

  lemma ListBelow<V(!new)>(xs: seq<Val<V>>, d: Dictionary<V>, i: nat)
    requires WellFormed(List(xs)) && ListsLeaves(d, List(xs)) && i < |xs|
    ensures ListsLeaves(SubIndex(d, i), xs[i])
  {
    ListKeys(xs, d);
    SubIndexEntries(d, i);
    forall r, v
      ensures (r, v) in SubIndex(d, i) <==> Lookup(xs[i], r) == Some(v)
    {
      ListLookup(xs, i, r);
    }
  }

  lemma ListTop<V(!new)>(xs: seq<Val<V>>, d: Dictionary<V>)
    requires WellFormed(List(xs)) && ListsLeaves(d, List(xs))
    requires forall i :: 0 <= i < |xs| ==> Group(SubIndex(d, i)) == xs[i]
    ensures Group(d) == List(xs)
  {
    assert |SortedIndices(d)| == |xs| && forall j :: 0 <= j < |xs| ==> SortedIndices(d)[j] == j by {
      IndicesAre(xs, d);
      CountsOff(SortedIndices(d), 0, |xs|);
    }
    assert AnyIndex(d) by {
      IndicesMean(d);
    }
    GroupsToList(d, xs);
  }

  /** There is an index exactly when some key has one. */
  lemma IndicesMean<V(!new)>(d: Dictionary<V>)
    ensures SortedIndices(d) != [] ==> AnyIndex(d)
  {
    IndicesEntries(d);
    if SortedIndices(d) != [] {
      assert SortedIndices(d)[0] in SortedIndices(d);
      var e :| e in d && Indexes(e.0) && ToInt(Head(e.0)) == SortedIndices(d)[0];
      var j :| 0 <= j < |d| && d[j] == e;
    }
  }

  lemma IndicesAre<V(!new)>(xs: seq<Val<V>>, d: Dictionary<V>)
    requires WellFormed(List(xs)) && ListsLeaves(d, List(xs))
    ensures Increasing(SortedIndices(d)) && forall n :: n in SortedIndices(d) <==> 0 <= n < |xs|
  {
    ListKeys(xs, d);
    IndicesEntries(d);
    forall n
      ensures n in SortedIndices(d) <==> 0 <= n < |xs|
    {
      if 0 <= n < |xs| {
        var e := IndexListed(xs, d, n);
      }
    }
  }

  lemma IndexListed<V(!new)>(xs: seq<Val<V>>, d: Dictionary<V>, i: nat) returns (e: (string, V))
    requires WellFormed(List(xs)) && ListsLeaves(d, List(xs)) && i < |xs|
    ensures e in d && Indexes(e.0) && ToInt(Head(e.0)) == i
  {
    var p := SomeLeaf(xs[i]);
    ListLookup(xs, i, p);
    e := (Decimal(i) + "." + p, Lookup(xs[i], p).value);
    assert Lookup(List(xs), e.0) == Some(e.1);
    assert (e.0, e.1) in d;
  }

  /** `group_genai_dict` undoes flattening: whatever else the attributes hold, if those under the prefix
      are a flattened tree, in any order, the result is that tree. */
  lemma GroupUndoesFlatten<V(!new)>(t: Val<V>, data: Dictionary<V>, prefix: string)
    requires WellFormed(t) && !t.Leaf? && ListsEntries(Relevant(data, prefix), Flatten(t))
    ensures Group(Relevant(data, prefix)) == t
  {
    EntriesAreLeaves(t, Relevant(data, prefix));
    GroupUndoesListing(t, Relevant(data, prefix));
  }

  // ---- What grouping can produce ----

  lemma {:induction false} BelowIndex<V>(d: Dictionary<V>, i: nat)
    requires i in SortedIndices(d)
    ensures SubIndex(d, i) != []
  {
    var n := |d| - 1;
    var k := d[n].0;
    if Indexes(k) {
      InsertUniqueMembers(ToInt(Head(k)), SortedIndices(d[..n]));
    }
    if !(Indexes(k) && ToInt(Head(k)) == i) {
      BelowIndex(d[..n], i);
    }
  }

  lemma {:induction false} BelowHead<V>(d: Dictionary<V>, h: string)
    requires h in Heads(d)
    ensures SubHead(d, h) != []
  {
    var n := |d| - 1;
    var k := d[n].0;
    if !(HasDot(k) && Head(k) == h) {
      var i :| 0 <= i < |d| && HasDot(d[i].0) && Head(d[i].0) == h;
      assert d[..n][i] == d[i];
      BelowHead(d[..n], h);
    }
  }

  lemma {:induction false} LeafKeys<V>(d: Dictionary<V>)
    ensures forall h :: h in Leaves(d) <==> exists i :: 0 <= i < |d| && d[i].0 == h && !HasDot(h)
  {
    if d != [] {
      var n := |d| - 1;
      LeafKeys(d[..n]);
      assert forall i :: 0 <= i < n ==> d[..n][i] == d[i];
      forall h | exists i :: 0 <= i < |d| && d[i].0 == h && !HasDot(h)
        ensures h in Leaves(d)
      {
        var i :| 0 <= i < |d| && d[i].0 == h && !HasDot(h);
        if i < n {
          assert d[..n][i].0 == h;
        }
      }
    }
  }

  /** A key of the resulting dictionary has no dot and is not all digits. */
  lemma EntryKey<V>(d: Dictionary<V>, h: string)
    requires !AnyIndex(d) && h in Leaves(d).Keys + Heads(d)
    ensures !HasDot(h) && !IsDigits(h)
  {
    LeafKeys(d);
    if h in Leaves(d) {
      var i :| 0 <= i < |d| && d[i].0 == h && !HasDot(h);
      assert !Indexes(d[i].0);
    } else {
      var i :| 0 <= i < |d| && HasDot(d[i].0) && Head(d[i].0) == h;
      assert !Indexes(d[i].0);
    }
  }

  lemma SomeEntry<V>(d: Dictionary<V>)
    requires d != [] && !AnyIndex(d)
    ensures d[0].0 in Leaves(d) || Head(d[0].0) in Heads(d)
  {
    LeafKeys(d);
  }

  lemma {:induction false} SomeIndex<V>(d: Dictionary<V>)
    requires AnyIndex(d)
    ensures SortedIndices(d) != []
  {
    IndicesEntries(d);
    var i :| 0 <= i < |d| && Indexes(d[i].0);
    assert d[i] in d;
    assert ToInt(Head(d[i].0)) in SortedIndices(d);
  }

  /** Whatever the paths, what comes out is a tree that flattening can represent. */
  lemma {:induction false} GroupWellFormed<V>(d: Dictionary<V>)
    requires d != []
    ensures WellFormed(Group(d)) && !Group(d).Leaf?
    decreases Total(d)
  {
    if AnyIndex(d) {
      var order := SortedIndices(d);
      SomeIndex(d);
      forall j | 0 <= j < |order|
        ensures !Group(SubIndex(d, order[j])).Leaf? && WellFormed(Group(SubIndex(d, order[j])))
      {
        assert order[j] in order;
        SubIndexShorter(d, order[j]);
        BelowIndex(d, order[j]);
        GroupWellFormed(SubIndex(d, order[j]));
      }
    } else {
      forall h | h in Leaves(d).Keys + Heads(d)
        ensures !HasDot(h) && !IsDigits(h) && (h in Heads(d) ==> WellFormed(Group(SubHead(d, h))))
      {
        EntryKey(d, h);
        if h in Heads(d) {
          SubHeadShorter(d, h);
          BelowHead(d, h);
          GroupWellFormed(SubHead(d, h));
        }
      }
      SomeEntry(d);
      EntriesWellFormed(d);
    }
  }

  lemma EntriesWellFormed<V>(d: Dictionary<V>)
    requires !AnyIndex(d) && Leaves(d).Keys + Heads(d) != {}
    requires forall h :: h in Leaves(d).Keys + Heads(d) ==>
               !HasDot(h) && !IsDigits(h) && (h in Heads(d) ==> WellFormed(Group(SubHead(d, h))))
    ensures WellFormed(Group(d)) && !Group(d).Leaf?
  {
    var m := Group(d).entries;
    assert m.Keys == Leaves(d).Keys + Heads(d);
    assert forall h :: h in m ==> m[h] == if h in Heads(d) then Group(SubHead(d, h)) else Leaf(Leaves(d)[h]);
  }

  lemma {:induction false} SomeListing<V(!new)>(m: map<string, V>) returns (d: Dictionary<V>)
    ensures ListsEntries(d, m)
    decreases |m.Keys|
  {
    if m == map[] {
      d := [];
    } else {
      var k :| k in m;
      var rest := m - {k};
      assert m.Keys == rest.Keys + {k};
      var front := SomeListing(rest);
      d := front + [(k, m[k])];
      assert forall i :: 0 <= i < |front| ==> front[i] in front;
    }
  }

  /** The results of grouping are exactly the well-formed containers and, from no paths at all, the
      empty dictionary; so for no other tree can any flattening be undone. */
  lemma GroupImage<V(!new)>(t: Val<V>)
    ensures (exists d: Dictionary<V> :: Group(d) == t) <==> t == Dict(map[]) || (WellFormed(t) && !t.Leaf?)
  {
    if d: Dictionary<V> :| Group(d) == t {
      if d != [] {
        GroupWellFormed(d);
      } else {
        NoPaths<V>();
      }
    }
    if t == Dict(map[]) {
      NoPaths<V>();
    } else if WellFormed(t) && !t.Leaf? {
      var d := SomeListing(Flatten(t));
      EntriesAreLeaves(t, d);
      GroupUndoesListing(t, d);
    }
  }

  lemma NoPaths<V>()
    ensures Group<V>([]) == Dict(map[])
  {
    var none: Dictionary<V> := [];
    assert !AnyIndex(none) && Group(none).entries.Keys == {};
  }

  // ---- What grouping does with any paths ----

  /** The relevant entries are those under the prefix and a dot, without these, in their order. */
  lemma {:induction false} RelevantExact<V(!new)>(data: Dictionary<V>, prefix: string)
    ensures Sublist(AddPrefix(Relevant(data, prefix), prefix), data)
    ensures forall r, v :: (r, v) in Relevant(data, prefix) <==> (prefix + "." + r, v) in data
  {
    if data == [] {
      SublistNone(data);
    } else {
      var (k, v) := data[0];
      var rest := data[1..];
      RelevantExact(rest, prefix);
      assert data == [data[0]] + rest;
      SublistCons(data[0], AddPrefix(Relevant(rest, prefix), prefix), rest);
      if prefix + "." <= k {
        assert k == prefix + "." + k[|prefix| + 1..];
        assert AddPrefix(Relevant(data, prefix), prefix) == [data[0]] + AddPrefix(Relevant(rest, prefix), prefix);
      } else {
        NothingBefore(Relevant(rest, prefix));
      }
      forall r
        ensures prefix + "." + r == k <==> prefix + "." <= k && r == k[|prefix| + 1..]
      {
        assert (prefix + "." + r)[|prefix| + 1..] == r;
      }
    }
  }

  /** `sub` has the entries of `d` below `h`, with `h` and the dot taken off. */
  ghost predicate Below<V(!new)>(sub: Dictionary<V>, d: Dictionary<V>, h: string) {
    UniqueKeys(sub) && forall r, v :: (r, v) in sub <==> (h + "." + r, v) in d
  }

  lemma LeadsDeeper<V(!new)>(d: Dictionary<V>, h: string)
    requires !HasDot(h)
    ensures h in Heads(d) <==> exists e :: e in d && h + "." <= e.0
  {
    HeadsEntries(d);
    forall e | e in d
      ensures h + "." <= e.0 <==> HasDot(e.0) && Head(e.0) == h
    {
      if h + "." <= e.0 {
        PathHead(h, e.0[|h| + 1..]);
        assert e.0 == h + "." + e.0[|h| + 1..];
      }
    }
  }

  /** Without an index the result is a dictionary of the first parts of the keys. A first part that leads
      deeper stands for the group of what lies below it, even if it is a key itself; any other stands for its
      value. */
  lemma GroupDictExact<V(!new)>(d: Dictionary<V>, h: string)
    requires UniqueKeys(d) && forall e :: e in d ==> !IsDigits(Head(e.0))
    ensures Group(d).Dict? && (h in Group(d).entries <==> exists e :: e in d && Head(e.0) == h)
    ensures h in Group(d).entries && (exists e :: e in d && h + "." <= e.0) ==>
              exists sub :: Below(sub, d, h) && Group(d).entries[h] == Group(sub)
    ensures h in Group(d).entries && (forall e :: e in d ==> !(h + "." <= e.0)) ==>
              exists v :: (h, v) in d && Group(d).entries[h] == Leaf(v)
  {
    assert !AnyIndex(d);
    EntryKeys(d);
    LeavesEntries(d);
    HeadsEntries(d);
    if h in Group(d).entries {
      EntryOf(d, h);
      if h in Heads(d) {
        var e :| e in d && HasDot(e.0) && Head(e.0) == h;
        LeadsDeeper(d, h);
        SubHeadEntries(d, h);
        assert Below(SubHead(d, h), d, h);
      } else {
        assert (h, Leaves(d)[h]) in d;
        LeadsDeeper(d, h);
      }
    }
    if e :| e in d && Head(e.0) == h {
      assert HasDot(e.0) || (e.0, e.1) in d;
    }
  }

  /** With an index the result is a list of the groups below the indices that occur, by increasing index; keys
      without an index are left out. */
  lemma GroupListExact<V(!new)>(d: Dictionary<V>) returns (order: seq<nat>)
    requires UniqueKeys(d) && exists e :: e in d && IsDigits(Head(e.0))
    ensures Group(d).List? && |Group(d).items| == |order|
    ensures forall n :: n in order <==> exists e :: e in d && Indexes(e.0) && ToInt(Head(e.0)) == n
    ensures forall i, j :: 0 <= i < j < |order| ==> order[i] < order[j]
    ensures forall j :: 0 <= j < |order| && PlainIndex(d, order[j]) ==>
              exists sub :: Below(sub, d, Decimal(order[j])) && Group(d).items[j] == Group(sub)
  {
    order := SortedIndices(d);
    var e :| e in d && IsDigits(Head(e.0));
    var i :| 0 <= i < |d| && d[i] == e;
    assert AnyIndex(d);
    IndicesEntries(d);
    forall j | 0 <= j < |order| && PlainIndex(d, order[j])
      ensures exists sub :: Below(sub, d, Decimal(order[j])) && Group(d).items[j] == Group(sub)
    {
      SubIndexEntries(d, order[j]);
      assert Below(SubIndex(d, order[j]), d, Decimal(order[j]));
    }
  }
}
