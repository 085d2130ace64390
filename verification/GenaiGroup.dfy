/** `group_genai_dict`: dotted attribute paths grouped into nested dictionaries and lists. */
module GenaiGroup {
  import opened Basics

  /** What comes out: leaves, dictionaries (compared without regard to order, as Python does) and lists. */
  datatype Val<V> = Leaf(v: V) | Dict(entries: map<string, Val<V>>) | List(items: seq<Val<V>>)

  predicate HasDot(k: string) {
    '.' in k
  }

  /** `k.split(".")[0]`. */
  function Head(k: string): (h: string)
    ensures !HasDot(h) && h <= k
    ensures !HasDot(k) ==> h == k
    ensures HasDot(k) ==> |h| < |k| && k[|h|] == '.'
  {
    if k == "" || k[0] == '.' then ""
    else
      assert k == [k[0]] + k[1..];
      [k[0]] + Head(k[1..])
  }

  /** Everything after the first dot; empty if there is none. */
  function Rest(k: string): (r: string)
    ensures HasDot(k) ==> k == Head(k) + "." + r
    ensures |r| <= |k| && (HasDot(k) || Head(k) != "" ==> |r| < |k|)
  {
    if HasDot(k) then k[|Head(k)| + 1..] else ""
  }

  predicate IsDigits(s: string) {
    s != "" && forall i :: 0 <= i < |s| ==> '0' <= s[i] <= '9'
  }

  function ToInt(s: string): nat
    requires IsDigits(s)
  {
    var d := s[|s| - 1] as int - '0' as int;
    if |s| == 1 then d else 10 * ToInt(s[..|s| - 1]) + d
  }

  predicate Indexes(k: string) {
    IsDigits(Head(k))
  }

  /** The dictionary of one index. */
  function SubIndex<V>(d: Dictionary<V>, i: nat): Dictionary<V> {
    if d == [] then []
    else
      var (k, v) := d[|d| - 1];
      var before := SubIndex(d[..|d| - 1], i);
      if Indexes(k) && ToInt(Head(k)) == i then Put(before, Rest(k), v) else before
  }

  /** The entries below one key, with that key taken off. */
  function SubHead<V>(d: Dictionary<V>, h: string): Dictionary<V> {
    if d == [] then []
    else
      var (k, v) := d[|d| - 1];
      var before := SubHead(d[..|d| - 1], h);
      if HasDot(k) && Head(k) == h then Put(before, Rest(k), v) else before
  }

  function InsertUnique(n: nat, s: seq<nat>): seq<nat> {
    if s == [] || n < s[0] then [n] + s
    else if n == s[0] then s
    else [s[0]] + InsertUnique(n, s[1..])
  }

  /** `sorted(grouped.keys())`. */
  function SortedIndices<V>(d: Dictionary<V>): seq<nat> {
    if d == [] then []
    else
      var k := d[|d| - 1].0;
      var before := SortedIndices(d[..|d| - 1]);
      if Indexes(k) then InsertUnique(ToInt(Head(k)), before) else before
  }

  /** The keys that lead deeper. */
  function Heads<V>(d: Dictionary<V>): set<string> {
    set i | 0 <= i < |d| && HasDot(d[i].0) :: Head(d[i].0)
  }

  function Leaves<V>(d: Dictionary<V>): map<string, V> {
    if d == [] then map[]
    else
      var (k, v) := d[|d| - 1];
      var before := Leaves(d[..|d| - 1]);
      if HasDot(k) then before else before[k := v]
  }

  predicate AnyIndex<V>(d: Dictionary<V>) {
    exists i :: 0 <= i < |d| && Indexes(d[i].0)
  }

  /** The total length of the keys: each level of recursion shortens it. */
  function Total<V>(d: Dictionary<V>): nat {
    if d == [] then 0 else Total(d[..|d| - 1]) + |d[|d| - 1].0|
  }

  lemma {:induction false} TotalFront<V>(d: Dictionary<V>)
    requires d != []
    ensures Total(d) == |d[0].0| + Total(d[1..])
  {
    if |d| > 1 {
      TotalFront(d[..|d| - 1]);
      assert d[..|d| - 1][1..] == d[1..][..|d| - 2];
    }
  }

  lemma {:induction false} PutTotal<V>(d: Dictionary<V>, k: string, v: V)
    ensures Total(Put(d, k, v)) <= Total(d) + |k|
  {
    if d != [] {
      TotalFront(d);
      TotalFront(Put(d, k, v));
      if d[0].0 == k {
        assert Put(d, k, v)[1..] == d[1..];
      } else {
        PutTotal(d[1..], k, v);
        assert Put(d, k, v)[1..] == Put(d[1..], k, v);
      }
    }
  }

  lemma {:induction false} SubIndexShorter<V>(d: Dictionary<V>, i: nat)
    ensures Total(SubIndex(d, i)) + (if i in SortedIndices(d) then 1 else 0) <= Total(d)
  {
    if d != [] {
      var (k, v) := d[|d| - 1];
      SubIndexShorter(d[..|d| - 1], i);
      PutTotal(SubIndex(d[..|d| - 1], i), Rest(k), v);
      if Indexes(k) {
        InsertUniqueMembers(ToInt(Head(k)), SortedIndices(d[..|d| - 1]));
      }
    }
  }

  lemma {:induction false} InsertUniqueMembers(n: nat, s: seq<nat>)
    ensures forall x :: x in InsertUnique(n, s) <==> x == n || x in s
  {
    if s != [] && n > s[0] {
      InsertUniqueMembers(n, s[1..]);
    }
  }

  lemma HeadsStep<V>(d: Dictionary<V>)
    requires d != []
    ensures Heads(d) == Heads(d[..|d| - 1]) + (if HasDot(d[|d| - 1].0) then {Head(d[|d| - 1].0)} else {})
  {
    var n := |d| - 1;
    assert forall i :: 0 <= i < n ==> d[..n][i] == d[i];
  }

  lemma {:induction false} SubHeadShorter<V>(d: Dictionary<V>, h: string)
    ensures Total(SubHead(d, h)) + (if h in Heads(d) then 1 else 0) <= Total(d)
  {
    if d != [] {
      var n := |d| - 1;
      var (k, v) := d[n];
      SubHeadShorter(d[..n], h);
      HeadsStep(d);
      PutTotal(SubHead(d[..n], h), Rest(k), v);
    }
  }

  /** The grouping of relative paths. It ends on every input. */
  function Group<V>(d: Dictionary<V>): Val<V>
    decreases Total(d)
  {
    if AnyIndex(d) then
      var order := SortedIndices(d);
      List(seq(|order|, j requires 0 <= j < |order| => (SubIndexShorter(d, order[j]); Group(SubIndex(d, order[j])))))
    else
      var leaves := Leaves(d);
      Dict(map h | h in leaves.Keys + Heads(d) ::
             if h in Heads(d) then (SubHeadShorter(d, h); Group(SubHead(d, h))) else Leaf(leaves[h]))
  }

  // ---- The method ----

  /** The entries under the prefix, with the prefix taken off. */
  function Relevant<V>(data: Dictionary<V>, prefix: string): Dictionary<V> {
    if data == [] then []
    else
      var (k, v) := data[0];
      (if prefix + "." <= k then [(k[|prefix| + 1..], v)] else []) + Relevant(data[1..], prefix)
  }

  function AddPrefix<V>(d: Dictionary<V>, prefix: string): Dictionary<V> {
    seq(|d|, i requires 0 <= i < |d| => (prefix + "." + d[i].0, d[i].1))
  }

  lemma {:induction false} RelevantAddPrefix<V>(d: Dictionary<V>, prefix: string)
    ensures Relevant(AddPrefix(d, prefix), prefix) == d
  {
    if d != [] {
      assert AddPrefix(d, prefix)[1..] == AddPrefix(d[1..], prefix);
      RelevantAddPrefix(d[1..], prefix);
      assert (prefix + "." + d[0].0)[|prefix| + 1..] == d[0].0;
    }
  }

  ghost predicate AllUnder<V>(data: Dictionary<V>, prefix: string) {
    forall i :: 0 <= i < |data| ==> prefix + "." <= data[i].0
  }

  lemma {:induction false} RelevantPut<V>(data: Dictionary<V>, prefix: string, rest: string, v: V)
    requires AllUnder(data, prefix)
    ensures AllUnder(Put(data, prefix + "." + rest, v), prefix)
    ensures Relevant(Put(data, prefix + "." + rest, v), prefix) == Put(Relevant(data, prefix), rest, v)
  {
    var k := prefix + "." + rest;
    assert k[|prefix| + 1..] == rest;
    if data != [] {
      var first := data[0].0;
      assert first == prefix + "." + first[|prefix| + 1..];
      assert AllUnder(data[1..], prefix);
      RelevantPut(data[1..], prefix, rest, v);
      assert ([(k, v)] + data[1..])[1..] == data[1..];
      assert ([data[0]] + Put(data[1..], k, v))[1..] == Put(data[1..], k, v);
    }
  }

  /** Adding a key that leads deeper to the sub-dictionary of its head. */
  lemma NestedPut<V>(data: Dictionary<V>, prefix: string, k: string, v: V)
    requires HasDot(k) && AllUnder(data, prefix + "." + Head(k))
    ensures AllUnder(Put(data, prefix + "." + k, v), prefix + "." + Head(k))
    ensures Relevant(Put(data, prefix + "." + k, v), prefix + "." + Head(k))
            == Put(Relevant(data, prefix + "." + Head(k)), Rest(k), v)
  {
    assert prefix + "." + k == prefix + "." + Head(k) + "." + Rest(k);
    RelevantPut(data, prefix + "." + Head(k), Rest(k), v);
  }

  /** `sub` has the entries of `d` below `h`, under the longer prefix. */
  ghost predicate NestsAt<V>(sub: Dictionary<V>, d: Dictionary<V>, h: string, prefix: string) {
    AllUnder(sub, prefix + "." + h) && Relevant(sub, prefix + "." + h) == SubHead(d, h)
  }

  /** `nested` has the entries of `d` that lead deeper, by head. */
  ghost predicate Nests<V>(nested: map<string, Dictionary<V>>, d: Dictionary<V>, prefix: string) {
    nested.Keys == Heads(d) && forall h :: h in nested ==> NestsAt(nested[h], d, h, prefix)
  }

  function Nest<V>(nested: map<string, Dictionary<V>>, k: string, v: V, prefix: string): map<string, Dictionary<V>> {
    if !HasDot(k) then nested
    else nested[Head(k) := Put(if Head(k) in nested then nested[Head(k)] else [], prefix + "." + k, v)]
  }

  lemma NestsStep<V>(nested: map<string, Dictionary<V>>, d: Dictionary<V>, prefix: string)
    requires d != [] && Nests(nested, d[..|d| - 1], prefix)
    ensures Nests(Nest(nested, d[|d| - 1].0, d[|d| - 1].1, prefix), d, prefix)
  {
    var k, v := d[|d| - 1].0, d[|d| - 1].1;
    var after := Nest(nested, k, v, prefix);
    HeadsStep(d);
    forall h | h in after
      ensures NestsAt(after[h], d, h, prefix)
    {
      if HasDot(k) && h == Head(k) {
        NestsHere(if h in nested then nested[h] else [], d, prefix);
      } else {
        assert NestsAt(nested[h], d[..|d| - 1], h, prefix);
      }
    }
  }

  lemma NestsHere<V>(sub: Dictionary<V>, d: Dictionary<V>, prefix: string)
    requires d != [] && HasDot(d[|d| - 1].0)
    requires Head(d[|d| - 1].0) in Heads(d[..|d| - 1]) ==> NestsAt(sub, d[..|d| - 1], Head(d[|d| - 1].0), prefix)
    requires Head(d[|d| - 1].0) !in Heads(d[..|d| - 1]) ==> sub == []
    ensures NestsAt(Put(sub, prefix + "." + d[|d| - 1].0, d[|d| - 1].1), d, Head(d[|d| - 1].0), prefix)
  {
    var k, v := d[|d| - 1].0, d[|d| - 1].1;
    NoHead(d[..|d| - 1], Head(k));
    NestedPut(sub, prefix, k, v);
  }

  lemma {:induction false} NoHead<V>(d: Dictionary<V>, h: string)
    ensures h !in Heads(d) ==> SubHead(d, h) == []
  {
    if d != [] {
      HeadsStep(d);
      NoHead(d[..|d| - 1], h);
    }
  }

  lemma EntryOf<V>(d: Dictionary<V>, h: string)
    requires !AnyIndex(d) && h in Leaves(d).Keys + Heads(d)
    ensures Group(d).Dict? && h in Group(d).entries
    ensures Group(d).entries[h] == if h in Heads(d) then Group(SubHead(d, h)) else Leaf(Leaves(d)[h])
  {
  }

  lemma EntryKeys<V>(d: Dictionary<V>)
    requires !AnyIndex(d)
    ensures Group(d).Dict? && Group(d).entries.Keys == Leaves(d).Keys + Heads(d)
  {
  }

  lemma GroupsToDict<V>(d: Dictionary<V>, entries: map<string, Val<V>>)
    requires !AnyIndex(d) && EntriesDone(d, Leaves(d), Heads(d), entries)
    ensures Group(d) == Dict(entries)
  {
    EntryKeys(d);
    forall h | h in entries
      ensures h in Group(d).entries && Group(d).entries[h] == entries[h]
    {
      EntryOf(d, h);
    }
    SameMap(Group(d).entries, entries);
  }

  lemma SameMap<V>(a: map<string, V>, b: map<string, V>)
    requires a.Keys == b.Keys && forall h :: h in b ==> a[h] == b[h]
    ensures a == b
  {
  }

  lemma GroupsToList<V>(d: Dictionary<V>, items: seq<Val<V>>)
    requires AnyIndex(d) && |items| == |SortedIndices(d)|
    requires ItemsDone(d, SortedIndices(d), items)
    ensures Group(d) == List(items)
  {
  }

  /** The list built so far. */
  ghost predicate ItemsDone<V>(d: Dictionary<V>, order: seq<nat>, items: seq<Val<V>>) {
    |items| <= |order| && forall j :: 0 <= j < |items| ==> items[j] == Group(SubIndex(d, order[j]))
  }

  lemma ItemsSnoc<V>(d: Dictionary<V>, order: seq<nat>, items: seq<Val<V>>, item: Val<V>)
    requires ItemsDone(d, order, items) && |items| < |order| && item == Group(SubIndex(d, order[|items|]))
    ensures ItemsDone(d, order, items + [item])
  {
  }

  /** The dictionary built so far, when the keys `done` of those that lead deeper have been entered. */
  ghost predicate EntriesDone<V>(d: Dictionary<V>, plain: map<string, V>, done: set<string>,
                                 entries: map<string, Val<V>>) {
    && entries.Keys == plain.Keys + done
    && forall h :: h in entries ==> entries[h] == if h in done then Group(SubHead(d, h)) else Leaf(plain[h])
  }

  lemma EntriesStep<V>(d: Dictionary<V>, plain: map<string, V>, done: set<string>, entries: map<string, Val<V>>,
                       h: string, sub: Val<V>)
    requires EntriesDone(d, plain, done, entries) && sub == Group(SubHead(d, h))
    ensures EntriesDone(d, plain, done + {h}, entries[h := sub])
  {
  }

  /** The sub-dictionaries of the indexed keys, still under the same prefix. */
  method GroupByIndex<V>(relevant: Dictionary<V>) returns (grouped: map<nat, Dictionary<V>>)
    ensures forall i :: i in grouped <==> i in SortedIndices(relevant)
    ensures forall i :: i in grouped ==> grouped[i] == SubIndex(relevant, i)
  {
    grouped := map[];
    for n := 0 to |relevant|
      invariant forall i :: i in grouped <==> i in SortedIndices(relevant[..n])
      invariant forall i :: i in grouped ==> grouped[i] == SubIndex(relevant[..n], i)
      invariant forall i :: i !in grouped ==> SubIndex(relevant[..n], i) == []
    {
      var (k, v) := relevant[n];
      assert relevant[..n + 1][..n] == relevant[..n];
      if Indexes(k) {
        var idx := ToInt(Head(k));
        InsertUniqueMembers(idx, SortedIndices(relevant[..n]));
        if idx !in grouped {
          grouped := grouped[idx := []];
        }
        grouped := grouped[idx := Put(grouped[idx], Rest(k), v)];
      }
    }
    assert relevant[..|relevant|] == relevant;
  }

  /** The plain entries, and the sub-dictionaries of the keys that lead deeper, under longer prefixes. */
  method GroupByHead<V>(relevant: Dictionary<V>, prefix: string)
    returns (plain: map<string, V>, nested: map<string, Dictionary<V>>)
    ensures plain == Leaves(relevant) && nested.Keys == Heads(relevant)
    ensures forall h :: h in nested ==> Relevant(nested[h], prefix + "." + h) == SubHead(relevant, h)
  {
    plain, nested := map[], map[];
    for n := 0 to |relevant|
      invariant plain == Leaves(relevant[..n]) && Nests(nested, relevant[..n], prefix)
    {
      var (k, v) := relevant[n];
      assert relevant[..n + 1][..n] == relevant[..n];
      NestsStep(nested, relevant[..n + 1], prefix);
      if HasDot(k) {
        var head := Head(k);
        if head !in nested {
          nested := nested[head := []];
        }
        nested := nested[head := Put(nested[head], prefix + "." + k, v)];
      } else {
        plain := plain[k := v];
      }
    }
    assert relevant[..|relevant|] == relevant;
  }

  /** `group_genai_dict`. */
  method GroupGenaiDict<V>(data: Dictionary<V>, prefix: string) returns (result: Val<V>)
    ensures result == Group(Relevant(data, prefix))
    decreases Total(Relevant(data, prefix)), 1
  {
    var relevant := Relevant(data, prefix);
    if AnyIndex(relevant) {
      result := GroupToList(relevant, prefix);
    } else {
      result := GroupToDict(relevant, prefix);
    }
  }

  /** The branch for paths that start with an index. */
  method GroupToList<V>(relevant: Dictionary<V>, prefix: string) returns (result: Val<V>)
    requires AnyIndex(relevant)
    ensures result == Group(relevant)
    decreases Total(relevant), 0
  {
    var grouped := GroupByIndex(relevant);
    var order := SortedIndices(relevant);
    var items: seq<Val<V>> := [];
    for j := 0 to |order|
      invariant |items| == j && ItemsDone(relevant, order, items)
    {
      assert order[j] in order;
      var under := AddPrefix(grouped[order[j]], prefix);
      assert Relevant(under, prefix) == SubIndex(relevant, order[j])
             && Total(SubIndex(relevant, order[j])) < Total(relevant) by {
        RelevantAddPrefix(grouped[order[j]], prefix);
        SubIndexShorter(relevant, order[j]);
      }
      var item := GroupGenaiDict(under, prefix);
      ItemsSnoc(relevant, order, items, item);
      items := items + [item];
    }
    GroupsToList(relevant, items);
    result := List(items);
  }

  /** The other branch. */
  method GroupToDict<V>(relevant: Dictionary<V>, prefix: string) returns (result: Val<V>)
    requires !AnyIndex(relevant)
    ensures result == Group(relevant)
    decreases Total(relevant), 0
  {
    var plain, nested := GroupByHead(relevant, prefix);
    var entries: map<string, Val<V>> := map h | h in plain :: Leaf(plain[h]);
    var todo := nested.Keys;
    ghost var done: set<string> := {};
    while todo != {}
      invariant todo + done == nested.Keys && EntriesDone(relevant, plain, done, entries)
    {
      var head :| head in todo;
      assert head in nested && Total(SubHead(relevant, head)) < Total(relevant) by { SubHeadShorter(relevant, head); }
      var sub := GroupGenaiDict(nested[head], prefix + "." + head);
      EntriesStep(relevant, plain, done, entries, head, sub);
      entries := entries[head := sub];
      todo, done := todo - {head}, done + {head};
    }
    GroupsToDict(relevant, entries);
    result := Dict(entries);
  }
}
