/** `LlmProxyTraceToTriplet.adapt`: rewards matched to calls by sequence number alone. */
module ProxyAdapter {
  import opened Basics
  import opened Matching
  import opened Sorting

  type Tokens = (seq<int>, seq<int>)

  /** A proxy span with what attribute parsing finds on it: prompt and response token ids read either
      way, the request id if there is a non-empty one, and the reward. */
  datatype ProxySpan = ProxySpan(
    id: string, seqId: int, start: int, name: string,
    raw: Tokens, openai: Tokens, requestId: Option<string>, reward: Option<real>)

  datatype Item = Item(id: string, seqId: int, prompt: seq<int>, response: seq<int>, requestId: Option<string>)

  datatype Triplet = Triplet(prompt: seq<int>, response: seq<int>, reward: Option<real>, responseId: Option<string>)

  function SpanKey(s: ProxySpan): Key {
    (s.seqId, s.start)
  }

  function ItemKey(x: Item): Key {
    (x.seqId, 0)
  }

  function RewardKey(r: (int, real)): Key {
    (r.0, 0)
  }

  /** Only two kinds of span can carry token ids. */
  function TokensOf(s: ProxySpan): Tokens {
    if s.name == "raw_gen_ai_request" then s.raw
    else if s.name == "litellm_request" then s.openai
    else ([], [])
  }

  /** The span is a call with token ids on both sides whose request has not been handled. */
  predicate IsItem(s: ProxySpan, seen: set<string>) {
    && TokensOf(s).0 != [] && TokensOf(s).1 != []
    && (s.requestId.Some? ==> s.requestId.value !in seen)
  }

  function ItemOf(s: ProxySpan): Item {
    Item(s.id, s.seqId, TokensOf(s).0, TokensOf(s).1, s.requestId)
  }

  function SeenIds(items: seq<Item>): set<string> {
    set i | 0 <= i < |items| && items[i].requestId.Some? :: items[i].requestId.value
  }

  /** The calls, one for each request id. */
  function Items(spans: seq<ProxySpan>): seq<Item> {
    if spans == [] then []
    else
      var before := Items(spans[..|spans| - 1]);
      var s := spans[|spans| - 1];
      if IsItem(s, SeenIds(before)) then before + [ItemOf(s)] else before
  }

  function RewardList(spans: seq<ProxySpan>): seq<(int, real)> {
    if spans == [] then []
    else
      var s := spans[|spans| - 1];
      RewardList(spans[..|spans| - 1]) + (if s.reward.Some? then [(s.seqId, s.reward.value)] else [])
  }

  // ---- The quadratic reverse scan ----

  predicate Fits(x: Item, r: int, used: set<string>) {
    x.id !in used && x.seqId < r
  }

  /** The last call before sequence number `r` that has no reward. */
  function Pick(items: seq<Item>, r: int, used: set<string>): (out: Option<string>)
    ensures out.None? <==> forall x :: x in items ==> !Fits(x, r, used)
    ensures out.Some? ==> exists k :: 0 <= k < |items| && items[k].id == out.value && Fits(items[k], r, used)
                                      && forall l :: k < l < |items| ==> !Fits(items[l], r, used)
  {
    if items == [] then None
    else
      var n := |items| - 1;
      if Fits(items[n], r, used) then Some(items[n].id)
      else
        assert items == items[..n] + [items[n]];
        Pick(items[..n], r, used)
  }

  /** Which call each of the first `n` rewards goes to. */
  function ScanPairs(items: seq<Item>, rewards: seq<int>, n: nat): Pairs<string>
    requires n <= |rewards|
  {
    if n == 0 then map[]
    else
      var before := ScanPairs(items, rewards, n - 1);
      match Pick(items, rewards[n - 1], before.Values)
      case None => before
      case Some(id) => before[n - 1 := id]
  }

  // ---- The one-pass stack machine ----

  /** Walks calls and rewards merged by sequence number, rewards first at equal numbers: a call is
      pushed, a reward pops the top call if there is one. */
  function StackMachine(items: seq<Item>, rewards: seq<int>, i: nat, n: nat, stack: seq<string>, pairs: Pairs<string>)
    : Pairs<string>
    requires i <= |items| && n <= |rewards|
    decreases |items| - i + |rewards| - n
  {
    if n == |rewards| then pairs
    else if i < |items| && items[i].seqId < rewards[n] then
      StackMachine(items, rewards, i + 1, n, stack + [items[i].id], pairs)
    else if stack == [] then StackMachine(items, rewards, i, n + 1, stack, pairs)
    else StackMachine(items, rewards, i, n + 1, stack[..|stack| - 1], pairs[n := stack[|stack| - 1]])
  }

  ghost predicate SortedItems(items: seq<Item>) {
    forall i, j :: 0 <= i < j < |items| ==> items[i].seqId <= items[j].seqId
  }

  ghost predicate SortedInts(rs: seq<int>) {
    forall i, j :: 0 <= i < j < |rs| ==> rs[i] <= rs[j]
  }

  ghost predicate DistinctItems(items: seq<Item>) {
    forall i, j :: 0 <= i < j < |items| ==> items[i].id != items[j].id
  }

  /** The calls without a reward, in order. */
  function Unassigned(items: seq<Item>, used: set<string>): seq<string> {
    if items == [] then []
    else
      var x := items[|items| - 1];
      Unassigned(items[..|items| - 1], used) + (if x.id in used then [] else [x.id])
  }

  lemma {:induction false} UnassignedIn(items: seq<Item>, used: set<string>)
    ensures forall id :: id in Unassigned(items, used) ==> exists k :: 0 <= k < |items| && items[k].id == id
  {
    if items != [] {
      var n := |items| - 1;
      UnassignedIn(items[..n], used);
      forall id | id in Unassigned(items, used)
        ensures exists k :: 0 <= k < |items| && items[k].id == id
      {
        if id in Unassigned(items[..n], used) {
          var k :| 0 <= k < n && items[..n][k].id == id;
          assert items[k].id == id;
        } else {
          assert items[n].id == id;
        }
      }
    }
  }

  /** When every call is early enough, the scan picks the top of the stack of unassigned calls. */
  lemma {:induction false} PickIsTop(items: seq<Item>, r: int, used: set<string>)
    requires forall k :: 0 <= k < |items| ==> items[k].seqId < r
    ensures var stack := Unassigned(items, used);
            Pick(items, r, used) == if stack == [] then None else Some(stack[|stack| - 1])
  {
    if items != [] {
      PickIsTop(items[..|items| - 1], r, used);
    }
  }

  /** Calls that come too late do not matter to the scan. */
  lemma {:induction false} PickDropsLate(items: seq<Item>, i: nat, r: int, used: set<string>)
    requires i <= |items| && forall k :: i <= k < |items| ==> items[k].seqId >= r
    ensures Pick(items, r, used) == Pick(items[..i], r, used)
  {
    if i < |items| {
      var n := |items| - 1;
      PickDropsLate(items[..n], i, r, used);
      assert items[..n][..i] == items[..i];
    } else {
      assert items[..i] == items;
    }
  }

  lemma {:induction false} UnassignedUnused(items: seq<Item>, used: set<string>, id: string)
    requires forall k :: 0 <= k < |items| ==> items[k].id != id
    ensures Unassigned(items, used + {id}) == Unassigned(items, used)
  {
    if items != [] {
      UnassignedUnused(items[..|items| - 1], used, id);
    }
  }

  /** Assigning the top call pops it. */
  lemma {:induction false} UnassignedPop(items: seq<Item>, used: set<string>)
    requires DistinctItems(items) && Unassigned(items, used) != []
    ensures var stack := Unassigned(items, used);
            Unassigned(items, used + {stack[|stack| - 1]}) == stack[..|stack| - 1]
  {
    var n := |items| - 1;
    var stack := Unassigned(items, used);
    if items[n].id in used {
      UnassignedPop(items[..n], used);
    } else {
      UnassignedUnused(items[..n], used, items[n].id);
    }
  }

  lemma {:induction false} ScanBelow(items: seq<Item>, rewards: seq<int>, n: nat)
    requires n <= |rewards|
    ensures forall j :: j in ScanPairs(items, rewards, n) ==> j < n
  {
    if n > 0 {
      ScanBelow(items, rewards, n - 1);
    }
  }

  /** The machine has pushed `i` calls and handled `n` rewards: its pairs are those of the scan, and
      its stack holds the pushed calls without a reward. */
  ghost predicate Reached(items: seq<Item>, rewards: seq<int>, i: nat, n: nat, stack: seq<string>,
                          pairs: Pairs<string>) {
    && i <= |items| && n <= |rewards|
    && pairs == ScanPairs(items, rewards, n) && stack == Unassigned(items[..i], pairs.Values)
    && (n < |rewards| ==> forall k :: 0 <= k < i ==> items[k].seqId < rewards[n])
    && (forall k :: i <= k < |items| ==> items[k].id !in pairs.Values)
  }

  lemma Pushes(items: seq<Item>, rewards: seq<int>, i: nat, n: nat, stack: seq<string>, pairs: Pairs<string>)
    requires Reached(items, rewards, i, n, stack, pairs) && i < |items| && n < |rewards| && items[i].seqId < rewards[n]
    ensures Reached(items, rewards, i + 1, n, stack + [items[i].id], pairs)
  {
    assert items[..i + 1][..i] == items[..i];
  }

  lemma Pops(items: seq<Item>, rewards: seq<int>, i: nat, n: nat, stack: seq<string>, pairs: Pairs<string>)
    requires Reached(items, rewards, i, n, stack, pairs) && n < |rewards|
    requires SortedItems(items) && SortedInts(rewards) && DistinctItems(items)
    requires i < |items| ==> items[i].seqId >= rewards[n]
    ensures if stack == [] then Reached(items, rewards, i, n + 1, stack, pairs)
            else Reached(items, rewards, i, n + 1, stack[..|stack| - 1], pairs[n := stack[|stack| - 1]])
  {
    PopsTop(items, rewards, i, n, stack, pairs);
    assert n + 1 < |rewards| ==> rewards[n] <= rewards[n + 1];
    if stack != [] {
      assert n !in pairs by { ScanBelow(items, rewards, n); }
      StackPops(items, i, n, stack, pairs);
    }
  }

  /** The scan for this reward picks the top of the stack. */
  lemma PopsTop(items: seq<Item>, rewards: seq<int>, i: nat, n: nat, stack: seq<string>, pairs: Pairs<string>)
    requires Reached(items, rewards, i, n, stack, pairs) && n < |rewards| && SortedItems(items)
    requires i < |items| ==> items[i].seqId >= rewards[n]
    ensures ScanPairs(items, rewards, n + 1) == if stack == [] then pairs else pairs[n := stack[|stack| - 1]]
  {
    assert Pick(items, rewards[n], pairs.Values) == if stack == [] then None else Some(stack[|stack| - 1]) by {
      PickDropsLate(items, i, rewards[n], pairs.Values);
      PickIsTop(items[..i], rewards[n], pairs.Values);
    }
  }

  lemma StackPops(items: seq<Item>, i: nat, n: nat, stack: seq<string>, pairs: Pairs<string>)
    requires i <= |items| && DistinctItems(items) && n !in pairs
    requires stack == Unassigned(items[..i], pairs.Values) && stack != []
    requires forall k :: i <= k < |items| ==> items[k].id !in pairs.Values
    ensures var top := stack[|stack| - 1];
            && stack[..|stack| - 1] == Unassigned(items[..i], pairs[n := top].Values)
            && forall k :: i <= k < |items| ==> items[k].id !in pairs[n := top].Values
  {
    var top := stack[|stack| - 1];
    var after := pairs[n := top];
    assert after[n] == top && forall j :: j in pairs ==> after[j] == pairs[j];
    assert after.Values == pairs.Values + {top};
    UnassignedPop(items[..i], pairs.Values);
    UnassignedIn(items[..i], pairs.Values);
    assert top in stack;
  }

  /** The one-pass machine finishes the matching that the quadratic scan computes. */
  lemma {:induction false} StackFrom(items: seq<Item>, rewards: seq<int>, i: nat, n: nat, stack: seq<string>,
                                     pairs: Pairs<string>)
    requires SortedItems(items) && SortedInts(rewards) && DistinctItems(items)
    requires Reached(items, rewards, i, n, stack, pairs)
    ensures StackMachine(items, rewards, i, n, stack, pairs) == ScanPairs(items, rewards, |rewards|)
    decreases |items| - i + |rewards| - n
  {
    if n < |rewards| {
      if i < |items| && items[i].seqId < rewards[n] {
        assert Reached(items, rewards, i + 1, n, stack + [items[i].id], pairs) by {
          Pushes(items, rewards, i, n, stack, pairs);
        }
        StackFrom(items, rewards, i + 1, n, stack + [items[i].id], pairs);
      } else {
        assert if stack == [] then Reached(items, rewards, i, n + 1, stack, pairs)
               else Reached(items, rewards, i, n + 1, stack[..|stack| - 1], pairs[n := stack[|stack| - 1]]) by {
          Pops(items, rewards, i, n, stack, pairs);
        }
        if stack == [] {
          StackFrom(items, rewards, i, n + 1, stack, pairs);
        } else {
          StackFrom(items, rewards, i, n + 1, stack[..|stack| - 1], pairs[n := stack[|stack| - 1]]);
        }
      }
    }
  }

  /** The quadratic reverse scan is the one-pass stack machine. */
  lemma StackIsScan(items: seq<Item>, rewards: seq<int>)
    requires SortedItems(items) && SortedInts(rewards) && DistinctItems(items)
    ensures StackMachine(items, rewards, 0, 0, [], map[]) == ScanPairs(items, rewards, |rewards|)
  {
    assert Unassigned(items[..0], {}) == [];
    StackFrom(items, rewards, 0, 0, [], map[]);
  }

  // ---- The matching ----

  /** A reward may go to any call of a smaller sequence number. */
  function EligibleItems(items: seq<Item>, rewards: seq<int>): Eligible<string> {
    map j: nat | j < |rewards| :: set k | 0 <= k < |items| && items[k].seqId < rewards[j] :: items[k].id
  }

  lemma {:induction false} ScanKept(items: seq<Item>, rewards: seq<int>, j: nat, n: nat)
    requires j <= n <= |rewards|
    ensures var m := ScanPairs(items, rewards, n);
            && (forall i :: i in m && i < j ==>
                  i in ScanPairs(items, rewards, j) && ScanPairs(items, rewards, j)[i] == m[i])
            && (forall i :: i in ScanPairs(items, rewards, j) ==> i in m)
            && Used(m, j) == ScanPairs(items, rewards, j).Values
    decreases n - j
  {
    ScanBelow(items, rewards, j);
    if j < n {
      ScanKept(items, rewards, j, n - 1);
      ScanBelow(items, rewards, n - 1);
    }
  }

  lemma ScanAt(items: seq<Item>, rewards: seq<int>, j: nat)
    requires j < |rewards|
    ensures var m := ScanPairs(items, rewards, |rewards|);
            var pick := Pick(items, rewards[j], Used(m, j));
            (j in m <==> pick.Some?) && (j in m ==> m[j] == pick.value)
  {
    ScanKept(items, rewards, j, |rewards|);
    ScanKept(items, rewards, j + 1, |rewards|);
    ScanBelow(items, rewards, j);
  }

  /** Rewards go to as many calls as any assignment to distinct earlier calls could reach. */
  lemma ScanIsMaximum(items: seq<Item>, rewards: seq<int>, m: Pairs<string>)
    requires SortedInts(rewards) && DistinctItems(items) && IsMatching(EligibleItems(items, rewards), m)
    ensures IsMatching(EligibleItems(items, rewards), ScanPairs(items, rewards, |rewards|))
    ensures |m| <= |ScanPairs(items, rewards, |rewards|)|
  {
    var e, g := EligibleItems(items, rewards), ScanPairs(items, rewards, |rewards|);
    ScanIsGreedy(items, rewards);
    GreedyIsMaximum(e, g, m);
  }

  lemma ScanIsGreedy(items: seq<Item>, rewards: seq<int>)
    requires SortedInts(rewards) && DistinctItems(items)
    ensures Greedy(EligibleItems(items, rewards), ScanPairs(items, rewards, |rewards|))
    ensures Growing(EligibleItems(items, rewards))
  {
    var e, g := EligibleItems(items, rewards), ScanPairs(items, rewards, |rewards|);
    ScanBelow(items, rewards, |rewards|);
    forall j: nat | j in e
      ensures if j in g then g[j] in e[j] && g[j] !in Used(g, j) else e[j] <= Used(g, j)
    {
      ScanAt(items, rewards, j);
      if j !in g {
        forall id | id in e[j]
          ensures id in Used(g, j)
        {
          var k :| 0 <= k < |items| && items[k].seqId < rewards[j] && items[k].id == id;
          assert items[k] in items;
        }
      }
    }
    forall i, j | i in e && j in e && i <= j
      ensures e[i] <= e[j]
    {
    }
  }

  /** The matching never crosses: if a later reward goes to a later call, that call came after the
      earlier reward. */
  lemma ScanNeverCrosses(items: seq<Item>, rewards: seq<int>, i: nat, j: nat, a: nat, b: nat)
    requires SortedInts(rewards) && DistinctItems(items) && i < j && a < b < |items|
    requires var g := ScanPairs(items, rewards, |rewards|);
             i in g && j in g && g[i] == items[a].id && g[j] == items[b].id
    ensures i < |rewards| && items[b].seqId >= rewards[i]
  {
    var g := ScanPairs(items, rewards, |rewards|);
    ScanBelow(items, rewards, |rewards|);
    ScanIsGreedy(items, rewards);
    ScanAt(items, rewards, i);
    assert Used(g, i) <= Used(g, j);
    assert items[a].id != items[b].id;
  }

  // ---- The adapter ----

  /** Reward values by call, for the first `n` rewards. */
  function Assigned(items: seq<Item>, rewards: seq<(int, real)>, n: nat): map<string, real>
    requires n <= |rewards|
  {
    if n == 0 then map[]
    else
      var before := Assigned(items, rewards, n - 1);
      match Pick(items, rewards[n - 1].0, before.Keys)
      case None => before
      case Some(id) => before[id := rewards[n - 1].1]
  }

  function SeqIds(rewards: seq<(int, real)>): seq<int> {
    seq(|rewards|, i requires 0 <= i < |rewards| => rewards[i].0)
  }

  /** The dictionary holds the value of each matched reward under its call, and nothing else. */
  lemma {:induction false} AssignedRecordsScan(items: seq<Item>, rewards: seq<(int, real)>, n: nat)
    requires n <= |rewards|
    ensures Records(rewards, ScanPairs(items, SeqIds(rewards), n), Assigned(items, rewards, n), n)
  {
    if n > 0 {
      var m, out := ScanPairs(items, SeqIds(rewards), n - 1), Assigned(items, rewards, n - 1);
      AssignedRecordsScan(items, rewards, n - 1);
      var pick := Pick(items, rewards[n - 1].0, m.Values);
      assert SeqIds(rewards)[n - 1] == rewards[n - 1].0;
      if pick.Some? {
        RecordOne(rewards, m, out, n - 1, pick.value);
      }
    }
  }

  /** The dictionary holds, under each call matched by the first `n` rewards, the value of its reward. */
  ghost predicate Records(rewards: seq<(int, real)>, m: Pairs<string>, out: map<string, real>, n: nat) {
    out.Keys == m.Values && forall j :: j in m ==> j < n && j < |rewards| && m[j] in out && out[m[j]] == rewards[j].1
  }

  lemma RecordOne(rewards: seq<(int, real)>, m: Pairs<string>, out: map<string, real>, n: nat, id: string)
    requires Records(rewards, m, out, n) && n < |rewards| && id !in m.Values
    ensures Records(rewards, m[n := id], out[id := rewards[n].1], n + 1)
  {
    var m' := m[n := id];
    assert m'[n] == id && forall j :: j in m ==> m'[j] == m[j] && m[j] in m.Values;
    assert m'.Values == m.Values + {id};
  }

  function TripletOf(x: Item, got: map<string, real>): Triplet {
    Triplet(x.prompt, x.response, if x.id in got then Some(got[x.id]) else None, x.requestId)
  }

  function Sorted(source: seq<ProxySpan>): seq<ProxySpan> {
    StableSort(source, SpanKey)
  }

  /** One triplet for each call in sequence order, with the reward the scan gives it. */
  function Adapted(source: seq<ProxySpan>): seq<Triplet> {
    var items, rewards := Items(Sorted(source)), RewardList(Sorted(source));
    var got := Assigned(items, rewards, |rewards|);
    seq(|items|, i requires 0 <= i < |items| => TripletOf(items[i], got))
  }

  ghost predicate SortedSpans(spans: seq<ProxySpan>) {
    forall i, j :: 0 <= i < j < |spans| ==> spans[i].seqId <= spans[j].seqId
  }

  /** Every call comes from a span. */
  lemma {:induction false} ItemSource(spans: seq<ProxySpan>, x: Item) returns (i: nat)
    requires x in Items(spans)
    ensures i < |spans| && x == ItemOf(spans[i])
  {
    var n := |spans| - 1;
    if x in Items(spans[..n]) {
      i := ItemSource(spans[..n], x);
    } else {
      i := n;
    }
  }

  /** Calls keep the order of the spans and do not repeat span ids that are distinct. */
  lemma {:induction false} ItemsFollowSpans(spans: seq<ProxySpan>)
    ensures SortedSpans(spans) ==> SortedItems(Items(spans))
    ensures DistinctSource(spans) ==> DistinctItems(Items(spans))
  {
    if spans != [] {
      var n := |spans| - 1;
      ItemsFollowSpans(spans[..n]);
      var before := Items(spans[..n]);
      forall k | 0 <= k < |before|
        ensures SortedSpans(spans) ==> before[k].seqId <= spans[n].seqId
        ensures DistinctSource(spans) ==> before[k].id != spans[n].id
      {
        var i := ItemSource(spans[..n], before[k]);
        assert spans[..n][i] == spans[i];
      }
    }
  }

  lemma {:induction false} RewardSource(spans: seq<ProxySpan>, r: (int, real)) returns (i: nat)
    requires r in RewardList(spans)
    ensures i < |spans| && r.0 == spans[i].seqId
  {
    var n := |spans| - 1;
    if r in RewardList(spans[..n]) {
      i := RewardSource(spans[..n], r);
    } else {
      i := n;
    }
  }

  lemma {:induction false} RewardsFollowSpans(spans: seq<ProxySpan>)
    requires SortedSpans(spans)
    ensures SortedInts(SeqIds(RewardList(spans)))
  {
    if spans != [] {
      var n := |spans| - 1;
      RewardsFollowSpans(spans[..n]);
      var before := RewardList(spans[..n]);
      assert forall k :: 0 <= k < |before| ==> SeqIds(before)[k] == before[k].0;
      forall k | 0 <= k < |before|
        ensures before[k].0 <= spans[n].seqId
      {
        var i := RewardSource(spans[..n], before[k]);
        assert spans[..n][i] == spans[i];
      }
    }
  }

  lemma SourceSorted(source: seq<ProxySpan>)
    ensures SortedSpans(Sorted(source)) && multiset(Sorted(source)) == multiset(source)
  {
    Sorts(source, SpanKey);
    var spans := Sorted(source);
    forall i, j | 0 <= i < j < |spans|
      ensures spans[i].seqId <= spans[j].seqId
    {
      assert LexLe(SpanKey(spans[i]), SpanKey(spans[j]));
    }
  }

  /** The two later sorts find their input sorted. */
  lemma ResortsAreNoOps(source: seq<ProxySpan>)
    ensures StableSort(Items(Sorted(source)), ItemKey) == Items(Sorted(source))
    ensures StableSort(RewardList(Sorted(source)), RewardKey) == RewardList(Sorted(source))
  {
    var spans := Sorted(source);
    SourceSorted(source);
    ItemsFollowSpans(spans);
    RewardsFollowSpans(spans);
    var rewards := RewardList(spans);
    assert forall i :: 0 <= i < |rewards| ==> SeqIds(rewards)[i] == rewards[i].0;
    SortedIsFixed(Items(spans), ItemKey);
    SortedIsFixed(rewards, RewardKey);
  }

  method CollectItems(spans: seq<ProxySpan>) returns (items: seq<Item>)
    ensures items == Items(spans)
  {
    items := [];
    var seen: set<string> := {};
    for i := 0 to |spans|
      invariant items == Items(spans[..i]) && seen == SeenIds(items)
    {
      var s := spans[i];
      assert spans[..i + 1][..i] == spans[..i];
      var tokens := TokensOf(s);
      if tokens.0 != [] && tokens.1 != [] {
        SeenStep(items, ItemOf(s));
        if s.requestId.Some? {
          if s.requestId.value in seen {
            continue;
          }
          seen := seen + {s.requestId.value};
        }
        items := items + [ItemOf(s)];
      }
    }
    assert spans[..|spans|] == spans;
  }

  lemma SeenStep(items: seq<Item>, x: Item)
    ensures SeenIds(items + [x]) == SeenIds(items) + (if x.requestId.Some? then {x.requestId.value} else {})
  {
    var all := items + [x];
    assert all[|items|] == x && forall i :: 0 <= i < |items| ==> all[i] == items[i];
  }

  method CollectRewards(spans: seq<ProxySpan>) returns (rewards: seq<(int, real)>)
    ensures rewards == RewardList(spans)
  {
    rewards := [];
    for i := 0 to |spans|
      invariant rewards == RewardList(spans[..i])
    {
      assert spans[..i + 1][..i] == spans[..i];
      if spans[i].reward.Some? {
        rewards := rewards + [(spans[i].seqId, spans[i].reward.value)];
      }
    }
    assert spans[..|spans|] == spans;
  }

  method FindFree(items: seq<Item>, r: int, got: map<string, real>) returns (out: Option<string>)
    ensures out == Pick(items, r, got.Keys)
  {
    var k := |items|;
    while k > 0
      invariant 0 <= k <= |items| && Pick(items[..k], r, got.Keys) == Pick(items, r, got.Keys)
    {
      k := k - 1;
      assert items[..k + 1][..k] == items[..k];
      if items[k].id in got {
        continue;
      }
      if items[k].seqId < r {
        return Some(items[k].id);
      }
    }
    out := None;
  }

  method AssignRewards(items: seq<Item>, rewards: seq<(int, real)>) returns (got: map<string, real>)
    ensures got == Assigned(items, rewards, |rewards|)
  {
    got := map[];
    for n := 0 to |rewards|
      invariant got == Assigned(items, rewards, n)
    {
      var found := FindFree(items, rewards[n].0, got);
      if found.Some? {
        got := got[found.value := rewards[n].1];
      }
    }
  }

  /** `LlmProxyTraceToTriplet.adapt`. */
  method Adapt(source: seq<ProxySpan>) returns (triplets: seq<Triplet>)
    ensures triplets == Adapted(source)
  {
    var spans := StableSort(source, SpanKey);
    var items := CollectItems(spans);
    var rewards := CollectRewards(spans);
    ResortsAreNoOps(source);
    items := StableSort(items, ItemKey);
    var got := AssignRewards(items, StableSort(rewards, RewardKey));
    triplets := [];
    for i := 0 to |items|
      invariant triplets == seq(i, k requires 0 <= k < i => TripletOf(items[k], got))
    {
      triplets := triplets + [TripletOf(items[i], got)];
    }
    assert triplets == Adapted(source);
  }

  ghost predicate DistinctSource(source: seq<ProxySpan>) {
    forall i, j :: 0 <= i < j < |source| ==> source[i].id != source[j].id
  }

  /** With distinct span ids, the triplets are those of the stack machine run over calls and rewards in
      sequence order. */
  lemma AdaptedIsStackMachine(source: seq<ProxySpan>)
    requires DistinctSource(source)
    ensures var items, rewards := Items(Sorted(source)), RewardList(Sorted(source));
            var m := StackMachine(items, SeqIds(rewards), 0, 0, [], map[]);
            && |Adapted(source)| == |items|
            && (forall k :: 0 <= k < |items| ==> (Adapted(source)[k].reward.Some? <==> items[k].id in m.Values))
            && (forall j, k :: j in m && 0 <= k < |items| && m[j] == items[k].id ==>
                  j < |rewards| && Adapted(source)[k].reward == Some(rewards[j].1))
  {
    var items, rewards := Items(Sorted(source)), RewardList(Sorted(source));
    SortedDistinct(source);
    SourceSorted(source);
    ItemsFollowSpans(Sorted(source));
    RewardsFollowSpans(Sorted(source));
    StackIsScan(items, SeqIds(rewards));
    AssignedRecordsScan(items, rewards, |rewards|);
  }

  lemma SortedDistinct(source: seq<ProxySpan>)
    requires DistinctSource(source)
    ensures DistinctSource(Sorted(source))
  {
    Sorts(source, SpanKey);
    DistinctIsInBag(source);
    DistinctFromBag(Sorted(source), source);
  }

  /** Distinctness, said of the multiset of spans. */
  ghost predicate BagDistinct(m: multiset<ProxySpan>) {
    (forall s :: s in m ==> m[s] == 1) && forall s, t :: s in m && t in m && s.id == t.id ==> s == t
  }

  lemma {:induction false} DistinctIsInBag(source: seq<ProxySpan>)
    requires DistinctSource(source)
    ensures BagDistinct(multiset(source))
  {
    if source != [] {
      var rest := source[1..];
      DistinctIsInBag(rest);
      assert source == [source[0]] + rest;
      assert source[0] !in rest;
    }
  }

  lemma {:induction false} DistinctFromBag(a: seq<ProxySpan>, b: seq<ProxySpan>)
    requires multiset(a) == multiset(b) && BagDistinct(multiset(b))
    ensures DistinctSource(a)
  {
    forall i, j | 0 <= i < j < |a|
      ensures a[i].id != a[j].id
    {
      assert a == a[..j] + a[j..];
      assert a[i] in multiset(a[..j]) && a[j] in multiset(a[j..]);
      assert multiset(a)[a[i]] == multiset(a[..j])[a[i]] + multiset(a[j..])[a[i]];
      assert a[i] in multiset(a) && a[j] in multiset(a);
    }
  }
}
