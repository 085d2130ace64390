/** First sibling on one list of children: maximum on all lists exactly when rewards come in time order. */
module SiblingOrder {
  import opened Basics
  import opened Spans
  import opened Matching
  import opened RewardMatching

  /** The start times of the rewards, in list order. */
  function RewardStarts(events: seq<Span>): seq<int> {
    if events == [] then []
    else
      var x := events[|events| - 1];
      RewardStarts(events[..|events| - 1]) + (if x.reward.Some? then [x.start] else [])
  }

  ghost predicate Nondecreasing(starts: seq<int>) {
    forall i, j :: 0 <= i < j < |starts| ==> starts[i] <= starts[j]
  }

  /** A node whose children have no children. */
  ghost predicate OneLevel(t: Tree) {
    forall k :: 0 <= k < |t.kids| ==> t.kids[k].kids == []
  }

  /** On every list of siblings with these reward times, first sibling rewards as many calls as any
      assignment of rewards to different eligible calls. */
  ghost predicate AlwaysMaximum(starts: seq<int>) {
    forall t: Tree, calls, m ::
      OneLevel(t) && RewardStarts(Siblings(t)) == starts && IsMatching(EligibleCalls(Siblings(t), calls, {}), m) ==>
      |m| <= |AllRewards(t, FirstSibling, calls)|
  }

  // ---- One level ----

  lemma {:induction false} LeafNodes(ts: seq<Tree>)
    requires forall k :: 0 <= k < |ts| ==> ts[k].kids == []
    ensures Nodes(ts) == ts
  {
    if ts != [] {
      LeafNodes(ts[1..]);
      assert Nodes(ts[0].kids) == [] && ts == [ts[0]] + ts[1..];
    }
  }

  lemma {:induction false} LeavesAddNothing(t: Tree, leaves: seq<Tree>, calls: set<string>)
    requires forall k :: 0 <= k < |leaves| ==> leaves[k].kids == []
    ensures SiblingRewards([t] + leaves, calls, map[]) == RewardsUpto(Siblings(t), calls, map[], |t.kids|)
  {
    var nodes := [t] + leaves;
    if leaves == [] {
      assert nodes[..0] == [] && nodes[0] == t;
    } else {
      var n := |leaves| - 1;
      assert nodes[..n + 1] == [t] + leaves[..n] && nodes[n + 1] == leaves[n];
      LeavesAddNothing(t, leaves[..n], calls);
    }
  }

  /** With one level first sibling gives one reward for each pair of the greedy matching of the list. */
  lemma OneLevelRewards(t: Tree, calls: set<string>)
    requires OneLevel(t)
    ensures |AllRewards(t, FirstSibling, calls)| == |PairsUpto(Siblings(t), calls, {}, |t.kids|)|
  {
    var events, none: Rewards := Siblings(t), map[];
    LeafNodes(t.kids);
    assert Nodes([t]) == [t] + t.kids by {
      assert [t][1..] == [] && [t] + t.kids + [] == [t] + t.kids;
    }
    LeavesAddNothing(t, t.kids, calls);
    assert none.Keys == {};
    RewardsRecordPairs(events, calls, none, |events|);
    PairsAreGreedy(events, calls, {});
    GreedyIsMatching(EligibleCalls(events, calls, {}), PairsUpto(events, calls, {}, |events|));
    ValuesSize(EligibleCalls(events, calls, {}), PairsUpto(events, calls, {}, |events|));
    assert {} + PairsUpto(events, calls, {}, |events|).Values == PairsUpto(events, calls, {}, |events|).Values;
  }

  // ---- In time order ----

  lemma {:induction false} StartListed(events: seq<Span>, i: nat)
    requires i < |events| && events[i].reward.Some?
    ensures events[i].start in RewardStarts(events)
  {
    var n := |events| - 1;
    if i < n {
      StartListed(events[..n], i);
    }
  }

  lemma {:induction false} OrderedStarts(events: seq<Span>)
    requires Nondecreasing(RewardStarts(events))
    ensures RewardsInOrder(events)
  {
    if events != [] {
      var n := |events| - 1;
      var front, s := RewardStarts(events[..n]), RewardStarts(events);
      assert front == s[..|front|];
      OrderedStarts(events[..n]);
      forall i | 0 <= i < n && events[i].reward.Some? && events[n].reward.Some?
        ensures events[i].start <= events[n].start
      {
        StartListed(events[..n], i);
        var k :| 0 <= k < |front| && front[k] == events[i].start;
        assert s[k] <= s[|front|];
      }
      assert forall i :: 0 <= i < n ==> events[..n][i] == events[i];
    }
  }

  // ---- Out of time order ----

  /** An event with only the fields that matter for matching. */
  function Event(id: string, start: int, end: int, reward: Option<real>): Span {
    Span(id, None, "", "", 0, "", "", start, end, None, reward, None, false)
  }

  function Name(k: nat): string {
    seq(k + 1, _ => 'x')
  }

  lemma NamesDiffer(j: nat, k: nat)
    requires Name(j) == Name(k)
    ensures j == k
  {
    assert |Name(j)| == j + 1 && |Name(k)| == k + 1;
  }

  /** Which positions of `Descent(starts, d)` are rewards, and which start time they have. */
  predicate RewardAt(d: nat, k: nat) {
    k < d || k == d + 2 || k == d + 3 || (k > d + 3 && (k - d) % 2 == 1)
  }

  function StartOf(d: nat, k: nat): nat {
    if k <= d then k
    else if k <= d + 1 then k
    else if k <= d + 3 then k - 2
    else d + 2 + (k - d - 4) / 2
  }

  /** The rewards before position `d` have no call. Before those of positions `d` and `d + 1` come two
      calls, the first over when the first of them starts, the second when the second does. Each later
      reward comes right after a call that is over when it starts. */
  function Descent(starts: seq<int>, d: nat): (events: seq<Span>)
    requires d + 1 < |starts|
    ensures |events| == 2 * |starts| - d
  {
    seq(2 * |starts| - d, k requires 0 <= k < 2 * |starts| - d =>
      assert StartOf(d, k) < |starts|;
      var time := starts[StartOf(d, k)];
      Event(Name(k), time, time, if RewardAt(d, k) then Some(1.0) else None))
  }

  function CallNames(d: nat, n: nat): set<string> {
    set k | 0 <= k < n && !RewardAt(d, k) :: Name(k)
  }

  lemma IsCall(d: nat, n: nat, k: nat)
    requires k < n
    ensures Name(k) in CallNames(d, n) <==> !RewardAt(d, k)
  {
    if Name(k) in CallNames(d, n) {
      var j :| 0 <= j < n && !RewardAt(d, j) && Name(j) == Name(k);
      NamesDiffer(j, k);
    }
  }

  function RewardsBefore(d: nat, k: nat): nat {
    if k <= d then k else if k <= d + 2 then d else if k == d + 3 then d + 1 else d + 2 + (k - d - 4) / 2
  }

  lemma StartsSnoc(events: seq<Span>, k: nat, starts: seq<int>, c: nat)
    requires k < |events| && c <= |starts| && RewardStarts(events[..k]) == starts[..c]
    requires events[k].reward.Some? ==> c < |starts| && events[k].start == starts[c]
    ensures RewardStarts(events[..k + 1]) == starts[..if events[k].reward.Some? then c + 1 else c]
  {
    assert events[..k + 1][..k] == events[..k];
    assert c < |starts| ==> starts[..c + 1] == starts[..c] + [starts[c]];
  }

  lemma RewardsBeforeStep(d: nat, k: nat)
    ensures RewardsBefore(d, k + 1) == RewardsBefore(d, k) + (if RewardAt(d, k) then 1 else 0)
    ensures RewardAt(d, k) ==> StartOf(d, k) == RewardsBefore(d, k)
  {
  }

  lemma {:induction false} DescentStartsUpto(starts: seq<int>, d: nat, k: nat)
    requires d + 1 < |starts| && k <= 2 * |starts| - d
    ensures RewardsBefore(d, k) <= |starts|
    ensures RewardStarts(Descent(starts, d)[..k]) == starts[..RewardsBefore(d, k)]
  {
    if k > 0 {
      DescentStartsUpto(starts, d, k - 1);
      RewardsBeforeStep(d, k - 1);
      StartsSnoc(Descent(starts, d), k - 1, starts, RewardsBefore(d, k - 1));
    }
  }

  lemma DescentStarts(starts: seq<int>, d: nat)
    requires d + 1 < |starts|
    ensures RewardStarts(Descent(starts, d)) == starts
  {
    var events := Descent(starts, d);
    DescentStartsUpto(starts, d, |events|);
    assert events[..|events|] == events && RewardsBefore(d, |events|) == |starts| && starts[..|starts|] == starts;
  }

  /** The call each reward from position `d` on could get if all of them got one. */
  function Partner(d: nat, j: nat): nat
    requires j >= d + 2
  {
    if j <= d + 3 then j - 2 else j - 1
  }

  function AllPairs(d: nat, n: nat): Pairs<string> {
    map j: nat | j < n && j >= d + 2 && RewardAt(d, j) :: Name(Partner(d, j))
  }

  lemma AllPairsMatch(starts: seq<int>, d: nat)
    requires d + 1 < |starts|
    ensures var events := Descent(starts, d); var n := |events|;
            IsMatching(EligibleCalls(events, CallNames(d, n), {}), AllPairs(d, n))
  {
    var events := Descent(starts, d);
    var n := |events|;
    var m, e := AllPairs(d, n), EligibleCalls(events, CallNames(d, n), {});
    forall j | j in m
      ensures j in e && m[j] in e[j]
    {
      var i := Partner(d, j);
      IsCall(d, n, i);
      assert !RewardAt(d, i) && StartOf(d, i) == StartOf(d, j);
      assert events[i].id == m[j];
    }
    forall i, j | i in m && j in m && m[i] == m[j]
      ensures i == j
    {
      NamesDiffer(Partner(d, i), Partner(d, j));
    }
  }

  lemma {:induction false} NoCallsYet(starts: seq<int>, d: nat, k: nat)
    requires d + 1 < |starts| && k <= d
    ensures var events := Descent(starts, d); AssignTo(events[..k], CallNames(d, |events|)) == []
  {
    if k > 0 {
      var events := Descent(starts, d);
      NoCallsYet(starts, d, k - 1);
      IsCall(d, |events|, k - 1);
      AssignStep(events, CallNames(d, |events|), k - 1);
    }
  }

  /** What is pending when the two rewards out of order come. */
  lemma TwoPending(starts: seq<int>, d: nat)
    requires d + 1 < |starts|
    ensures var events := Descent(starts, d);
            AssignTo(events[..d + 3], CallNames(d, |events|)) == [(Name(d), starts[d]), (Name(d + 1), starts[d + 1])]
  {
    var events := Descent(starts, d);
    var calls := CallNames(d, |events|);
    NoCallsYet(starts, d, d);
    IsCall(d, |events|, d);
    IsCall(d, |events|, d + 1);
    IsCall(d, |events|, d + 2);
    AssignStep(events, calls, d);
    AssignStep(events, calls, d + 1);
    AssignStep(events, calls, d + 2);
  }

  /** Rewards before position `d` stay without a call. */
  lemma NoneBefore(starts: seq<int>, d: nat, j: nat)
    requires d + 1 < |starts|
    ensures var events := Descent(starts, d);
            j in PairsUpto(events, CallNames(d, |events|), {}, |events|) ==>
              j >= d + 2 && RewardAt(d, j) && j < |events|
  {
    var events := Descent(starts, d);
    var calls := CallNames(d, |events|);
    var p, e := PairsUpto(events, calls, {}, |events|), EligibleCalls(events, calls, {});
    PairsAreGreedy(events, calls, {});
    if j in p {
      assert j in e && p[j] in e[j];
      var i :| 0 <= i <= j && events[i].id in calls && events[i].id == p[j];
      IsCall(d, |events|, i);
    }
  }

  /** The earlier of the two rewards takes the later call. */
  lemma TakesLater(starts: seq<int>, d: nat)
    requires d + 1 < |starts| && starts[d] > starts[d + 1]
    ensures var events := Descent(starts, d);
            var p := PairsUpto(events, CallNames(d, |events|), {}, |events|);
            d + 2 in p && p[d + 2] == Name(d + 1)
  {
    var events := Descent(starts, d);
    var calls := CallNames(d, |events|);
    var before := PairsUpto(events, calls, {}, d + 2);
    assert before.Values == {} by {
      PairsBelow(events, calls, {}, d + 2);
      PairsKept(events, calls, {}, d + 2, |events|);
      forall j | j in before
        ensures false
      {
        NoneBefore(starts, d, j);
      }
    }
    TwoPending(starts, d);
    PairAt(events, calls, {}, d + 2);
  }

  /** So the later of the two finds nothing it could use. */
  lemma LeavesLater(starts: seq<int>, d: nat)
    requires d + 1 < |starts| && starts[d] > starts[d + 1]
    ensures var events := Descent(starts, d); d + 3 !in PairsUpto(events, CallNames(d, |events|), {}, |events|)
  {
    var events := Descent(starts, d);
    var calls := CallNames(d, |events|);
    var p, e := PairsUpto(events, calls, {}, |events|), EligibleCalls(events, calls, {});
    TakesLater(starts, d);
    PairsAreGreedy(events, calls, {});
    assert Name(d + 1) in Used(p, d + 3);
    if d + 3 in p {
      OnlyOneFits(starts, d, p[d + 3]);
    }
  }

  lemma OnlyOneFits(starts: seq<int>, d: nat, c: string)
    requires d + 1 < |starts| && starts[d] > starts[d + 1]
    requires var events := Descent(starts, d);
             var eligible := EligibleCalls(events, CallNames(d, |events|), {});
             d + 3 in eligible && c in eligible[d + 3]
    ensures c == Name(d + 1)
  {
    var events := Descent(starts, d);
    var calls := CallNames(d, |events|);
    var i :| 0 <= i <= d + 3 && events[i].id in calls && events[i].end <= events[d + 3].start && events[i].id == c;
    IsCall(d, |events|, i);
  }

  lemma DescentFallsShort(starts: seq<int>, d: nat)
    requires d + 1 < |starts| && starts[d] > starts[d + 1]
    ensures var events := Descent(starts, d);
            |PairsUpto(events, CallNames(d, |events|), {}, |events|)| < |AllPairs(d, |events|)|
  {
    var events := Descent(starts, d);
    var p, m := PairsUpto(events, CallNames(d, |events|), {}, |events|), AllPairs(d, |events|);
    forall j | j in p
      ensures j in m
    {
      NoneBefore(starts, d, j);
    }
    LeavesLater(starts, d);
    assert d + 3 in m;
    SubsetSize(p.Keys, m.Keys - {d + 3});
  }

  function DescentTree(starts: seq<int>, d: nat): Tree
    requires d + 1 < |starts|
  {
    var events := Descent(starts, d);
    Tree(Event("root", 0, 0, None), seq(|events|, k requires 0 <= k < |events| => Tree(events[k], [])))
  }

  /** On this tree first sibling gives fewer rewards than some assignment could. */
  lemma DescentTreeFallsShort(starts: seq<int>, d: nat)
    requires d + 1 < |starts| && starts[d] > starts[d + 1]
    ensures var t := DescentTree(starts, d);
            var calls, m := CallNames(d, |t.kids|), AllPairs(d, |t.kids|);
            && OneLevel(t) && RewardStarts(Siblings(t)) == starts
            && IsMatching(EligibleCalls(Siblings(t), calls, {}), m) && |m| > |AllRewards(t, FirstSibling, calls)|
  {
    var t := DescentTree(starts, d);
    var calls := CallNames(d, |t.kids|);
    assert Siblings(t) == Descent(starts, d);
    DescentStarts(starts, d);
    AllPairsMatch(starts, d);
    assert |AllRewards(t, FirstSibling, calls)| < |AllPairs(d, |t.kids|)| by {
      DescentFallsShort(starts, d);
      OneLevelRewards(t, calls);
    }
  }

  /** Two calls over at 10 and at 3, then rewards at 10 and at 3. */
  function SmallTree(): Tree {
    Tree(Event("root", 0, 0, None),
         [Tree(Event("x", 10, 10, None), []), Tree(Event("xx", 3, 3, None), []),
          Tree(Event("xxx", 10, 10, Some(1.0)), []), Tree(Event("xxxx", 3, 3, Some(1.0)), [])])
  }

  /** The first reward takes the later call, which alone the second could have used. */
  lemma FirstSiblingNotMaximum(calls: set<string>, m: Pairs<string>)
    requires calls == {"x", "xx"} && m == map[2 := "x", 3 := "xx"]
    ensures IsMatching(EligibleCalls(Siblings(SmallTree()), calls, {}), m)
    ensures |AllRewards(SmallTree(), FirstSibling, calls)| < |m|
  {
    SmallNames();
    SmallDescent();
    SmallCalls();
    assert AllPairs(0, 4).Keys == {2, 3};
    assert AllPairs(0, 4) == m;
    DescentTreeFallsShort([10, 3], 0);
  }

  lemma SmallNames()
    ensures Name(0) == "x" && Name(1) == "xx" && Name(2) == "xxx" && Name(3) == "xxxx"
  {
  }

  lemma SmallDescent()
    ensures DescentTree([10, 3], 0) == SmallTree()
  {
    SmallNames();
    var events := Descent([10, 3], 0);
    assert events == [Event("x", 10, 10, None), Event("xx", 3, 3, None),
                      Event("xxx", 10, 10, Some(1.0)), Event("xxxx", 3, 3, Some(1.0))];
    assert DescentTree([10, 3], 0).kids == SmallTree().kids;
  }

  lemma SmallCalls()
    ensures CallNames(0, 4) == {"x", "xx"}
  {
    SmallNames();
    forall c
      ensures c in CallNames(0, 4) <==> c == "x" || c == "xx"
    {
      IsCall(0, 4, 0);
      IsCall(0, 4, 1);
    }
  }

  lemma {:induction false} SomeDescent(starts: seq<int>, i: nat, j: nat) returns (d: nat)
    requires i < j < |starts| && starts[i] > starts[j]
    ensures d + 1 < |starts| && starts[d] > starts[d + 1]
    decreases j - i
  {
    if starts[i] > starts[i + 1] {
      d := i;
    } else {
      d := SomeDescent(starts, i + 1, j);
    }
  }

  /** First sibling is maximum on every list of siblings with given reward times if and only if these are in
      time order. */
  lemma MaximumIffOrdered(starts: seq<int>)
    ensures AlwaysMaximum(starts) <==> Nondecreasing(starts)
  {
    if Nondecreasing(starts) {
      forall t: Tree, calls, m
        | OneLevel(t) && RewardStarts(Siblings(t)) == starts && IsMatching(EligibleCalls(Siblings(t), calls, {}), m)
        ensures |m| <= |AllRewards(t, FirstSibling, calls)|
      {
        OrderedStarts(Siblings(t));
        OrderedIsMaximum(Siblings(t), calls, {}, m);
        OneLevelRewards(t, calls);
      }
    } else {
      var i, j :| 0 <= i < j < |starts| && starts[i] > starts[j];
      var d := SomeDescent(starts, i, j);
      DescentTreeFallsShort(starts, d);
    }
  }
}
