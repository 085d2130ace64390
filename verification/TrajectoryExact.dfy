/** What `to_trajectory` and `adapt` return, read off the tree alone. */
module TrajectoryExact {
  import opened Basics
  import opened Spans
  import opened Matching
  import opened Sorting
  import opened FindCalls
  import opened RewardMatching
  import opened Trajectory
  import CallsExact
  import FromSpans
  import Repair
  import RepairTheorems

  // ---- The transitions ----

  /** `kept` are the calls with recorded tokens, or all of them, in order; `dropped` are the others. */
  ghost predicate Keeps(calls: seq<Call>, kept: seq<Call>, dropped: seq<Call>, skipEmpty: bool) {
    && Interleaves(kept, dropped, calls)
    && (forall c :: c in kept && skipEmpty ==> c.0.hasTokens)
    && (forall c :: c in dropped ==> skipEmpty && !c.0.hasTokens)
  }

  lemma {:induction false} RecordedExact(calls: seq<Call>, skipEmpty: bool) returns (dropped: seq<Call>)
    ensures Keeps(calls, Recorded(calls, skipEmpty), dropped, skipEmpty)
  {
    dropped := [];
    if calls != [] {
      var n := |calls| - 1;
      var c, kept := calls[n], Recorded(calls[..n], skipEmpty);
      dropped := RecordedExact(calls[..n], skipEmpty);
      InterleavesSnoc(kept, dropped, calls[..n], c);
      assert calls == calls[..n] + [c] && kept + [] == kept;
      dropped := if skipEmpty && !c.0.hasTokens then dropped + [c] else dropped;
    }
  }

  lemma {:induction false} InterleavesSnoc<T>(a: seq<T>, b: seq<T>, c: seq<T>, x: T)
    requires Interleaves(a, b, c)
    ensures Interleaves(a + [x], b, c + [x]) && Interleaves(a, b + [x], c + [x])
    decreases c
  {
    if c == [] {
      assert [x][1..] == [] && [] + [x] == [x];
    } else {
      assert (c + [x])[1..] == c[1..] + [x];
      if a != [] && a[0] == c[0] && Interleaves(a[1..], b, c[1..]) {
        InterleavesSnoc(a[1..], b, c[1..], x);
        assert (a + [x])[1..] == a[1..] + [x];
      } else {
        InterleavesSnoc(a, b[1..], c[1..], x);
        assert (b + [x])[1..] == b[1..] + [x];
      }
    }
  }

  // ---- The rewards ----

  /** The calls that the first `k` lists of events reward. */
  ghost function GivenBefore(ms: seq<Pairs<string>>, k: nat): set<string>
    requires k <= |ms|
  {
    if k == 0 then {} else GivenBefore(ms, k - 1) + ms[k - 1].Values
  }

  /** In one list each reward takes the latest call that is free, and the dictionary has its value. */
  ghost predicate MatchedIn(events: seq<Span>, calls: set<string>, done: set<string>, m: Pairs<string>, out: Rewards) {
    && LatestFree(events, calls, done, m)
    && forall j :: j in m ==> m[j] in out && events[j].reward == Some(out[m[j]])
  }

  /** The lists are matched one after the other, and the dictionary has nothing else. */
  ghost predicate Matched(lists: seq<seq<Span>>, calls: set<string>, ms: seq<Pairs<string>>, out: Rewards) {
    && |ms| == |lists| && out.Keys == GivenBefore(ms, |ms|)
    && forall k :: 0 <= k < |ms| ==> MatchedIn(lists[k], calls, GivenBefore(ms, k), ms[k], out)
  }

  /** The lists a policy goes through: all nodes by start time, or the children of each node in turn. */
  function Lists(t: Tree, policy: Policy): seq<seq<Span>> {
    match policy
    case FirstOccurrence => [TimeSorted(t)]
    case FirstSibling => SiblingLists(Nodes([t]))
  }

  function SiblingLists(nodes: seq<Tree>): seq<seq<Span>> {
    seq(|nodes|, k requires 0 <= k < |nodes| => Siblings(nodes[k]))
  }

  lemma GivenFront(ms: seq<Pairs<string>>, m: Pairs<string>, k: nat)
    requires k <= |ms|
    ensures GivenBefore(ms + [m], k) == GivenBefore(ms, k)
  {
    if k > 0 {
      GivenFront(ms, m, k - 1);
    }
  }

  ghost predicate Extends(out: Rewards, after: Rewards, more: set<string>) {
    after.Keys == out.Keys + more && forall id :: id in out ==> after[id] == out[id]
  }

  lemma {:induction false} SnocMatchedAt(lists: seq<seq<Span>>, calls: set<string>, ms: seq<Pairs<string>>,
                                         out: Rewards, events: seq<Span>, m: Pairs<string>, after: Rewards, k: nat)
    requires Matched(lists, calls, ms, out) && k <= |ms|
    requires MatchedIn(events, calls, out.Keys, m, after) && Extends(out, after, m.Values)
    ensures MatchedIn((lists + [events])[k], calls, GivenBefore(ms + [m], k), (ms + [m])[k], after)
  {
    GivenFront(ms, m, k);
    if k < |ms| {
      MatchedKept(lists[k], calls, GivenBefore(ms, k), ms[k], out, after);
    }
  }

  lemma {:induction false} GivenSnoc(ms: seq<Pairs<string>>, m: Pairs<string>)
    ensures GivenBefore(ms + [m], |ms + [m]|) == GivenBefore(ms, |ms|) + m.Values
  {
    GivenFront(ms, m, |ms|);
  }

  lemma {:induction false} MatchedSnoc(lists: seq<seq<Span>>, calls: set<string>, ms: seq<Pairs<string>>, out: Rewards,
                                       events: seq<Span>, m: Pairs<string>, after: Rewards)
    requires Matched(lists, calls, ms, out)
    requires MatchedIn(events, calls, out.Keys, m, after) && Extends(out, after, m.Values)
    ensures Matched(lists + [events], calls, ms + [m], after)
  {
    GivenSnoc(ms, m);
    forall k | 0 <= k < |ms + [m]|
      ensures MatchedIn((lists + [events])[k], calls, GivenBefore(ms + [m], k), (ms + [m])[k], after)
    {
      SnocMatchedAt(lists, calls, ms, out, events, m, after, k);
    }
  }

  /** What the loop over one list adds. */
  lemma {:induction false} NextMatched(events: seq<Span>, calls: set<string>, out: Rewards)
    ensures var m, after := PairsUpto(events, calls, out.Keys, |events|), RewardsUpto(events, calls, out, |events|);
            MatchedIn(events, calls, out.Keys, m, after) && Extends(out, after, m.Values)
  {
    RewardsRecordPairs(events, calls, out, |events|);
    PairsAreLatest(events, calls, out.Keys);
  }

  lemma MatchedKept(events: seq<Span>, calls: set<string>, done: set<string>, m: Pairs<string>, out: Rewards,
                    after: Rewards)
    requires MatchedIn(events, calls, done, m, out)
    requires forall id :: id in out ==> id in after && after[id] == out[id]
    ensures MatchedIn(events, calls, done, m, after)
  {
  }

  lemma SiblingListsSnoc(nodes: seq<Tree>)
    requires nodes != []
    ensures SiblingLists(nodes) == SiblingLists(nodes[..|nodes| - 1]) + [Siblings(nodes[|nodes| - 1])]
  {
  }

  lemma {:induction false} SiblingsMatched(nodes: seq<Tree>, calls: set<string>) returns (ms: seq<Pairs<string>>)
    ensures Matched(SiblingLists(nodes), calls, ms, SiblingRewards(nodes, calls, map[]))
  {
    ms := [];
    if nodes != [] {
      var n := |nodes| - 1;
      var events, before := Siblings(nodes[n]), SiblingRewards(nodes[..n], calls, map[]);
      ms := SiblingsMatched(nodes[..n], calls);
      var m, after := PairsUpto(events, calls, before.Keys, |events|), RewardsUpto(events, calls, before, |events|);
      NextMatched(events, calls, before);
      MatchedSnoc(SiblingLists(nodes[..n]), calls, ms, before, events, m, after);
      SiblingListsSnoc(nodes);
      ms := ms + [m];
    }
  }

  lemma AllMatched(t: Tree, policy: Policy, calls: set<string>) returns (ms: seq<Pairs<string>>)
    ensures Matched(Lists(t, policy), calls, ms, AllRewards(t, policy, calls))
  {
    if policy == FirstSibling {
      ms := SiblingsMatched(Nodes([t]), calls);
    } else {
      var events, none: Rewards := TimeSorted(t), map[];
      NextMatched(events, calls, none);
      ms := [PairsUpto(events, calls, none.Keys, |events|)];
      MatchedSnoc([], calls, [], none, events, ms[0], RewardsUpto(events, calls, none, |events|));
      assert [] + [events] == [events] && [] + ms == ms;
    }
  }

  /** The lists are those of the traversal: its nodes by start time, and the children of its nodes in turn. */
  lemma ListsExact(t: Tree)
    ensures var events := TimeSorted(t);
            && multiset(events) == multiset(Traverse(t))
            && forall i, j :: 0 <= i < j < |events| ==> events[i].start <= events[j].start
    ensures var nodes := Nodes([t]);
            && |nodes| == |Traverse(t)| && |Lists(t, FirstSibling)| == |nodes|
            && forall k :: 0 <= k < |nodes| ==>
                 && nodes[k].span == Traverse(t)[k] && |Lists(t, FirstSibling)[k]| == |nodes[k].kids|
                 && forall i :: 0 <= i < |nodes[k].kids| ==> Lists(t, FirstSibling)[k][i] == nodes[k].kids[i].span
  {
    Sorts(Traverse(t), StartKey);
    var events := TimeSorted(t);
    assert forall i, j :: 0 <= i < j < |events| ==> LexLe(StartKey(events[i]), StartKey(events[j]));
    NodesSpans([t]);
    NothingBefore(Traverse(t));
  }

  /** A transition has a reward exactly when one was matched to its call, and then the value of that one. */
  ghost predicate RewardsGo(ts: seq<Triplet>, lists: seq<seq<Span>>, ms: seq<Pairs<string>>) {
    && |ms| == |lists|
    && (forall i :: 0 <= i < |ts| ==> (ts[i].reward.Some? <==> ts[i].span.id in GivenBefore(ms, |ms|)))
    && (forall i, k, j :: 0 <= i < |ts| && 0 <= k < |ms| && j in ms[k] && ms[k][j] == ts[i].span.id ==>
          j < |lists[k]| && ts[i].reward == lists[k][j].reward)
  }

  lemma TransitionsRewarded(calls: seq<Call>, ids: set<string>, lists: seq<seq<Span>>, ms: seq<Pairs<string>>,
                            out: Rewards)
    requires Matched(lists, ids, ms, out)
    ensures RewardsGo(Transitions(calls, out), lists, ms)
  {
    var ts := Transitions(calls, out);
    forall i, k, j | 0 <= i < |ts| && 0 <= k < |ms| && j in ms[k] && ms[k][j] == ts[i].span.id
      ensures j < |lists[k]| && ts[i].reward == lists[k][j].reward
    {
      assert MatchedIn(lists[k], ids, GivenBefore(ms, k), ms[k], out);
    }
  }

  /** Without a final reward, each transition has the value of the reward that took the latest free call and
      found the transition's. */
  lemma TrajectoryRewards(t: Tree, o: Options) returns (ms: seq<Pairs<string>>)
    requires o.finalReward.None?
    ensures exists out :: Matched(Lists(t, o.policy), CallIds(AsCalls(TrajectoryOf(t, o))), ms, out)
    ensures RewardsGo(TrajectoryOf(t, o), Lists(t, o.policy), ms)
  {
    var calls := CallsIn(t, o);
    ms := AllMatched(t, o.policy, CallIds(calls));
    TrajectoryCalls(t, o);
    TransitionsRewarded(calls, CallIds(calls), Lists(t, o.policy), ms, AllRewards(t, o.policy, CallIds(calls)));
  }

  /** A final reward is the reward of the last transition and changes no other. */
  lemma FinalRewardIsLast(t: Tree, o: Options)
    requires o.finalReward.Some?
    ensures var ts, plain := TrajectoryOf(t, o), TrajectoryOf(t, o.(finalReward := None));
            && |ts| == |plain|
            && (forall i :: 0 <= i < |ts| - 1 ==> ts[i] == plain[i])
            && (ts != [] ==>
                  var last := |ts| - 1;
                  && ts[last].reward == o.finalReward
                  && ts[last].span == plain[last].span && ts[last].agent == plain[last].agent)
  {
    assert TrajectoryOf(t, o) == Finish(TrajectoryOf(t, o.(finalReward := None)), o.finalReward);
  }

  /** The transitions of a tree: among its nodes with their ancestors, `items`, the search takes those at `at`,
      with their labels; and those of them that are not skipped are the transitions, in order. */
  lemma TrajectoryTakes(t: Tree, o: Options)
    returns (items: seq<Item>, at: seq<nat>, found: seq<Call>, dropped: seq<Call>)
    requires DistinctIds(Bag([t]))
    ensures CallsExact.WithAncestors([t], [], items)
    ensures var start := if o.cfg.agentMatch.None? then Some("*") else None;
            CallsExact.Taken(items, o.cfg, Query(start, o.excludeReward, o.dedup), |items|, at, found)
    ensures Keeps(found, AsCalls(TrajectoryOf(t, o)), dropped, o.skipEmpty)
  {
    var q := Query(if o.cfg.agentMatch.None? then Some("*") else None, o.excludeReward, o.dedup);
    found := Collect([t], o.cfg, StartWithin(o), {}).0;
    items, at := CallsExact.FindTakes(t, o.cfg, q);
    dropped := RecordedExact(found, o.skipEmpty);
    TrajectoryCalls(t, o);
  }

  /** `adapt` searches the built tree, repaired if asked, without taking nested calls twice, and gives no
      final reward. */
  lemma AdaptedTakes(spans: seq<Span>, order: seq<string>, a: Adapter)
    returns (t: Tree, items: seq<Item>, at: seq<nat>, found: seq<Call>, dropped: seq<Call>, ms: seq<Pairs<string>>)
    requires FromSpans.UniqueIds(spans) && FromSpans.Enumerates(order, FromSpans.Missing(spans))
    requires FromSpans.NamesFree(spans) && Adapted(spans, order, a).Ok?
    ensures FromSpans.BuildTree(spans, order).Ok? && t == Prepared(FromSpans.BuildTree(spans, order).value, a.repair)
    ensures CallsExact.WithAncestors([t], [], items)
    ensures var start := if a.cfg.agentMatch.None? then Some("*") else None;
            CallsExact.Taken(items, a.cfg, Query(start, a.excludeReward, true), |items|, at, found)
    ensures var ts := Adapted(spans, order, a).value;
            && Keeps(found, AsCalls(ts), dropped, a.skipEmpty)
            && (exists out :: Matched(Lists(t, a.policy), CallIds(AsCalls(ts)), ms, out))
            && RewardsGo(ts, Lists(t, a.policy), ms)
  {
    t := Prepared(FromSpans.BuildTree(spans, order).value, a.repair);
    PreparedDistinct(spans, order, a.repair);
    items, at, found, dropped := TrajectoryTakes(t, Arguments(a));
    ms := TrajectoryRewards(t, Arguments(a));
  }

  lemma PreparedDistinct(spans: seq<Span>, order: seq<string>, repair: bool)
    requires FromSpans.UniqueIds(spans) && FromSpans.Enumerates(order, FromSpans.Missing(spans))
    requires FromSpans.NamesFree(spans) && FromSpans.BuildTree(spans, order).Ok?
    ensures DistinctIds(Bag([Prepared(FromSpans.BuildTree(spans, order).value, repair)]))
  {
    var t := FromSpans.BuildTree(spans, order).value;
    FromSpans.FromSpansExact(spans, order);
    RepairTheorems.RepairLosesAtMost(t);
    RepairTheorems.DistinctSub(Bag([Repair.RepairTree(t)]), Bag([t]));
  }
}
