/** `TracerTraceToTriplet.adapt`: build the tree, repair it in place, and turn the LLM calls found in
    it into a trajectory. */
module Trajectory {
  import opened Basics
  import opened Spans
  import opened Matching
  import opened Sorting
  import opened TraceTree
  import opened FindCalls
  import opened RewardMatching
  import opened FirstSibling
  import Repair
  import RepairTheorems
  import FromSpans

  /** The arguments of `to_trajectory`. */
  datatype Options = Options(
    cfg: Config,
    excludeReward: bool,
    dedup: bool,
    policy: Policy,
    finalReward: Option<real>,
    skipEmpty: bool)

  /** The attributes of the adapter, whose `adapt` leaves the other two arguments at their defaults. */
  datatype Adapter = Adapter(repair: bool, cfg: Config, excludeReward: bool, policy: Policy, skipEmpty: bool)

  function Arguments(a: Adapter): Options {
    Options(a.cfg, a.excludeReward, true, a.policy, None, a.skipEmpty)
  }

  /** A transition: what it holds besides agent and reward is computed from the span alone. */
  datatype Triplet = Triplet(span: Span, agent: string, reward: Option<real>)

  function StartWithin(o: Options): Within {
    Within(if o.cfg.agentMatch.None? then Some("*") else None,
           if o.excludeReward then Some(false) else None,
           if o.dedup then Some(false) else None)
  }

  /** The calls that are not skipped for having no recorded tokens. */
  function Recorded(calls: seq<Call>, skipEmpty: bool): seq<Call> {
    if calls == [] then []
    else
      var n := |calls| - 1;
      Recorded(calls[..n], skipEmpty) + (if skipEmpty && !calls[n].0.hasTokens then [] else [calls[n]])
  }

  function CallIds(calls: seq<Call>): set<string> {
    set i | 0 <= i < |calls| :: calls[i].0.id
  }

  function RewardOf(rewards: Rewards, id: string): Option<real> {
    if id in rewards then Some(rewards[id]) else None
  }

  function Transitions(calls: seq<Call>, rewards: Rewards): seq<Triplet> {
    seq(|calls|, i requires 0 <= i < |calls| =>
      Triplet(calls[i].0, calls[i].1, RewardOf(rewards, calls[i].0.id)))
  }

  /** The final reward replaces that of the last transition. */
  function Finish(ts: seq<Triplet>, finalReward: Option<real>): seq<Triplet> {
    if finalReward.None? || ts == [] then ts
    else ts[|ts| - 1 := ts[|ts| - 1].(reward := finalReward)]
  }

  function CallsIn(t: Tree, o: Options): seq<Call> {
    Recorded(Collect([t], o.cfg, StartWithin(o), {}).0, o.skipEmpty)
  }

  function TrajectoryOf(t: Tree, o: Options): seq<Triplet> {
    var calls := CallsIn(t, o);
    Finish(Transitions(calls, AllRewards(t, o.policy, CallIds(calls))), o.finalReward)
  }

  /** The tree after the optional repair. */
  function Prepared(t: Tree, repair: bool): Tree {
    if repair then Repair.RepairTree(t) else t
  }

  function Adapted(spans: seq<Span>, order: seq<string>, a: Adapter): Result<seq<Triplet>, string>
    requires FromSpans.UniqueIds(spans) && FromSpans.Enumerates(order, FromSpans.Missing(spans))
  {
    match FromSpans.BuildTree(spans, order)
    case Err(e) => Err(e)
    case Ok(t) => Ok(TrajectoryOf(Prepared(t, a.repair), Arguments(a)))
  }

  // ---- The search on the mutable tree ----

  /** The set of response ids that the recursive search shares. */
  class SeenIds {
    var ids: set<string>

    constructor ()
      ensures ids == {}
    {
      ids := {};
    }
  }

  type NodeCall = (TraceNode, string)

  function CallsOf(found: seq<NodeCall>): seq<Call> {
    seq(|found|, i requires 0 <= i < |found| => (found[i].0.span, found[i].1))
  }

  lemma {:induction false} CollectAppend(a: seq<Tree>, b: seq<Tree>, cfg: Config, w: Within, seen: set<string>)
    ensures var x := Collect(a, cfg, w, seen);
            var y := Collect(b, cfg, w, x.1);
            Collect(a + b, cfg, w, seen) == (x.0 + y.0, y.1)
  {
    if a == [] {
      assert a + b == b;
      NothingBefore(Collect(b, cfg, w, seen).0);
    } else {
      assert (a + b)[1..] == a[1..] + b;
      var x := a[0].span;
      var took := IsCall(x, cfg, w, seen);
      var below := Collect(a[0].kids, cfg, Down(x, cfg, w, took), Noted(x, took, seen));
      var own: seq<Call> := if took then [(x, w.agent.value)] else [];
      var rest := Collect(a[1..], cfg, w, below.1);
      CollectAppend(a[1..], b, cfg, w, below.1);
      Associates(own + below.0, rest.0, Collect(b, cfg, w, rest.1).0);
    }
  }

  lemma {:induction false} CollectAloneAppend(a: seq<Tree>, b: seq<Tree>, cfg: Config, w: Within)
    ensures CollectAlone(a + b, cfg, w) == CollectAlone(a, cfg, w) + CollectAlone(b, cfg, w)
  {
    if a == [] {
      assert a + b == b;
      NothingBefore(CollectAlone(b, cfg, w));
    } else {
      assert (a + b)[1..] == a[1..] + b;
      CollectAloneAppend(a[1..], b, cfg, w);
      Associates(Outermost(a[0], cfg, w), CollectAlone(a[1..], cfg, w), CollectAlone(b, cfg, w));
    }
  }

  lemma SearchStep(ts: seq<Tree>, i: nat, cfg: Config, w: Within, seen: Option<set<string>>)
    requires i < |ts|
    ensures var x := Search(ts[..i], cfg, w, seen);
            var y := Search([ts[i]], cfg, w, x.1);
            Search(ts[..i + 1], cfg, w, seen) == (x.0 + y.0, y.1)
  {
    if seen.Some? {
      CollectAppend(ts[..i], [ts[i]], cfg, w, seen.value);
    } else {
      CollectAloneAppend(ts[..i], [ts[i]], cfg, w);
    }
    assert ts[..i + 1] == ts[..i] + [ts[i]];
  }

  /** Which set of response ids the children of `x` are searched with. */
  function Handed(x: Span, took: bool, seen: Option<set<string>>): Option<set<string>> {
    if seen.None? && !took then None else Some(Noted(x, took, IdsIn(seen)))
  }

  lemma CollectAloneOne(t: Tree, cfg: Config, w: Within)
    ensures CollectAlone([t], cfg, w) == Outermost(t, cfg, w)
  {
    assert [t][1..] == [] && CollectAlone([], cfg, w) == [];
    NothingBefore(Outermost(t, cfg, w));
  }

  lemma SearchOne(t: Tree, cfg: Config, w: Within, seen: Option<set<string>>)
    ensures var took := IsCall(t.span, cfg, w, IdsIn(seen));
            var below := Search(t.kids, cfg, Down(t.span, cfg, w, took), Handed(t.span, took, seen));
            Search([t], cfg, w, seen) == ((if took then [(t.span, w.agent.value)] else []) + below.0,
                                          if seen.Some? then below.1 else None)
  {
    if seen.Some? {
      CollectOne(t, cfg, w, seen.value);
    } else {
      CollectAloneOne(t, cfg, w);
      NothingBefore(Outermost(t, cfg, w));
    }
  }

  lemma CallsAppend(a: seq<NodeCall>, b: seq<NodeCall>)
    ensures CallsOf(a + b) == CallsOf(a) + CallsOf(b)
  {
  }

  /** What the caller's set holds, if the caller supplies one. */
  function Held(seen: SeenIds?): Option<set<string>>
    reads seen
  {
    if seen == null then None else Some(seen.ids)
  }

  /** `find_llm_calls` up to its loop: whether `x` is a call, the state below it, and the set shared there. */
  method LookAt(x: Span, cfg: Config, w: Within, seen: SeenIds?)
    returns (isCall: bool, down: Within, shared: SeenIds?)
    modifies seen
    ensures isCall == IsCall(x, cfg, w, IdsIn(old(Held(seen)))) && down == Down(x, cfg, w, isCall)
    ensures Held(shared) == Handed(x, isCall, old(Held(seen)))
    ensures shared == seen || (seen == null && fresh(shared))
  {
    isCall, down, shared := true, w, seen;
    if w.agent.None? || w.reward == Some(true) {
      isCall := false;
    }
    if !cfg.llmMatch(x.name) {
      isCall := false;
    }
    if isCall {
      if x.responseId.None? && w.call == Some(true) {
        isCall := false;
      }
      if x.responseId.Some? && seen != null && x.responseId.value in seen.ids {
        isCall := false;
      }
      if isCall {
        if shared == null {
          shared := new SeenIds();
        }
        if x.responseId.Some? {
          shared.ids := shared.ids + {x.responseId.value};
        }
        if w.call.Some? {
          down := down.(call := Some(true));
        }
      }
    }
    if x.agentName.Some? {
      down := down.(agent := if cfg.agentMatch.None? || cfg.agentMatch.value(x.agentName.value) then x.agentName
                             else None);
    }
    if w.reward.Some? && x.reward.Some? {
      down := down.(reward := Some(true));
    }
  }

  /** `find_llm_calls` on `node`, adding the response ids it takes to `seen` if there is such a set. */
  method FindLlmCalls(node: TraceNode, cfg: Config, w: Within, seen: SeenIds?, ghost t: Tree, ghost env: Env)
    returns (found: seq<NodeCall>)
    requires Holds(env, t) && t.span.id in env && env[t.span.id] == node
    modifies seen
    ensures (CallsOf(found), Held(seen)) == Search([t], cfg, w, old(Held(seen)))
    decreases t, 1
  {
    RootHeld(env, t);
    var isCall, down, shared := LookAt(node.span, cfg, w, seen);
    found := if isCall then [(node, w.agent.value)] else [];
    assert CallsOf(found) == if isCall then [(t.span, w.agent.value)] else [];
    SearchOne(t, cfg, w, old(Held(seen)));
    var below := FindBelow(node, cfg, down, shared, t, env);
    CallsAppend(found, below);
    found := found + below;
  }

  /** The loop over the children of `node`. */
  method FindBelow(node: TraceNode, cfg: Config, w: Within, seen: SeenIds?, ghost t: Tree, ghost env: Env)
    returns (found: seq<NodeCall>)
    requires Holds(env, t) && t.span.id in env && env[t.span.id] == node
    modifies seen
    ensures (CallsOf(found), Held(seen)) == Search(t.kids, cfg, w, old(Held(seen)))
    decreases t, 0
  {
    RootHeld(env, t);
    found := [];
    assert t.kids[..0] == [] && CallsOf([]) == [];
    for i := 0 to |node.children|
      invariant |node.children| == |t.kids| && Holds(env, t)
      invariant (CallsOf(found), Held(seen)) == Search(t.kids[..i], cfg, w, old(Held(seen)))
    {
      HoldsBelow(env, t, i);
      SearchStep(t.kids, i, cfg, w, old(Held(seen)));
      var more := FindLlmCalls(node.children[i], cfg, w, seen, t.kids[i], env);
      CallsAppend(found, more);
      found := found + more;
    }
    assert t.kids[..|t.kids|] == t.kids;
  }

  // ---- Rewards on the mutable tree ----

  lemma {:induction false} NodesSpans(ts: seq<Tree>)
    ensures |Nodes(ts)| == |Preorder(ts)|
    ensures forall k :: 0 <= k < |Nodes(ts)| ==> Nodes(ts)[k].span == Preorder(ts)[k]
    decreases ts
  {
    if ts != [] {
      NodesSpans(ts[0].kids);
      NodesSpans(ts[1..]);
    }
  }

  lemma {:induction false} NodesHeld(env: Env, ts: seq<Tree>)
    requires forall i :: 0 <= i < |ts| ==> Holds(env, ts[i])
    ensures forall k :: 0 <= k < |Nodes(ts)| ==> Holds(env, Nodes(ts)[k])
    decreases ts
  {
    if ts != [] {
      forall i | 0 <= i < |ts[0].kids|
        ensures Holds(env, ts[0].kids[i])
      {
        HoldsBelow(env, ts[0], i);
      }
      NodesHeld(env, ts[0].kids);
      NodesHeld(env, ts[1..]);
    }
  }

  lemma SiblingsHeld(env: Env, t: Tree)
    requires Holds(env, t)
    ensures t.span.id in env && SpansOf(env[t.span.id].children) == Siblings(t)
  {
    RootHeld(env, t);
    forall i | 0 <= i < |t.kids|
      ensures env[t.span.id].children[i].span == t.kids[i].span
    {
      HoldsBelow(env, t, i);
      RootHeld(env, t.kids[i]);
    }
    assert |IdsOf(env[t.span.id].children)| == |t.kids|;
  }

  /** The traversal visits, in order, the nodes that hold the subtrees of `t`. */
  lemma VisitedSiblings(env: Env, t: Tree, nodes: seq<TraceNode>, k: nat)
    requires Holds(env, t) && Known(env, nodes) && SpansOf(nodes) == Traverse(t) && k < |nodes|
    ensures |Nodes([t])| == |nodes| && SpansOf(nodes[k].children) == Siblings(Nodes([t])[k])
  {
    NodesSpans([t]);
    NothingBefore(Traverse(t));
    assert Preorder([t]) == Traverse(t);
    NodesHeld(env, [t]);
    assert SpansOf(nodes)[k] == Nodes([t])[k].span;
    SiblingsHeld(env, Nodes([t])[k]);
  }

  /** The outer loop of first sibling, over the children of each node in turn. */
  method MatchSiblings(nodes: seq<TraceNode>, calls: set<string>, ghost t: Tree, ghost env: Env)
    returns (rewards: Rewards)
    requires Holds(env, t) && Known(env, nodes) && SpansOf(nodes) == Traverse(t)
    ensures rewards == SiblingRewards(Nodes([t]), calls, map[])
  {
    rewards := map[];
    ghost var trees := Nodes([t]);
    assert |trees| == |nodes| by {
      NodesSpans([t]);
      NothingBefore(Traverse(t));
      assert |SpansOf(nodes)| == |nodes|;
    }
    for i := 0 to |nodes|
      invariant rewards == SiblingRewards(trees[..i], calls, map[])
    {
      VisitedSiblings(env, t, nodes, i);
      assert trees[..i + 1][..i] == trees[..i];
      rewards := MatchEvents(SpansOf(nodes[i].children), calls, rewards);
    }
    assert trees[..|trees|] == trees;
  }

  /** `match_rewards` on `node`. */
  method MatchRewards(node: TraceNode, policy: Policy, calls: set<string>, ghost t: Tree, ghost env: Env)
    returns (rewards: Rewards)
    requires Holds(env, t) && t.span.id in env && env[t.span.id] == node
    ensures rewards == AllRewards(t, policy, calls)
  {
    var nodes := node.Traverse(t, env);
    match policy {
      case FirstOccurrence =>
        rewards := MatchEvents(StableSort(SpansOf(nodes), StartKey), calls, map[]);
      case FirstSibling =>
        rewards := MatchSiblings(nodes, calls, t, env);
    }
  }

  // ---- The trajectory ----

  /** The loop over the calls found: those to keep, and their transitions without rewards. */
  method KeepRecorded(found: seq<NodeCall>, skipEmpty: bool) returns (kept: seq<Call>)
    ensures kept == Recorded(CallsOf(found), skipEmpty)
  {
    kept := [];
    for i := 0 to |found|
      invariant kept == Recorded(CallsOf(found[..i]), skipEmpty)
    {
      assert CallsOf(found[..i + 1])[..i] == CallsOf(found[..i]);
      if skipEmpty && !found[i].0.span.hasTokens {
        continue;
      }
      kept := kept + [(found[i].0.span, found[i].1)];
    }
    assert found[..|found|] == found;
  }

  /** `to_trajectory` on `node`. */
  method ToTrajectory(node: TraceNode, o: Options, ghost t: Tree, ghost env: Env) returns (ts: seq<Triplet>)
    requires Holds(env, t) && t.span.id in env && env[t.span.id] == node
    ensures ts == TrajectoryOf(t, o)
  {
    var seen := new SeenIds();
    var found := FindLlmCalls(node, o.cfg, StartWithin(o), seen, t, env);
    var kept := KeepRecorded(found, o.skipEmpty);
    assert kept == CallsIn(t, o);
    var rewards := MatchRewards(node, o.policy, CallIds(kept), t, env);
    ts := Transitions(kept, rewards);
    if o.finalReward.Some? && |ts| > 0 {
      ts := ts[|ts| - 1 := ts[|ts| - 1].(reward := o.finalReward)];
    }
  }

  // ---- The adapter ----

  type Kids = map<string, seq<TraceNode>>

  ghost predicate Covers(m: multiset<Span>, ids: set<string>) {
    forall id :: id in ids ==> HasId(m, id)
  }

  /** `env` has exactly the nodes of `ts`, with the children lists `kids` as in `ts`. */
  ghost predicate Planted(env: Env, kids: Kids, ts: seq<Tree>) {
    Closed(env, kids) && Shows(ShapeOf(kids), ts) && Names(env, ts) && Covers(Bag(ts), env.Keys)
  }

  /** Two disjoint maps and one more entry. */
  ghost function Merged<V>(a: map<string, V>, b: map<string, V>, id: string, v: V): map<string, V> {
    (a + b)[id := v]
  }

  lemma JoinedKeys<V>(a: map<string, V>, b: map<string, V>, id: string, v: V)
    ensures Merged(a, b, id, v).Keys == a.Keys + b.Keys + {id}
  {
  }

  ghost predicate Apart(a: set<string>, b: set<string>, id: string) {
    a !! b && id !in a && id !in b
  }

  lemma KnownJoined(a: Env, b: Env, id: string, n: TraceNode, ns: seq<TraceNode>)
    requires Apart(a.Keys, b.Keys, id) && (Known(a, ns) || Known(b, ns))
    ensures Known(Merged(a, b, id, n), ns)
  {
  }

  lemma ClosedJoined(a: Env, ka: Kids, b: Env, kb: Kids, n: TraceNode, ns: seq<TraceNode>)
    requires Apart(a.Keys, b.Keys, n.span.id) && Closed(a, ka) && Closed(b, kb) && Known(a, ns)
    ensures Closed(Merged(a, b, n.span.id, n), Merged(ka, kb, n.span.id, ns))
  {
    var id := n.span.id;
    var env, kids := Merged(a, b, id, n), Merged(ka, kb, id, ns);
    KnownJoined(a, b, id, n, ns);
    forall k | k in env
      ensures env[k].span.id == k && Known(env, kids[k])
    {
      if k in a {
        KnownJoined(a, b, id, n, ka[k]);
      } else if k in b {
        KnownJoined(a, b, id, n, kb[k]);
      }
    }
  }

  lemma ShowsJoined(a: Kids, b: Kids, id: string, ns: seq<TraceNode>, ts: seq<Tree>)
    requires Apart(a.Keys, b.Keys, id) && (Shows(ShapeOf(a), ts) || Shows(ShapeOf(b), ts))
    ensures Shows(ShapeOf(Merged(a, b, id, ns)), ts)
  {
    var g := ShapeOf(Merged(a, b, id, ns));
    if Shows(ShapeOf(a), ts) {
      ShowsFrame(ShapeOf(a), g, ts);
    } else {
      ShowsFrame(ShapeOf(b), g, ts);
    }
  }

  lemma NamesJoined(a: Env, b: Env, n: TraceNode, ts: seq<Tree>)
    requires ts != [] && n.span == ts[0].span && Apart(a.Keys, b.Keys, n.span.id)
    requires Names(a, ts[0].kids) && Names(b, ts[1..])
    ensures Names(Merged(a, b, n.span.id, n), ts)
  {
  }

  lemma CoversJoined(x: Span, p: multiset<Span>, q: multiset<Span>, a: set<string>, b: set<string>)
    requires Covers(p, a) && Covers(q, b)
    ensures Covers(multiset{x} + p + q, a + b + {x.id})
  {
    var m := multiset{x} + p + q;
    forall id | id in a + b + {x.id}
      ensures HasId(m, id)
    {
      var y :| (y in p || y in q || y == x) && y.id == id;
      assert y in m;
    }
  }

  lemma PlantedApart(a: Env, ka: Kids, b: Env, kb: Kids, ts: seq<Tree>)
    requires ts != [] && DistinctIds(Bag(ts))
    requires Planted(a, ka, ts[0].kids) && Planted(b, kb, ts[1..])
    ensures Apart(a.Keys, b.Keys, ts[0].span.id)
  {
    DistinctParts(ts);
  }

  lemma RootShown(a: Kids, b: Kids, x: Span, ns: seq<TraceNode>, ts: seq<Tree>)
    requires ts != [] && x == ts[0].span && Apart(a.Keys, b.Keys, x.id)
    requires Shows(ShapeOf(a), ts[0].kids) && Shows(ShapeOf(b), ts[1..]) && IdsOf(ns) == KidIds(ts[0].kids)
    ensures Shows(ShapeOf(Merged(a, b, x.id, ns)), ts)
  {
    ShowsJoined(a, b, x.id, ns, ts[0].kids);
    ShowsJoined(a, b, x.id, ns, ts[1..]);
  }

  /** A new node on top of the nodes for the first tree's children, beside those for the other trees. */
  lemma PlantedJoined(a: Env, ka: Kids, b: Env, kb: Kids, ts: seq<Tree>, n: TraceNode, ns: seq<TraceNode>)
    requires ts != [] && n.span == ts[0].span && Apart(a.Keys, b.Keys, n.span.id)
    requires Planted(a, ka, ts[0].kids) && Planted(b, kb, ts[1..])
    requires Known(a, ns) && IdsOf(ns) == KidIds(ts[0].kids)
    ensures Planted(Merged(a, b, n.span.id, n), Merged(ka, kb, n.span.id, ns), ts)
  {
    var env, kids := Merged(a, b, n.span.id, n), Merged(ka, kb, n.span.id, ns);
    assert Closed(env, kids) by { ClosedJoined(a, ka, b, kb, n, ns); }
    assert Shows(ShapeOf(kids), ts) by { RootShown(ka, kb, n.span, ns, ts); }
    assert Names(env, ts) by { NamesJoined(a, b, n, ts); }
    assert Covers(Bag(ts), env.Keys) by {
      CoversJoined(n.span, Bag(ts[0].kids), Bag(ts[1..]), a.Keys, b.Keys);
      JoinedKeys(a, b, n.span.id, n);
    }
  }

  lemma KidsJoined(a: Env, b: Env, n: TraceNode)
    requires Apart(a.Keys, b.Keys, n.span.id)
    ensures KidsOf(Merged(a, b, n.span.id, n)) == Merged(KidsOf(a), KidsOf(b), n.span.id, n.children)
  {
  }

  lemma KnownMore(env: Env, n: TraceNode, ns: seq<TraceNode>, ts: seq<Tree>)
    requires ts != [] && n.span == ts[0].span && IdsOf(ns) == KidIds(ts[1..])
    requires n.span.id in env && env[n.span.id] == n && Known(env, ns)
    ensures Known(env, [n] + ns) && IdsOf([n] + ns) == KidIds(ts)
  {
    var all := [n] + ns;
    assert |IdsOf(ns)| == |ts| - 1;
    forall i | 0 <= i < |all|
      ensures IdsOf(all)[i] == KidIds(ts)[i]
    {
      assert i > 0 ==> IdsOf(ns)[i - 1] == KidIds(ts[1..])[i - 1];
    }
  }

  twostate lemma NewJoined(new a: Env, new b: Env, id: string, new n: TraceNode)
    requires forall k :: k in a ==> fresh(a[k])
    requires (forall k :: k in b ==> fresh(b[k])) && fresh(n)
    ensures forall k :: k in Merged(a, b, id, n) ==> fresh(Merged(a, b, id, n)[k])
  {
  }

  twostate lemma KidsKept(env: Env)
    requires forall id :: id in env ==> unchanged(env[id])
    ensures KidsOf(env) == old(KidsOf(env))
  {
  }

  /** What holds after allocating `node` for the first tree and `more` for the others. */
  lemma PlantedMore(below: Env, rest: Env, ts: seq<Tree>, node: TraceNode, more: seq<TraceNode>)
    requires ts != [] && DistinctIds(Bag(ts)) && node.span == ts[0].span
    requires Planted(below, KidsOf(below), ts[0].kids) && Planted(rest, KidsOf(rest), ts[1..])
    requires Known(below, node.children) && IdsOf(node.children) == KidIds(ts[0].kids)
    requires Known(rest, more) && IdsOf(more) == KidIds(ts[1..])
    ensures var env := Merged(below, rest, node.span.id, node);
            Planted(env, KidsOf(env), ts) && Known(env, [node] + more) && IdsOf([node] + more) == KidIds(ts)
  {
    var env := Merged(below, rest, node.span.id, node);
    PlantedApart(below, KidsOf(below), rest, KidsOf(rest), ts);
    assert Planted(env, KidsOf(env), ts) by {
      PlantedJoined(below, KidsOf(below), rest, KidsOf(rest), ts, node, node.children);
      KidsJoined(below, rest, node);
    }
    assert Known(env, [node] + more) && IdsOf([node] + more) == KidIds(ts) by {
      KnownJoined(below, rest, node.span.id, node, more);
      KnownMore(env, node, more, ts);
    }
  }

  /** Allocates the nodes of sibling trees, children first. */
  method Plant(ts: seq<Tree>) returns (nodes: seq<TraceNode>, ghost env: Env)
    requires DistinctIds(Bag(ts))
    ensures forall id :: id in env ==> fresh(env[id])
    ensures Planted(env, KidsOf(env), ts)
    ensures Known(env, nodes) && IdsOf(nodes) == KidIds(ts)
  {
    if ts == [] {
      nodes, env := [], map[];
    } else {
      assert DistinctIds(Bag(ts[0].kids)) && DistinctIds(Bag(ts[1..])) by { DistinctParts(ts); }
      var kids, below := Plant(ts[0].kids);
      label First:
      var node := new TraceNode(ts[0].span, kids);
      var more, rest := Plant(ts[1..]);
      KidsKept@First(below);
      PlantedMore(below, rest, ts, node, more);
      NewJoined(below, rest, node.span.id, node);
      env := Merged(below, rest, node.span.id, node);
      nodes := [node] + more;
    }
  }

  /** `TracerTraceToTriplet.adapt`. */
  method Adapt(spans: seq<Span>, unfoundRoots: seq<string>, a: Adapter) returns (r: Result<seq<Triplet>, string>)
    requires FromSpans.UniqueIds(spans) && FromSpans.Enumerates(unfoundRoots, FromSpans.Missing(spans))
    requires FromSpans.NamesFree(spans)
    ensures r == Adapted(spans, unfoundRoots, a)
  {
    var built := FromSpans.FromSpans(spans, unfoundRoots);
    if built.Err? {
      return Err(built.error);
    }
    var t := built.value;
    FromSpans.FromSpansExact(spans, unfoundRoots);
    var nodes, env := Plant([t]);
    PlantedHolds(env, t, nodes);
    if a.repair {
      nodes[0].RepairHierarchy(t, env);
    }
    var ts := ToTrajectory(nodes[0], Arguments(a), Prepared(t, a.repair), env);
    r := Ok(ts);
  }

  lemma PlantedHolds(env: Env, t: Tree, nodes: seq<TraceNode>)
    requires Planted(env, KidsOf(env), [t]) && Known(env, nodes) && IdsOf(nodes) == KidIds([t])
    ensures Holds(env, t) && |nodes| == 1 && t.span.id in env && env[t.span.id] == nodes[0]
    ensures NodesOf(env, t) <= env.Values
  {
    assert |IdsOf(nodes)| == 1 && IdsOf(nodes)[0] == t.span.id;
  }

  // ---- Which response ids come out ----

  function AsCalls(ts: seq<Triplet>): seq<Call> {
    seq(|ts|, i requires 0 <= i < |ts| => (ts[i].span, ts[i].agent))
  }

  /** The transitions are the recorded calls in the order found, with their agents; rewards aside. */
  lemma TrajectoryCalls(t: Tree, o: Options)
    ensures AsCalls(TrajectoryOf(t, o)) == CallsIn(t, o)
  {
  }

  lemma {:induction false} AllRecorded(calls: seq<Call>)
    ensures Recorded(calls, false) == calls
  {
    if calls != [] {
      AllRecorded(calls[..|calls| - 1]);
    }
  }

  /** The response ids on rooted input spans whose name matches. */
  ghost function InputIds(spans: seq<Span>, cfg: Config): set<string> {
    set s | s in spans && FromSpans.Rooted(spans, s.id) && cfg.llmMatch(s.name) && s.responseId.Some?
      :: s.responseId.value
  }

  lemma ExactIds(spans: seq<Span>, bag: multiset<Span>, cfg: Config)
    requires FromSpans.ExactNodes(spans, bag)
    ensures MatchIds(bag, cfg) == InputIds(spans, cfg)
  {
    forall id | id in InputIds(spans, cfg)
      ensures id in MatchIds(bag, cfg)
    {
      var s :| s in spans && FromSpans.Rooted(spans, s.id) && cfg.llmMatch(s.name) && s.responseId == Some(id);
      assert s in bag;
    }
    forall id | id in MatchIds(bag, cfg)
      ensures id in InputIds(spans, cfg)
    {
      var x :| x in bag && cfg.llmMatch(x.name) && x.responseId == Some(id);
      assert x in spans;
    }
  }

  /** Neither building nor repairing the tree changes the response ids found on matching names. */
  lemma PreparedIds(spans: seq<Span>, order: seq<string>, cfg: Config, repair: bool)
    requires FromSpans.UniqueIds(spans) && FromSpans.Enumerates(order, FromSpans.Missing(spans))
    requires FromSpans.NamesFree(spans) && (repair ==> FromSpans.ContainedSpans(spans))
    requires FromSpans.BuildTree(spans, order).Ok?
    ensures MatchIds(Bag([Prepared(FromSpans.BuildTree(spans, order).value, repair)]), cfg) == InputIds(spans, cfg)
  {
    var t := FromSpans.BuildTree(spans, order).value;
    FromSpans.FromSpansExact(spans, order);
    if repair {
      FromSpans.FromSpansShape(spans, order);
      RepairTheorems.RepairKeepsNodes(t);
    }
    if t.span.id == FromSpans.VIRTUAL_ROOT && FromSpans.ExactNodes(spans, Bag(t.kids)) {
      RootAdds(t, cfg);
      ExactIds(spans, Bag(t.kids), cfg);
    } else {
      ExactIds(spans, Bag([t]), cfg);
    }
  }

  lemma RootAdds(t: Tree, cfg: Config)
    requires t.span.responseId.None?
    ensures MatchIds(Bag([t]), cfg) == MatchIds(Bag(t.kids), cfg)
  {
    assert Bag([t]) == multiset{t.span} + Bag(t.kids);
  }

  /** With no agent filter and rewards not excluded, the trajectory carries exactly the response ids
      of the rooted input spans whose name matches, each once, whether or not the tree was repaired. */
  lemma AdaptedIds(spans: seq<Span>, order: seq<string>, a: Adapter)
    requires FromSpans.UniqueIds(spans) && FromSpans.Enumerates(order, FromSpans.Missing(spans))
    requires FromSpans.NamesFree(spans) && (a.repair ==> FromSpans.ContainedSpans(spans))
    requires a.cfg.agentMatch.None? && !a.excludeReward && !a.skipEmpty && Adapted(spans, order, a).Ok?
    ensures EachOnce(ResponseIds(AsCalls(Adapted(spans, order, a).value)), InputIds(spans, a.cfg))
  {
    var t, o := Prepared(FromSpans.BuildTree(spans, order).value, a.repair), Arguments(a);
    TrajectoryCalls(t, o);
    AllRecorded(Collect([t], o.cfg, StartWithin(o), {}).0);
    FindIds(t, a.cfg, true);
    PreparedIds(spans, order, a.cfg, a.repair);
  }

  /** On acyclic input that is every span whose name matches. */
  lemma AcyclicIds(spans: seq<Span>, cfg: Config)
    requires FromSpans.UniqueIds(spans) && FromSpans.Acyclic(spans)
    ensures InputIds(spans, cfg) == MatchIds(multiset(spans), cfg)
  {
    FromSpans.RootedIffAcyclic(spans);
  }

  // ---- How many rewards come out ----

  lemma {:induction false} CollectNodes(ts: seq<Tree>, cfg: Config, w: Within, seen: set<string>)
    ensures multiset(CallSpans(Collect(ts, cfg, w, seen).0)) <= Bag(ts)
    decreases ts
  {
    if ts != [] {
      var x := ts[0].span;
      var took := IsCall(x, cfg, w, seen);
      var below := Collect(ts[0].kids, cfg, Down(x, cfg, w, took), Noted(x, took, seen));
      var rest := Collect(ts[1..], cfg, w, below.1);
      var own: seq<Call> := if took then [(x, w.agent.value)] else [];
      CollectNodes(ts[0].kids, cfg, Down(x, cfg, w, took), Noted(x, took, seen));
      CollectNodes(ts[1..], cfg, w, below.1);
      assert multiset(CallSpans(own)) <= multiset{x} by {
        assert CallSpans(own) == if took then [x] else [];
      }
      SpansOfThree(own, below.0, rest.0);
      assert Collect(ts, cfg, w, seen).0 == own + below.0 + rest.0;
    }
  }

  lemma SpansOfThree(a: seq<Call>, b: seq<Call>, c: seq<Call>)
    ensures multiset(CallSpans(a + b + c)) ==
            multiset(CallSpans(a)) + multiset(CallSpans(b)) + multiset(CallSpans(c))
  {
    assert CallSpans(a + b + c) == CallSpans(a) + CallSpans(b) + CallSpans(c);
  }

  function CallSpans(calls: seq<Call>): seq<Span> {
    seq(|calls|, i requires 0 <= i < |calls| => calls[i].0)
  }

  lemma {:induction false} RecordedNodes(calls: seq<Call>, skipEmpty: bool)
    ensures multiset(CallSpans(Recorded(calls, skipEmpty))) <= multiset(CallSpans(calls))
  {
    if calls != [] {
      var n := |calls| - 1;
      RecordedNodes(calls[..n], skipEmpty);
      var last: seq<Call> := if skipEmpty && !calls[n].0.hasTokens then [] else [calls[n]];
      var kept := Recorded(calls[..n], skipEmpty);
      assert CallSpans(kept + last) == CallSpans(kept) + CallSpans(last);
      assert CallSpans(calls) == CallSpans(calls[..n]) + [calls[n].0];
    }
  }

  /** No node is taken twice. */
  lemma CallsDistinct(t: Tree, o: Options)
    requires DistinctIds(Bag([t]))
    ensures DistinctIds(multiset(CallSpans(CallsIn(t, o))))
  {
    var found := Collect([t], o.cfg, StartWithin(o), {}).0;
    CollectNodes([t], o.cfg, StartWithin(o), {});
    RecordedNodes(found, o.skipEmpty);
    RepairTheorems.DistinctSub(multiset(CallSpans(CallsIn(t, o))), Bag([t]));
  }

  function Rewarded(ts: seq<Triplet>): nat {
    if ts == [] then 0 else Rewarded(ts[..|ts| - 1]) + (if ts[|ts| - 1].reward.Some? then 1 else 0)
  }

  /** Every call has an id the calls before it do not have. */
  ghost predicate NewIds(calls: seq<Call>) {
    calls == [] || (NewIds(calls[..|calls| - 1]) && calls[|calls| - 1].0.id !in CallIds(calls[..|calls| - 1]))
  }

  lemma {:induction false} DistinctNew(calls: seq<Call>)
    requires DistinctIds(multiset(CallSpans(calls)))
    ensures NewIds(calls)
  {
    if calls != [] {
      var n := |calls| - 1;
      var front, x := calls[..n], calls[n].0;
      assert CallSpans(calls) == CallSpans(front) + [x];
      DistinctSplit(multiset(CallSpans(front)), multiset{x});
      DistinctNew(front);
      OtherIds(front, x);
    }
  }

  lemma OtherIds(front: seq<Call>, x: Span)
    requires forall y :: y in multiset(CallSpans(front)) ==> y.id != x.id
    ensures x.id !in CallIds(front)
  {
    forall i | 0 <= i < |front|
      ensures front[i].0.id != x.id
    {
      assert CallSpans(front)[i] in multiset(CallSpans(front));
    }
  }

  lemma LastId(calls: seq<Call>)
    requires calls != []
    ensures CallIds(calls) == CallIds(calls[..|calls| - 1]) + {calls[|calls| - 1].0.id}
  {
  }

  lemma {:induction false} RewardedCount(calls: seq<Call>, rewards: Rewards)
    requires NewIds(calls)
    ensures Rewarded(Transitions(calls, rewards)) == |rewards.Keys * CallIds(calls)|
  {
    if calls == [] {
      assert CallIds(calls) == {} && rewards.Keys * {} == {};
    } else {
      var n := |calls| - 1;
      RewardedCount(calls[..n], rewards);
      assert Transitions(calls, rewards)[..n] == Transitions(calls[..n], rewards);
      LastId(calls);
      OneMore(rewards.Keys, CallIds(calls[..n]), calls[n].0.id);
    }
  }

  lemma OneMore<K>(keys: set<K>, ids: set<K>, id: K)
    requires id !in ids
    ensures |keys * (ids + {id})| == |keys * ids| + (if id in keys then 1 else 0)
  {
    assert keys * (ids + {id}) == if id in keys then keys * ids + {id} else keys * ids;
  }

  /** A reward only goes to a call. */
  lemma RewardsToCalls(t: Tree, policy: Policy, calls: set<string>)
    ensures AllRewards(t, policy, calls).Keys <= calls
  {
    if policy == FirstSibling {
      FirstSiblingPairsSiblings(Nodes([t]), calls);
    } else {
      FirstToCalls(t, calls);
    }
  }

  lemma FirstToCalls(t: Tree, calls: set<string>)
    ensures AllRewards(t, FirstOccurrence, calls).Keys <= calls
  {
    var events := TimeSorted(t);
    var none: Rewards := map[];
    assert none.Keys == {};
    RewardsRecordPairs(events, calls, none, |events|);
    PairsAreGreedy(events, calls, {});
    var m := PairsUpto(events, calls, {}, |events|);
    forall id | id in m.Values
      ensures id in calls
    {
      var j :| j in m && m[j] == id;
      assert id in EligibleCalls(events, calls, {})[j];
    }
  }

  /** Without a final reward, the transitions that get a reward are as many as the calls rewarded. */
  lemma RewardedIsAll(t: Tree, o: Options)
    requires DistinctIds(Bag([t])) && o.finalReward.None?
    ensures Rewarded(TrajectoryOf(t, o)) == |AllRewards(t, o.policy, CallIds(CallsIn(t, o)))|
  {
    var calls := CallsIn(t, o);
    var rewards := AllRewards(t, o.policy, CallIds(calls));
    CallsDistinct(t, o);
    DistinctNew(calls);
    RewardedCount(calls, rewards);
    RewardsToCalls(t, o.policy, CallIds(calls));
    assert rewards.Keys * CallIds(calls) == rewards.Keys;
  }

  /** Under first occurrence, as many transitions get a reward as any assignment of rewards to
      distinct eligible calls could serve. */
  lemma TrajectoryRewardsMaximum(t: Tree, o: Options, m: Pairs<string>)
    requires DistinctIds(Bag([t])) && o.policy == FirstOccurrence && o.finalReward.None?
    requires IsMatching(EligibleCalls(TimeSorted(t), CallIds(CallsIn(t, o)), {}), m)
    ensures |m| <= Rewarded(TrajectoryOf(t, o))
  {
    RewardedIsAll(t, o);
    FirstOccurrenceIsMaximum(t, CallIds(CallsIn(t, o)), m);
  }

  /** Under first sibling the same, for assignments among siblings, if each node's rewards are in time order. */
  lemma TrajectorySiblingRewardsMaximum(t: Tree, o: Options, m: map<string, string>)
    requires DistinctIds(Bag([t])) && o.policy == FirstSibling && o.finalReward.None?
    requires InOrder(Nodes([t])) && SiblingMatching(Nodes([t]), CallIds(CallsIn(t, o)), m)
    ensures |m| <= Rewarded(TrajectoryOf(t, o))
  {
    RewardedIsAll(t, o);
    FirstSiblingIsMaximum(t, CallIds(CallsIn(t, o)), m);
  }
}
