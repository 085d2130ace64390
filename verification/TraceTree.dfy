/** The mutable trace tree: nodes whose `children` lists `repair_hierarchy` changes in place. A map from ids to
    nodes gives the heap its meaning: it holds a tree when the children lists are exactly those of the tree,
    and each method turns the tree that is held into what the functions of `Repair` make of it. */
module TraceTree {
  import opened Basics
  import opened Spans
  import opened Repair
  import RepairTheorems

  /** The children of every node, by id. */
  type Shape = map<string, seq<string>>

  /** `h` gives every node of `ts` exactly the children it has there. */
  ghost predicate Shows(h: Shape, ts: seq<Tree>) {
    ts == [] ||
    (ts[0].span.id in h && h[ts[0].span.id] == KidIds(ts[0].kids) && Shows(h, ts[0].kids) && Shows(h, ts[1..]))
  }

  lemma {:induction false} ShowsAppend(h: Shape, a: seq<Tree>, b: seq<Tree>)
    ensures Shows(h, a + b) <==> Shows(h, a) && Shows(h, b)
  {
    if a == [] {
      assert a + b == b;
    } else {
      assert (a + b)[1..] == a[1..] + b;
      ShowsAppend(h, a[1..], b);
    }
  }

  /** Changing the children of other nodes leaves `ts` as it was. */
  lemma {:induction false} ShowsFrame(h: Shape, g: Shape, ts: seq<Tree>)
    requires Shows(h, ts)
    requires forall x :: x in Bag(ts) && x.id in h ==> x.id in g && g[x.id] == h[x.id]
    ensures Shows(g, ts)
    decreases ts
  {
    if ts != [] {
      assert ts[0].span in Bag(ts);
      ShowsFrame(h, g, ts[0].kids);
      ShowsFrame(h, g, ts[1..]);
    }
  }

  /** Appending one id to the children of `pid` is what `Attach` does. */
  lemma {:induction false} ShowsAttach(h: Shape, ts: seq<Tree>, pid: string, sub: Tree)
    requires DistinctIds(Bag(ts)) && pid in h && Shows(h, ts)
    requires Shows(h[pid := h[pid] + [sub.span.id]], [sub])
    ensures Shows(h[pid := h[pid] + [sub.span.id]], Attach(ts, pid, sub))
    decreases ts
  {
    if ts != [] {
      var g := h[pid := h[pid] + [sub.span.id]];
      var t, rest := ts[0], ts[1..];
      ShowsAttachParts(ts);
      ShowsAttach(h, t.kids, pid, sub);
      ShowsAttach(h, rest, pid, sub);
      var below := Attach(t.kids, pid, sub);
      ShowsAppend(g, below, [sub]);
      AttachKidIds(t.kids, pid, sub);
      if t.span.id == pid { ShowsHead(g, t.span, below + [sub], Attach(rest, pid, sub)); }
      else { ShowsHead(g, t.span, below, Attach(rest, pid, sub)); }
    }
  }

  lemma ShowsAttachParts(ts: seq<Tree>)
    requires ts != [] && DistinctIds(Bag(ts))
    ensures DistinctIds(Bag(ts[0].kids)) && DistinctIds(Bag(ts[1..]))
  {
    DistinctParts(ts);
  }

  lemma AttachKidIds(ts: seq<Tree>, pid: string, sub: Tree)
    ensures KidIds(Attach(ts, pid, sub)) == KidIds(ts)
    ensures KidIds(Attach(ts, pid, sub) + [sub]) == KidIds(ts) + [sub.span.id]
  {
    AttachSpans(ts, pid, sub);
  }

  lemma ShowsHead(h: Shape, x: Span, kids: seq<Tree>, rest: seq<Tree>)
    requires x.id in h && h[x.id] == KidIds(kids) && Shows(h, kids) && Shows(h, rest)
    ensures Shows(h, [Tree(x, kids)] + rest)
  {
    assert ([Tree(x, kids)] + rest)[1..] == rest;
  }

  function Drop(ids: seq<string>, i: nat): seq<string>
    requires i < |ids|
  {
    ids[..i] + ids[i + 1..]
  }

  /** The shape after child number `i` of `self` has moved to the end of the children of `pid`. */
  function MoveChild(h: Shape, self: string, i: nat, pid: string): Shape
    requires self in h && i < |h[self]| && pid in h && pid != self
  {
    h[self := Drop(h[self], i)][pid := h[pid] + [h[self][i]]]
  }

  lemma ShowsMove(h: Shape, t: Tree, i: nat, p: Span)
    requires DistinctIds(Bag([t])) && i < |t.kids| && Shows(h, [t])
    requires p in Bag([t]) && p.id in h && p.id != t.span.id && p.id != t.kids[i].span.id
    ensures Shows(MoveChild(h, t.span.id, i, p.id), [Tree(t.span, Attach(Others(t, i), p.id, t.kids[i]))])
  {
    var self, r, others := t.span.id, t.kids[i], Others(t, i);
    var cut, g := h[self := Drop(h[self], i)], MoveChild(h, self, i, p.id);
    ShowsCut(h, t, i, Drop(h[self], i));
    DropKidIds(t, i);
    ShowsJoin(cut, t, i, p);
    AttachKidIds(others, p.id, r);
    assert g == cut[p.id := cut[p.id] + [r.span.id]];
    ShowsHead(g, t.span, Attach(others, p.id, r), []);
  }

  lemma ShowsJoin(cut: Shape, t: Tree, i: nat, p: Span)
    requires DistinctIds(Bag([t])) && i < |t.kids| && p.id in cut && p in Bag([t])
    requires Shows(cut, Others(t, i)) && Shows(cut, [t.kids[i]]) && p.id != t.span.id
    ensures Shows(cut[p.id := cut[p.id] + [t.kids[i].span.id]], Attach(Others(t, i), p.id, t.kids[i]))
  {
    var r, others := t.kids[i], Others(t, i);
    var g := cut[p.id := cut[p.id] + [r.span.id]];
    LevelParts(t, i);
    if p in Bag([r]) {
      ShowsAbsent(cut, g[p.id], others, p, r);
    } else {
      InLevel(t, i, p);
      ShowsFrame(cut, g, [r]);
      ShowsAttach(cut, others, p.id, r);
    }
  }

  lemma ShowsAbsent(h: Shape, ids: seq<string>, ts: seq<Tree>, p: Span, sub: Tree)
    requires Shows(h, ts) && forall x :: x in Bag(ts) ==> x.id != p.id
    ensures Shows(h[p.id := ids], Attach(ts, p.id, sub))
  {
    AttachAbsent(ts, p.id, sub);
    ShowsFrame(h, h[p.id := ids], ts);
  }

  lemma InLevel(t: Tree, i: nat, p: Span)
    requires DistinctIds(Bag([t])) && i < |t.kids| && p in Bag([t]) && p !in Bag([t.kids[i]]) && p.id != t.span.id
    ensures forall x :: x in Bag([t.kids[i]]) ==> x.id != p.id
  {
    LevelParts(t, i);
    BagWithout(t, i);
    BagSingle(t);
  }

  lemma DropKidIds(t: Tree, i: nat)
    requires i < |t.kids|
    ensures Drop(KidIds(t.kids), i) == KidIds(Others(t, i))
  {
  }

  lemma ShowsCut(h: Shape, t: Tree, i: nat, ids: seq<string>)
    requires DistinctIds(Bag([t])) && i < |t.kids| && t.span.id in h && Shows(h, t.kids)
    ensures Shows(h[t.span.id := ids], Others(t, i)) && Shows(h[t.span.id := ids], [t.kids[i]])
  {
    DistinctParts([t]);
    ShowsFrame(h, h[t.span.id := ids], t.kids);
    ShowsParts(h[t.span.id := ids], t, i);
  }

  lemma ShowsParts(h: Shape, t: Tree, i: nat)
    requires i < |t.kids| && Shows(h, t.kids)
    ensures Shows(h, Others(t, i)) && Shows(h, [t.kids[i]])
  {
    var a, r, b := t.kids[..i], [t.kids[i]], t.kids[i + 1..];
    assert t.kids == a + (r + b);
    ShowsAppend(h, a, r + b); ShowsAppend(h, r, b); ShowsAppend(h, a, b);
  }

  // ---- The nodes in memory ----

  /** All nodes by id. */
  type Env = map<string, TraceNode>

  function SpansOf(ns: seq<TraceNode>): seq<Span> {
    seq(|ns|, i requires 0 <= i < |ns| => ns[i].span)
  }

  function IdsOf(ns: seq<TraceNode>): seq<string> {
    seq(|ns|, i requires 0 <= i < |ns| => ns[i].span.id)
  }

  /** The children lists as they stand. */
  ghost function KidsOf(env: Env): map<string, seq<TraceNode>>
    reads env.Values
  {
    map id | id in env :: env[id].children
  }

  ghost function ShapeOf(kids: map<string, seq<TraceNode>>): Shape {
    map id | id in kids :: IdsOf(kids[id])
  }

  ghost predicate Known(env: Env, ns: seq<TraceNode>) {
    forall i :: 0 <= i < |ns| ==> ns[i].span.id in env && env[ns[i].span.id] == ns[i]
  }

  ghost predicate Closed(env: Env, kids: map<string, seq<TraceNode>>) {
    && kids.Keys == env.Keys
    && (forall id :: id in env ==> env[id].span.id == id && Known(env, kids[id]))
  }

  /** The nodes of `t` are in `env`, and their children lists are exactly those of `t`. */
  ghost predicate Holds(env: Env, t: Tree)
    reads env.Values
  {
    && Closed(env, KidsOf(env))
    && Shows(ShapeOf(KidsOf(env)), [t])
    && Names(env, [t])
  }

  ghost predicate Names(env: Env, ts: seq<Tree>) {
    forall x :: x in Bag(ts) ==> x.id in env && env[x.id].span == x
  }

  ghost function NodesOf(env: Env, t: Tree): set<TraceNode>
    requires Names(env, [t])
  {
    set x | x in Bag([t]) :: env[x.id]
  }

  lemma NodesOfSub(env: Env, t: Tree, u: Tree)
    requires Names(env, [t]) && Bag([u]) <= Bag([t])
    ensures Names(env, [u]) && NodesOf(env, u) <= NodesOf(env, t)
  {
    forall x | x in Bag([u])
      ensures x in Bag([t])
    {
      assert Bag([u])[x] <= Bag([t])[x];
    }
  }

  lemma RootHeld(env: Env, t: Tree)
    requires Holds(env, t)
    ensures t.span.id in env && env[t.span.id].span == t.span && env[t.span.id] in NodesOf(env, t)
    ensures IdsOf(env[t.span.id].children) == KidIds(t.kids)
  {
    assert t.span in Bag([t]);
  }

  lemma HoldsBelow(env: Env, t: Tree, i: nat)
    requires Holds(env, t) && i < |t.kids|
    ensures Holds(env, t.kids[i])
    ensures env[t.span.id].children[i] == env[t.kids[i].span.id]
  {
    RootHeld(env, t);
    assert IdsOf(env[t.span.id].children)[i] == KidIds(t.kids)[i];
    ShowsParts(ShapeOf(KidsOf(env)), t, i);
    BagWithout(t, i);
    BagSingle(t);
    assert t.kids[i].span in Bag([t.kids[i]]);
  }

  lemma KnownAppend(env: Env, a: seq<TraceNode>, b: seq<TraceNode>)
    requires Known(env, a) && Known(env, b)
    ensures Known(env, a + b) && SpansOf(a + b) == SpansOf(a) + SpansOf(b)
  {
  }

  lemma PreorderStep(ts: seq<Tree>, i: nat)
    requires i < |ts|
    ensures Preorder(ts[..i + 1]) == Preorder(ts[..i]) + Spans.Traverse(ts[i])
  {
    PreorderAppend(ts[..i], [ts[i]]);
    assert ts[..i + 1] == ts[..i] + [ts[i]];
  }

  lemma {:induction false} PreorderAppend(a: seq<Tree>, b: seq<Tree>)
    ensures Preorder(a + b) == Preorder(a) + Preorder(b)
  {
    if a == [] {
      assert a + b == b;
    } else {
      assert (a + b)[1..] == a[1..] + b;
      PreorderAppend(a[1..], b);
    }
  }

  /** The children lists after child number `i` of `self` has moved to the end of those of `pid`. */
  ghost function MoveNode(k: map<string, seq<TraceNode>>, self: string, i: nat, pid: string)
    : map<string, seq<TraceNode>>
  {
    if self in k && pid in k && i < |k[self]| then
      k[self := k[self][..i] + k[self][i + 1..]][pid := k[pid] + [k[self][i]]]
    else k
  }

  lemma MovedShape(env: Env, k: map<string, seq<TraceNode>>, self: string, i: nat, pid: string)
    requires Closed(env, k) && self in k && pid in k && pid != self && i < |k[self]|
    ensures Closed(env, MoveNode(k, self, i, pid))
    ensures ShapeOf(MoveNode(k, self, i, pid)) == MoveChild(ShapeOf(k), self, i, pid)
  {
    var cut, grown := k[self][..i] + k[self][i + 1..], k[pid] + [k[self][i]];
    assert Known(env, k[self]) && Known(env, k[pid]);
    assert IdsOf(cut) == Drop(IdsOf(k[self]), i) && IdsOf(grown) == IdsOf(k[pid]) + [IdsOf(k[self])[i]];
    assert Known(env, cut) && Known(env, grown);
  }

  class TraceNode {
    const span: Span
    var children: seq<TraceNode>

    constructor (span: Span, children: seq<TraceNode>)
      ensures this.span == span && this.children == children
    {
      this.span := span;
      this.children := children;
    }

    method Traverse(ghost t: Tree, ghost env: Env) returns (out: seq<TraceNode>)
      requires Holds(env, t) && t.span.id in env && env[t.span.id] == this
      ensures SpansOf(out) == Spans.Traverse(t) && Known(env, out)
      decreases t
    {
      out := [this];
      RootHeld(env, t);
      for i := 0 to |children|
        invariant |children| == |t.kids|
        invariant SpansOf(out) == [t.span] + Preorder(t.kids[..i]) && Known(env, out)
      {
        HoldsBelow(env, t, i);
        var below := children[i].Traverse(t.kids[i], env);
        PreorderStep(t.kids, i);
        KnownAppend(env, out, below);
        Associates([t.span], Preorder(t.kids[..i]), Spans.Traverse(t.kids[i]));
        out := out + below;
      }
      assert t.kids[..|t.kids|] == t.kids;
    }

    /** Takes the child `r` out of this node and appends it to the children of `p`. */
    method MoveTo(r: TraceNode, p: TraceNode, ghost i: nat, ghost env: Env)
      requires Closed(env, KidsOf(env)) && span.id in env && env[span.id] == this
      requires p.span.id in env && env[p.span.id] == p && p != this
      requires i < |children| && children[i] == r && r !in children[..i]
      modifies this, p
      ensures KidsOf(env) == MoveNode(old(KidsOf(env)), span.id, i, p.span.id)
    {
      IndexOfFirst(children, r, i);
      children := children[..IndexOf(children, r)] + children[IndexOf(children, r) + 1..];
      p.children := p.children + [r];
    }

    /** One iteration of the repair loop, for the child `repairNode`. */
    method RepairChild(repairNode: TraceNode, ghost t: Tree, ghost env: Env)
      requires Holds(env, t) && t.span.id in env && env[t.span.id] == this && DistinctIds(Bag([t]))
      requires repairNode in children
      modifies NodesOf(env, t)
      ensures Holds(env, Step(t, repairNode.span.id))
    {
      var nodes := Traverse(t, env);
      var closest := FindClosest(nodes, repairNode, this, env);
      ghost var i, before := ChildPosition(env, t, repairNode), KidsOf(env);
      StepNodes(env, t, repairNode.span.id);
      if closest != null {
        InNodes(env, t, nodes, closest);
        ClosestIsLeast(t, repairNode.span);
        MoveTo(repairNode, closest, i, env);
        HoldsMoved(env, before, t, i, closest.span);
      }
    }

    /** The same iteration as one turn of the loop with `todo` still to go. */
    method RepairNext(repairNode: TraceNode, ghost t: Tree, ghost env: Env, ghost todo: seq<string>)
      returns (ghost u: Tree)
      requires Holds(env, t) && t.span.id in env && env[t.span.id] == this && DistinctIds(Bag([t]))
      requires repairNode.span.id in env && env[repairNode.span.id] == repairNode
      requires |t.kids| != 1 && todo != [] && todo[0] == repairNode.span.id && Waiting(t, todo)
      modifies NodesOf(env, t)
      ensures Holds(env, u) && u.span == t.span && NodesOf(env, u) <= NodesOf(env, t) && DistinctIds(Bag([u]))
      ensures Loop(t, todo) == Loop(u, todo[1..]) && Waiting(u, todo[1..])
    {
      WaitingChild(env, t, repairNode, todo);
      StepNodes(env, t, todo[0]);
      RepairChild(repairNode, t, env);
      StepWaiting(t, todo);
      u := Step(t, todo[0]);
    }

    /** The repair loop, run by a node that does not have exactly one child. */
    method RepairChildren(ghost t: Tree, ghost env: Env)
      requires Holds(env, t) && t.span.id in env && env[t.span.id] == this && DistinctIds(Bag([t]))
      modifies NodesOf(env, t)
      ensures Holds(env, Loop(t, KidIds(t.kids)))
    {
      RootHeld(env, t);
      var nodesToRepair := children;
      ghost var cur, ids, nodes := t, KidIds(t.kids), NodesOf(env, t);
      assert IdsOf(nodesToRepair) == ids && Known(env, nodesToRepair);
      RepairTheorems.KidIdsAreTops(t);
      for k := 0 to |nodesToRepair|
        invariant Holds(env, cur) && cur.span == t.span && NodesOf(env, cur) <= nodes && DistinctIds(Bag([cur]))
        invariant Loop(cur, ids[k..]) == Loop(t, ids)
        invariant Waiting(cur, ids[k..])
      {
        RootHeld(env, cur);
        if |children| == 1 {
          break;
        }
        assert IdsOf(nodesToRepair)[k] == ids[k];
        cur := RepairNext(nodesToRepair[k], cur, env, ids[k..]);
        assert ids[k..][1..] == ids[k + 1..];
      }
      assert cur == Loop(t, ids);
    }

    /** `TraceTree.repair_hierarchy`: afterwards this node holds `RepairTree(t)`, and nodes outside
        the tree are as they were. */
    method RepairHierarchy(ghost t: Tree, ghost env: Env)
      requires Holds(env, t) && t.span.id in env && env[t.span.id] == this && DistinctIds(Bag([t]))
      modifies NodesOf(env, t)
      ensures Holds(env, RepairTree(t)) && RepairTree(t).span == t.span
      decreases t
    {
      RootHeld(env, t);
      if |children| == 1 {
        OnlyChild(env, t);
        children[0].RepairHierarchy(t.kids[0], env);
        HoldsAbove(env, t, RepairTree(t.kids[0]));
      } else {
        RepairChildren(t, env);
        LoopRoot(t, KidIds(t.kids));
      }
    }
  }

  lemma {:induction false} LoopRoot(t: Tree, todo: seq<string>)
    ensures Loop(t, todo).span == t.span
    decreases todo
  {
    if todo != [] && |t.kids| != 1 {
      LoopRoot(Step(t, todo[0]), todo[1..]);
    }
  }

  lemma InNodes(env: Env, t: Tree, ns: seq<TraceNode>, n: TraceNode)
    requires Holds(env, t) && Known(env, ns) && SpansOf(ns) == Spans.Traverse(t) && n in ns
    ensures n.span in Bag([t]) && env[n.span.id] == n && n in NodesOf(env, t)
    ensures t.span.id in env && env[t.span.id] in NodesOf(env, t)
  {
    TraverseBag(t);
    var k :| 0 <= k < |ns| && ns[k] == n;
    assert SpansOf(ns)[k] == n.span;
    RootHeld(env, t);
  }

  lemma HoldsMoved(env: Env, before: map<string, seq<TraceNode>>, t: Tree, i: nat, p: Span)
    requires Closed(env, before) && Names(env, [t]) && DistinctIds(Bag([t])) && Shows(ShapeOf(before), [t])
    requires i < |t.kids| && i == KidIndex(t.kids, t.kids[i].span.id) && p in Bag([t])
    requires Closest(Spans.Traverse(t), t.kids[i].span, t.span.id) == Some(p)
    requires KidsOf(env) == MoveNode(before, t.span.id, i, p.id)
    ensures Holds(env, Step(t, t.kids[i].span.id))
  {
    assert IdsOf(before[t.span.id]) == KidIds(t.kids);
    ClosestIsLeast(t, t.kids[i].span);
    MovedShape(env, before, t.span.id, i, p.id);
    ShowsMove(ShapeOf(before), t, i, p);
    StepNodes(env, t, t.kids[i].span.id);
  }

  /** Where the child `r` stands among the children of `t`. */
  ghost function ChildPosition(env: Env, t: Tree, r: TraceNode): (i: nat)
    requires Holds(env, t) && t.span.id in env && r in env[t.span.id].children && DistinctIds(Bag([t]))
    reads env.Values
    ensures i < |t.kids| && i == KidIndex(t.kids, r.span.id) && t.kids[i].span == r.span
    ensures i < |env[t.span.id].children| && env[t.span.id].children[i] == r && r !in env[t.span.id].children[..i]
  {
    RootHeld(env, t);
    var ns := env[t.span.id].children;
    var i := IndexOf(ns, r);
    HoldsBelow(env, t, i);
    assert IdsOf(ns)[i] == KidIds(t.kids)[i];
    KidsDistinct(t);
    BagWithout(t, i);
    BagSingle(t);
    i
  }

  lemma WaitingChild(env: Env, t: Tree, r: TraceNode, todo: seq<string>)
    requires Holds(env, t) && t.span.id in env && r.span.id in env && env[r.span.id] == r
    requires todo != [] && todo[0] == r.span.id && Waiting(t, todo)
    ensures r in env[t.span.id].children
  {
    RootHeld(env, t);
    var x := FirstTop(t, todo);
    var j :| 0 <= j < |t.kids| && t.kids[j].span == x;
    assert IdsOf(env[t.span.id].children)[j] == KidIds(t.kids)[j];
  }

  lemma StepWaiting(t: Tree, todo: seq<string>)
    requires DistinctIds(Bag([t])) && todo != [] && Waiting(t, todo)
    ensures Waiting(Step(t, todo[0]), todo[1..])
    ensures Step(t, todo[0]).span == t.span && DistinctIds(Bag([Step(t, todo[0])]))
  {
    StepTops(t, todo[0]);
    RestTops(t, Step(t, todo[0]), todo);
    RepairTheorems.StepKeepsIff(t, todo[0]);
    RepairTheorems.DistinctSub(Bag([Step(t, todo[0])]), Bag([t]));
  }

  lemma StepNodes(env: Env, t: Tree, rid: string)
    requires Names(env, [t]) && DistinctIds(Bag([t]))
    ensures Names(env, [Step(t, rid)]) && NodesOf(env, Step(t, rid)) <= NodesOf(env, t)
  {
    RepairTheorems.StepKeepsIff(t, rid);
    NodesOfSub(env, t, Step(t, rid));
  }

  lemma StepTops(t: Tree, rid: string)
    requires DistinctIds(Bag([t]))
    ensures forall x :: x in Tops(t.kids) && x.id != rid ==> x in Tops(Step(t, rid).kids)
  {
    var i := KidIndex(t.kids, rid);
    if i < |t.kids| {
      TopsWithout(t, i);
      match Closest(Traverse(t), t.kids[i].span, t.span.id)
      case None =>
      case Some(p) => AttachTops(Others(t, i), p.id, t.kids[i]);
    }
  }

  function IndexOf(ns: seq<TraceNode>, x: TraceNode): (i: nat)
    requires x in ns
    ensures i < |ns| && ns[i] == x && x !in ns[..i]
  {
    if ns[0] == x then 0
    else
      var i := IndexOf(ns[1..], x);
      assert ns[..i + 1] == [ns[0]] + ns[1..][..i];
      1 + i
  }

  lemma IndexOfFirst(ns: seq<TraceNode>, x: TraceNode, i: nat)
    requires i < |ns| && ns[i] == x && x !in ns[..i]
    ensures x in ns && IndexOf(ns, x) == i
  {
    var j := IndexOf(ns, x);
    assert forall m :: 0 <= m < i ==> ns[..i][m] == ns[m];
    assert forall m :: 0 <= m < j ==> ns[..j][m] == ns[m];
  }

  /** The ids `todo` are those of different children of `t`. */
  ghost predicate Waiting(t: Tree, todo: seq<string>) {
    NoDup(todo) && AllTops(todo, t.kids)
  }

  lemma OnlyChild(env: Env, t: Tree)
    requires Holds(env, t) && DistinctIds(Bag([t])) && |t.kids| == 1
    ensures var c := t.kids[0];
            && Holds(env, c) && DistinctIds(Bag([c])) && c.span.id in env
            && NodesOf(env, c) <= NodesOf(env, t)
            && t.span.id in env && env[t.span.id] !in NodesOf(env, c)
            && |env[t.span.id].children| == 1 && env[t.span.id].children[0] == env[c.span.id]
            && IdsOf(env[t.span.id].children) == [c.span.id] && env[t.span.id].span == t.span
  {
    RootHeld(env, t);
    HoldsBelow(env, t, 0);
    DistinctParts([t]);
    assert t.kids == [t.kids[0]];
    NodesOfSub(env, t, t.kids[0]);
  }

  /** A tree whose only child is `c` is held when `c` is. */
  lemma HoldsAbove(env: Env, t: Tree, c: Tree)
    requires Holds(env, c) && t.span.id in env && env[t.span.id].span == t.span
    requires IdsOf(env[t.span.id].children) == [c.span.id]
    ensures Holds(env, Tree(t.span, [c]))
  {
    ShowsHead(ShapeOf(KidsOf(env)), t.span, [c], []);
    BagSingle(Tree(t.span, [c]));
  }

  lemma ClosestStep(ns: seq<TraceNode>, i: nat, r: Span, self: string)
    requires i < |ns|
    ensures var best, x := Closest(SpansOf(ns[..i]), r, self), ns[i].span;
            Closest(SpansOf(ns[..i + 1]), r, self) ==
            if Candidate(x, r, self) && (best.None? || Slack(x, r) < Slack(best.value, r)) then Some(x) else best
  {
    assert SpansOf(ns[..i + 1])[..i] == SpansOf(ns[..i]);
  }

  /** The node `best`, at slack `closest`, is the choice `c`. */
  ghost predicate Tracks(best: TraceNode?, closest: int, c: Option<Span>, nodes: seq<TraceNode>, r: Span) {
    if best == null then c.None? else best in nodes && c == Some(best.span) && closest == Slack(best.span, r)
  }

  /** The scan for the closest enveloping node. */
  method FindClosest(nodes: seq<TraceNode>, r: TraceNode, self: TraceNode, ghost env: Env)
    returns (best: TraceNode?)
    requires Known(env, nodes) && self.span.id in env && env[self.span.id] == self
    ensures best == null <==> Closest(SpansOf(nodes), r.span, self.span.id).None?
    ensures best != null ==> best in nodes && Closest(SpansOf(nodes), r.span, self.span.id) == Some(best.span)
  {
    best := null;
    var closest := 0;
    for i := 0 to |nodes|
      invariant Tracks(best, closest, Closest(SpansOf(nodes[..i]), r.span, self.span.id), nodes, r.span)
    {
      var node := nodes[i];
      ClosestStep(nodes, i, r.span, self.span.id);
      if node.span.id == r.span.id {
      } else if node == self {
      } else if node.span.start <= r.span.start && node.span.end >= r.span.end {
        var delta := node.span.end - r.span.end + r.span.start - node.span.start;
        if delta > 0 && (best == null || delta < closest) {
          closest := delta;
          best := node;
        }
      }
    }
    assert nodes[..|nodes|] == nodes;
  }
}
