/** What `TraceTree.repair_hierarchy` does to a tree, on values, and why it is sound on contained traces: the
    parent chosen for a child is never inside the subtree that moves with the child, so every iteration
    keeps the nodes and their containment. */
module Repair {
  import opened Basics
  import opened Spans

  /** What the scan compares: the time `n` has on both sides of `r`. */
  function Slack(n: Span, r: Span): int {
    n.end - r.end + r.start - n.start
  }

  /** `n` may become the new parent of `r` below the node `self`: it covers `r` and is strictly longer. */
  predicate Candidate(n: Span, r: Span, self: string) {
    && n.id != r.id && n.id != self
    && n.start <= r.start && r.end <= n.end && n.end - n.start > r.end - r.start
  }

  /** The scan for the closest enveloping node, in traversal order. */
  function Closest(nodes: seq<Span>, r: Span, self: string): (c: Option<Span>)
    ensures c.None? <==> forall x :: x in nodes ==> !Candidate(x, r, self)
    ensures c.Some? ==> exists i :: 0 <= i < |nodes| && FirstLeast(nodes, i, r, self) && nodes[i] == c.value
  {
    if nodes == [] then None
    else
      var n := |nodes| - 1;
      var x := nodes[n];
      var best := Closest(nodes[..n], r, self);
      assert nodes == nodes[..n] + [x];
      if x.id != r.id && x.id != self && Inside(r, x) && Slack(x, r) > 0
         && (best.None? || Slack(x, r) < Slack(best.value, r)) then
        assert FirstLeast(nodes, n, r, self);
        Some(x)
      else
        assert best.Some? ==> exists i :: 0 <= i < n && FirstLeast(nodes, i, r, self) && nodes[i] == best.value by {
          if best.Some? {
            var i :| 0 <= i < n && FirstLeast(nodes[..n], i, r, self) && nodes[..n][i] == best.value;
            assert FirstLeast(nodes, i, r, self);
          }
        }
        best
  }

  /** `nodes[i]` is the shortest candidate, and the first such in traversal order. */
  ghost predicate FirstLeast(nodes: seq<Span>, i: nat, r: Span, self: string)
    requires i < |nodes|
  {
    && Candidate(nodes[i], r, self)
    && forall j :: 0 <= j < |nodes| && Candidate(nodes[j], r, self) ==>
         && nodes[i].end - nodes[i].start <= nodes[j].end - nodes[j].start
         && (j < i ==> nodes[i].end - nodes[i].start < nodes[j].end - nodes[j].start)
  }

  /** The scan, read off the intervals alone: it finds nothing exactly when no other node covers `r` and is
      strictly longer, and otherwise finds the shortest such node, the first of them if several tie. */
  lemma {:induction false} ClosestIsShortest(nodes: seq<Span>, r: Span, self: string)
    ensures var fits := (x: Span) =>
              && x.id != r.id && x.id != self
              && x.start <= r.start && r.end <= x.end && x.end - x.start > r.end - r.start;
            var c := Closest(nodes, r, self);
            && (c.None? <==> forall x :: x in nodes ==> !fits(x))
            && (c.Some? ==>
                  exists i :: 0 <= i < |nodes| && nodes[i] == c.value && fits(c.value) &&
                    forall j :: 0 <= j < |nodes| && fits(nodes[j]) ==>
                      && c.value.end - c.value.start <= nodes[j].end - nodes[j].start
                      && (j < i ==> c.value.end - c.value.start < nodes[j].end - nodes[j].start))
  {
    var c := Closest(nodes, r, self);
    if c.Some? {
      var i :| 0 <= i < |nodes| && FirstLeast(nodes, i, r, self) && nodes[i] == c.value;
    }
  }

  /** Append `sub` to the children of the node with id `pid`, wherever it is. */
  function Attach(ts: seq<Tree>, pid: string, sub: Tree): (out: seq<Tree>)
    ensures |out| == |ts|
    decreases ts
  {
    if ts == [] then []
    else
      var below := Attach(ts[0].kids, pid, sub);
      [Tree(ts[0].span, if ts[0].span.id == pid then below + [sub] else below)] + Attach(ts[1..], pid, sub)
  }

  function KidIndex(ts: seq<Tree>, id: string): (i: nat)
    ensures i <= |ts|
    ensures i < |ts| ==> ts[i].span.id == id
    ensures i == |ts| ==> forall j :: 0 <= j < |ts| ==> ts[j].span.id != id
  {
    if ts == [] then 0
    else if ts[0].span.id == id then 0
    else 1 + KidIndex(ts[1..], id)
  }

  /** One iteration of the loop: find the closest parent of the child `rid` and move it there. A
      parent found inside the moved subtree is no longer part of the tree, so the subtree is lost. */
  function Step(t: Tree, rid: string): Tree {
    var i := KidIndex(t.kids, rid);
    if i == |t.kids| then t
    else
      match Closest(Traverse(t), t.kids[i].span, t.span.id)
      case None => t
      case Some(p) => Tree(t.span, Attach(t.kids[..i] + t.kids[i + 1..], p.id, t.kids[i]))
  }

  function Loop(t: Tree, todo: seq<string>): Tree
    decreases todo
  {
    if todo == [] || |t.kids| == 1 then t else Loop(Step(t, todo[0]), todo[1..])
  }

  function RepairTree(t: Tree): Tree {
    if |t.kids| == 1 then Tree(t.span, [RepairTree(t.kids[0])])
    else Loop(t, KidIds(t.kids))
  }

  // ---- Attaching a subtree ----

  lemma {:induction false} AttachAbsent(ts: seq<Tree>, pid: string, sub: Tree)
    requires !HasId(Bag(ts), pid)
    ensures Attach(ts, pid, sub) == ts
    decreases ts
  {
    if ts != [] {
      assert ts[0].span in Bag(ts);
      AttachAbsent(ts[0].kids, pid, sub);
      AttachAbsent(ts[1..], pid, sub);
    }
  }

  lemma {:induction false} AttachBag(ts: seq<Tree>, pid: string, sub: Tree)
    requires DistinctIds(Bag(ts))
    ensures Bag(Attach(ts, pid, sub)) == Bag(ts) + Once(HasId(Bag(ts), pid), Bag([sub]))
    decreases ts
  {
    if ts != [] {
      assert DistinctIds(Bag(ts[0].kids)) && DistinctIds(Bag(ts[1..])) by { DistinctParts(ts); }
      AttachBagParts(ts, pid, Bag([sub]));
      AttachHead(ts, pid, sub);
      AttachBag(ts[0].kids, pid, sub);
      AttachBag(ts[1..], pid, sub);
      var m := Bag([sub]);
      Regroup(multiset{ts[0].span}, Bag(ts[0].kids), Once(HasId(Bag(ts[0].kids), pid), m),
              Once(ts[0].span.id == pid, m), Bag(ts[1..]), Once(HasId(Bag(ts[1..]), pid), m));
    }
  }

  lemma Regroup<T>(x: multiset<T>, a: multiset<T>, p: multiset<T>, q: multiset<T>, b: multiset<T>, r: multiset<T>)
    ensures x + (a + p) + q + (b + r) == x + a + b + (p + q + r)
  {
  }

  ghost function Once(b: bool, m: multiset<Span>): multiset<Span> {
    if b then m else multiset{}
  }

  /** At most one part of the forest has the id. */
  lemma AttachBagParts(ts: seq<Tree>, pid: string, m: multiset<Span>)
    requires ts != [] && DistinctIds(Bag(ts))
    ensures Once(HasId(Bag(ts), pid), m) ==
            Once(HasId(Bag(ts[0].kids), pid), m) + Once(ts[0].span.id == pid, m) + Once(HasId(Bag(ts[1..]), pid), m)
  {
    DistinctParts(ts);
    HasIdHead(ts, pid);
  }

  /** `Attach` acts separately on the first tree and on the others. */
  lemma AttachHead(ts: seq<Tree>, pid: string, sub: Tree)
    requires ts != []
    ensures var below := Attach(ts[0].kids, pid, sub);
            Bag(Attach(ts, pid, sub)) ==
            multiset{ts[0].span} + Bag(below) + Once(ts[0].span.id == pid, Bag([sub]))
            + Bag(Attach(ts[1..], pid, sub))
  {
    var out := Attach(ts, pid, sub);
    assert out[1..] == Attach(ts[1..], pid, sub);
    BagAppend(Attach(ts[0].kids, pid, sub), [sub]);
  }

  lemma {:induction false} AttachEdges(q: string, ts: seq<Tree>, pid: string, sub: Tree)
    ensures Edges(q, Attach(ts, pid, sub)) ==
            Edges(q, ts) + (if HasId(Bag(ts), pid) then {(pid, sub.span.id)} + TreeEdges(sub) else {})
    decreases ts
  {
    if ts == [] {
    } else {
      var t, rest := ts[0], ts[1..];
      AttachEdges(t.span.id, t.kids, pid, sub);
      AttachEdges(q, rest, pid, sub);
      AttachHeadEdges(q, ts, pid, sub);
      HasIdHead(ts, pid);
    }
  }

  lemma AttachHeadEdges(q: string, ts: seq<Tree>, pid: string, sub: Tree)
    requires ts != []
    ensures var t := ts[0];
            Edges(q, Attach(ts, pid, sub)) ==
            {(q, t.span.id)} + Edges(t.span.id, Attach(t.kids, pid, sub))
            + (if t.span.id == pid then {(pid, sub.span.id)} + TreeEdges(sub) else {})
            + Edges(q, Attach(ts[1..], pid, sub))
  {
    var out := Attach(ts, pid, sub);
    assert out[1..] == Attach(ts[1..], pid, sub);
    EdgesAppend(ts[0].span.id, Attach(ts[0].kids, pid, sub), [sub]);
    assert Edges(pid, [sub]) == {(pid, sub.span.id)} + TreeEdges(sub);
  }

  lemma {:induction false} AttachAllInside(ts: seq<Tree>, pid: string, sub: Tree, x: Span)
    requires AllInside(ts, x)
    ensures AllInside(Attach(ts, pid, sub), x)
  {
    if ts != [] {
      assert AllInside(ts[1..], x);
      AttachAllInside(ts[1..], pid, sub, x);
    }
  }

  lemma NestedHead(x: Span, kids: seq<Tree>, rest: seq<Tree>)
    requires AllInside(kids, x) && Nested(kids) && Nested(rest)
    ensures Nested([Tree(x, kids)] + rest)
  {
    assert ([Tree(x, kids)] + rest)[1..] == rest;
  }

  lemma AllInsideAppend(ts: seq<Tree>, sub: Tree, x: Span)
    requires AllInside(ts, x) && Inside(sub.span, x)
    ensures AllInside(ts + [sub], x)
  {
  }

  /** Attaching below an enveloping node keeps every node inside its parent's interval. */
  lemma {:induction false} AttachNested(ts: seq<Tree>, p: Span, sub: Tree)
    requires Nested(ts) && Nested([sub]) && Inside(sub.span, p)
    requires forall x :: x in Bag(ts) && x.id == p.id ==> x == p
    ensures Nested(Attach(ts, p.id, sub))
    decreases ts
  {
    if ts != [] {
      var t, rest := ts[0], ts[1..];
      var below, after := Attach(t.kids, p.id, sub), Attach(rest, p.id, sub);
      AttachNested(t.kids, p, sub);
      AttachNested(rest, p, sub);
      AttachAllInside(t.kids, p.id, sub, t.span);
      if t.span.id == p.id {
        assert t.span in Bag(ts);
        NestedAppend(below, [sub]);
        AllInsideAppend(below, sub, t.span);
        NestedHead(t.span, below + [sub], after);
      } else {
        NestedHead(t.span, below, after);
      }
    }
  }

  // ---- One iteration ----

  /** The level `t` can be repaired soundly: distinct ids, and everything below its children lies
      inside its parent's interval. Nothing is asked of `t` itself. */
  ghost predicate Sound(t: Tree) {
    DistinctIds(Bag([t])) && Nested(t.kids)
  }

  ghost predicate SameNodes(t: Tree, u: Tree) {
    u.span == t.span && Bag([u]) == Bag([t])
  }

  ghost function Tops(ts: seq<Tree>): set<Span> {
    set i | 0 <= i < |ts| :: ts[i].span
  }

  /** `p` is a possible parent for `r`, and no other in `m` is shorter. */
  ghost predicate Least(p: Span, r: Span, self: string, m: multiset<Span>) {
    && p in m && Candidate(p, r, self)
    && forall x :: x in m && Candidate(x, r, self) ==> p.end - p.start <= x.end - x.start
  }

  ghost predicate Enveloped(r: Span, self: string, m: multiset<Span>) {
    exists x :: x in m && Candidate(x, r, self)
  }

  function Others(t: Tree, i: nat): seq<Tree>
    requires i < |t.kids|
  {
    t.kids[..i] + t.kids[i + 1..]
  }

  lemma BagWithout(t: Tree, i: nat)
    requires i < |t.kids|
    ensures Bag(t.kids) == Bag(Others(t, i)) + Bag([t.kids[i]])
  {
    var a, r, b := t.kids[..i], [t.kids[i]], t.kids[i + 1..];
    assert t.kids == a + (r + b);
    BagAppend(a, r + b); BagAppend(r, b); BagAppend(a, b);
  }

  lemma EdgesWithout(t: Tree, i: nat)
    requires i < |t.kids|
    ensures var r := t.kids[i];
            TreeEdges(t) == Edges(t.span.id, Others(t, i)) + ({(t.span.id, r.span.id)} + TreeEdges(r))
  {
    var self, a, r, b := t.span.id, t.kids[..i], [t.kids[i]], t.kids[i + 1..];
    assert t.kids == a + (r + b);
    EdgesAppend(self, a, r + b); EdgesAppend(self, r, b); EdgesAppend(self, a, b);
  }

  lemma NestedWithout(t: Tree, i: nat)
    requires i < |t.kids| && Nested(t.kids)
    ensures Nested(Others(t, i)) && Nested([t.kids[i]])
  {
    var a, r, b := t.kids[..i], [t.kids[i]], t.kids[i + 1..];
    assert t.kids == a + (r + b);
    NestedAppend(a, r + b); NestedAppend(r, b); NestedAppend(a, b);
  }

  lemma TopsWithout(t: Tree, i: nat)
    requires DistinctIds(Bag([t])) && i < |t.kids|
    ensures Tops(Others(t, i)) == Tops(t.kids) - {t.kids[i].span}
  {
    var ts, others := t.kids, Others(t, i);
    KidsDistinct(t);
    forall j | 0 <= j < |ts| && j != i
      ensures ts[j].span in Tops(others)
    {
      var k := if j < i then j else j - 1;
      assert others[k] == ts[j];
    }
    forall k | 0 <= k < |others|
      ensures others[k].span in Tops(ts) - {ts[i].span}
    {
      var j := if k < i then k else k + 1;
      assert others[k] == ts[j];
    }
  }

  lemma KidsDistinct(t: Tree)
    requires DistinctIds(Bag([t]))
    ensures forall i, j :: 0 <= i < j < |t.kids| ==> t.kids[i].span.id != t.kids[j].span.id
  {
    DistinctParts([t]);
    forall i, j | 0 <= i < j < |t.kids|
      ensures t.kids[i].span.id != t.kids[j].span.id
    {
      var a, b := t.kids[..j], t.kids[j..];
      assert t.kids == a + b;
      BagAppend(a, b);
      TopInBag(a, i);
      TopInBag(b, 0);
      DistinctSplit(Bag(a), Bag(b));
    }
  }

  /** The chosen parent is never a descendant of the moved node. */
  lemma ChosenIsOutside(t: Tree, i: nat, p: Span)
    requires Sound(t) && i < |t.kids|
    requires p in Bag([t]) && Candidate(p, t.kids[i].span, t.span.id)
    ensures p in Bag(Others(t, i)) && p !in Bag([t.kids[i]])
  {
    var r := t.kids[i];
    BagWithout(t, i);
    NestedWithout(t, i);
    NestedInside(r.kids, r.span);
    assert p in Bag(t.kids);
  }

  /** The three disjoint parts of a level: the node, one child's subtree, the other children. */
  lemma LevelParts(t: Tree, i: nat)
    requires DistinctIds(Bag([t])) && i < |t.kids|
    ensures DistinctIds(Bag(Others(t, i)))
    ensures forall x, y :: x in Bag(Others(t, i)) && y in Bag([t.kids[i]]) ==> x.id != y.id
    ensures !HasId(Bag(t.kids[i].kids), t.kids[i].span.id)
  {
    DistinctParts([t]);
    BagWithout(t, i);
    DistinctSplit(Bag(Others(t, i)), Bag([t.kids[i]]));
    DistinctParts([t.kids[i]]);
  }

  lemma TraverseBag(t: Tree)
    ensures multiset(Traverse(t)) == Bag([t])
    ensures forall x :: x in Traverse(t) <==> x in Bag([t])
  {
    PreorderBag(t.kids);
    assert forall x :: x in Traverse(t) <==> x in multiset(Traverse(t));
  }

  lemma ClosestIsLeast(t: Tree, r: Span)
    ensures var c := Closest(Traverse(t), r, t.span.id);
            && (c.None? <==> !Enveloped(r, t.span.id, Bag([t])))
            && (c.Some? ==> Least(c.value, r, t.span.id, Bag([t])))
  {
    TraverseBag(t);
  }

  /** `u` is `t` with the child `r` moved under `p`, and no other parent changed. */
  ghost predicate Moved(t: Tree, u: Tree, r: Span, p: Span) {
    && Tops(u.kids) == Tops(t.kids) - {r}
    && (t.span.id, r.id) in TreeEdges(t)
    && TreeEdges(u) == TreeEdges(t) - {(t.span.id, r.id)} + {(p.id, r.id)}
  }

  /** `u` is `t` after one step for the child `r`. */
  ghost predicate Stepped(t: Tree, r: Span, u: Tree) {
    && SameNodes(t, u)
    && if Enveloped(r, t.span.id, Bag([t])) then
         exists p :: Least(p, r, t.span.id, Bag([t])) && Moved(t, u, r, p)
       else u == t
  }

  /** A step moves the child under the shortest node that envelops it, wherever that is, and leaves
      the child where it is exactly when no node envelops it. */
  lemma StepSound(t: Tree, r: Span)
    requires Sound(t) && r in Tops(t.kids)
    ensures Stepped(t, r, Step(t, r.id)) && Nested(Step(t, r.id).kids)
  {
    var i := KidIndex(t.kids, r.id);
    KidsDistinct(t);
    ClosestIsLeast(t, r);
    match Closest(Traverse(t), r, t.span.id)
    case None =>
    case Some(p) =>
      ChosenIsOutside(t, i, p);
      StepMoves(t, i, p);
      StepNested(t, i, p);
  }

  lemma StepNested(t: Tree, i: nat, p: Span)
    requires Sound(t) && i < |t.kids| && p in Bag(Others(t, i)) && Inside(t.kids[i].span, p)
    ensures Nested(Attach(Others(t, i), p.id, t.kids[i]))
  {
    LevelParts(t, i);
    NestedWithout(t, i);
    AttachNested(Others(t, i), p, t.kids[i]);
  }

  /** A move under a parent outside the moved subtree keeps the nodes, contained or not. */
  lemma StepMoves(t: Tree, i: nat, p: Span)
    requires DistinctIds(Bag([t])) && i < |t.kids|
    requires p in Bag(Others(t, i)) && Least(p, t.kids[i].span, t.span.id, Bag([t]))
    ensures var u := Tree(t.span, Attach(Others(t, i), p.id, t.kids[i]));
            SameNodes(t, u) && Moved(t, u, t.kids[i].span, p)
  {
    var r, others := t.kids[i], Others(t, i);
    StepBag(t, i, p);
    StepEdges(t, i, p);
    AttachTops(others, p.id, r);
    TopsWithout(t, i);
    EdgesWithout(t, i);
  }

  lemma StepBag(t: Tree, i: nat, p: Span)
    requires DistinctIds(Bag([t])) && i < |t.kids| && p in Bag(Others(t, i))
    ensures Bag([Tree(t.span, Attach(Others(t, i), p.id, t.kids[i]))]) == Bag([t])
  {
    LevelParts(t, i);
    AttachBag(Others(t, i), p.id, t.kids[i]);
    BagWithout(t, i);
  }

  lemma StepEdges(t: Tree, i: nat, p: Span)
    requires DistinctIds(Bag([t])) && i < |t.kids| && p in Bag(Others(t, i))
    ensures var r := t.kids[i];
            Edges(t.span.id, Attach(Others(t, i), p.id, r))
            == TreeEdges(t) - {(t.span.id, r.span.id)} + {(p.id, r.span.id)}
  {
    var self, r, others := t.span.id, t.kids[i], Others(t, i);
    LevelParts(t, i);
    AttachEdges(self, others, p.id, r);
    EdgesWithout(t, i);
    EdgeTargets(self, others);
    EdgeTargets(r.span.id, r.kids);
    assert r.span in Bag([r]);
    assert (self, r.span.id) !in Edges(self, others) + TreeEdges(r);
  }

  lemma {:induction false} EdgeTargets(q: string, ts: seq<Tree>)
    ensures forall e :: e in Edges(q, ts) ==> HasId(Bag(ts), e.1)
    decreases ts
  {
    if ts != [] {
      EdgeTargets(ts[0].span.id, ts[0].kids);
      EdgeTargets(q, ts[1..]);
      forall e | e in Edges(q, ts)
        ensures HasId(Bag(ts), e.1)
      {
        HasIdHead(ts, e.1);
      }
    }
  }

  lemma {:induction false} AttachTops(ts: seq<Tree>, pid: string, sub: Tree)
    ensures Tops(Attach(ts, pid, sub)) == Tops(ts)
  {
    AttachSpans(ts, pid, sub);
  }

  lemma {:induction false} AttachSpans(ts: seq<Tree>, pid: string, sub: Tree)
    ensures forall i :: 0 <= i < |ts| ==> Attach(ts, pid, sub)[i].span == ts[i].span
  {
    if ts != [] {
      AttachSpans(ts[1..], pid, sub);
    }
  }

  // ---- The whole loop ----

  ghost predicate AllTops(ids: seq<string>, ts: seq<Tree>) {
    forall id :: id in ids ==> exists r :: r in Tops(ts) && r.id == id
  }

  /** Where `u` has the child `r`: under a shortest node that envelops it if some node does, and
      still directly under the repaired node otherwise. */
  ghost predicate Placed(r: Span, m: multiset<Span>, u: Tree) {
    if Enveloped(r, u.span.id, m) then
      r !in Tops(u.kids) && exists p :: Least(p, r, u.span.id, m) && (p.id, r.id) in TreeEdges(u)
    else r in Tops(u.kids)
  }

  /** The edge `e` puts some child from `rs` under a shortest node that envelops it. */
  ghost predicate NewEdge(e: (string, string), rs: set<Span>, self: string, m: multiset<Span>) {
    exists r, p :: r in rs && Least(p, r, self, m) && e == (p.id, r.id)
  }

  /** `u` repairs the children `todo` of `t` and changes nothing else. */
  ghost predicate Repaired(t: Tree, todo: seq<string>, u: Tree) {
    && SameNodes(t, u) && Tops(u.kids) <= Tops(t.kids)
    && (forall r :: r in Tops(t.kids) ==> if r.id in todo then Placed(r, Bag([t]), u) else r in Tops(u.kids))
    && (forall e :: e in TreeEdges(t) && e.0 != t.span.id ==> e in TreeEdges(u))
    && (forall e :: e in TreeEdges(u) ==> e in TreeEdges(t) || NewEdge(e, Tops(t.kids), t.span.id, Bag([t])))
  }

  lemma BagSingle(t: Tree)
    ensures Bag([t]) == multiset{t.span} + Bag(t.kids)
  {
  }

  /** A sole child encloses every other node of the level, so nothing can envelop it. */
  lemma SoleChildIsFree(t: Tree)
    requires Sound(t) && |t.kids| == 1
    ensures !Enveloped(t.kids[0].span, t.span.id, Bag([t]))
  {
    var c := t.kids[0];
    assert t.kids == [c];
    NestedInside(c.kids, c.span);
    BagSingle(t);
    BagSingle(c);
  }

  lemma {:induction false} LoopSound(t: Tree, todo: seq<string>)
    requires Sound(t) && NoDup(todo) && AllTops(todo, t.kids)
    ensures Repaired(t, todo, Loop(t, todo)) && Nested(Loop(t, todo).kids)
    decreases todo
  {
    if todo == [] {
    } else if |t.kids| == 1 {
      SoleChildIsFree(t);
      assert Tops(t.kids) == {t.kids[0].span};
    } else {
      var r := FirstTop(t, todo);
      var u := Step(t, todo[0]);
      StepSound(t, r);
      StillTops(t, r, u, todo);
      LoopSound(u, todo[1..]);
      LoopThen(t, r, u, todo, Loop(u, todo[1..]));
    }
  }

  lemma TopsById(t: Tree)
    requires DistinctIds(Bag([t]))
    ensures forall a, b :: a in Tops(t.kids) && b in Tops(t.kids) && a.id == b.id ==> a == b
  {
    KidsDistinct(t);
  }

  lemma StillTops(t: Tree, r: Span, u: Tree, todo: seq<string>)
    requires Stepped(t, r, u) && todo != [] && todo[0] == r.id && NoDup(todo) && AllTops(todo, t.kids)
    ensures NoDup(todo[1..]) && AllTops(todo[1..], u.kids)
  {
    RestTops(t, u, todo);
  }

  lemma FirstTop(t: Tree, todo: seq<string>) returns (r: Span)
    requires todo != [] && AllTops(todo, t.kids)
    ensures r in Tops(t.kids) && r.id == todo[0]
  {
    var id := todo[0];
    assert id in todo;
    r :| r in Tops(t.kids) && r.id == id;
  }

  lemma RestTops(t: Tree, u: Tree, todo: seq<string>)
    requires todo != [] && NoDup(todo) && AllTops(todo, t.kids)
    requires forall x :: x in Tops(t.kids) && x.id != todo[0] ==> x in Tops(u.kids)
    ensures NoDup(todo[1..]) && AllTops(todo[1..], u.kids)
  {
    forall id | id in todo[1..]
      ensures exists x :: x in Tops(u.kids) && x.id == id
    {
      assert id in todo && id != todo[0];
      var x :| x in Tops(t.kids) && x.id == id;
      assert x in Tops(u.kids);
    }
  }

  lemma LoopThen(t: Tree, r: Span, u: Tree, todo: seq<string>, v: Tree)
    requires DistinctIds(Bag([t])) && r in Tops(t.kids) && Stepped(t, r, u)
    requires todo != [] && todo[0] == r.id && NoDup(todo)
    requires Repaired(u, todo[1..], v)
    ensures Repaired(t, todo, v)
  {
    LoopThenPlaced(t, r, u, todo, v);
    forall e | e in TreeEdges(v)
      ensures e in TreeEdges(t) || NewEdge(e, Tops(t.kids), t.span.id, Bag([t]))
    {
      LoopThenEdge(t, r, u, todo[1..], v, e);
    }
  }

  lemma LoopThenPlaced(t: Tree, r: Span, u: Tree, todo: seq<string>, v: Tree)
    requires DistinctIds(Bag([t])) && r in Tops(t.kids) && Stepped(t, r, u)
    requires todo != [] && todo[0] == r.id && NoDup(todo)
    requires Repaired(u, todo[1..], v)
    ensures forall x :: x in Tops(t.kids) ==> if x.id in todo then Placed(x, Bag([t]), v) else x in Tops(v.kids)
  {
    TopsById(t);
    forall x | x in Tops(t.kids)
      ensures if x.id in todo then Placed(x, Bag([t]), v) else x in Tops(v.kids)
    {
      if x == r {
        assert r.id !in todo[1..];
        LoopThenFirst(t, r, u, todo[1..], v);
      } else {
        assert x.id in todo <==> x.id in todo[1..];
        assert x in Tops(u.kids);
      }
    }
  }

  lemma LoopThenFirst(t: Tree, r: Span, u: Tree, rest: seq<string>, v: Tree)
    requires r in Tops(t.kids) && Stepped(t, r, u) && r.id !in rest && Repaired(u, rest, v)
    ensures Placed(r, Bag([t]), v)
  {
    if Enveloped(r, t.span.id, Bag([t])) {
      var p :| Least(p, r, t.span.id, Bag([t])) && Moved(t, u, r, p);
      assert (p.id, r.id) in TreeEdges(u);
      assert (p.id, r.id) in TreeEdges(v);
    }
  }

  lemma LoopThenEdge(t: Tree, r: Span, u: Tree, rest: seq<string>, v: Tree, e: (string, string))
    requires r in Tops(t.kids) && Stepped(t, r, u) && Repaired(u, rest, v) && e in TreeEdges(v)
    ensures e in TreeEdges(t) || NewEdge(e, Tops(t.kids), t.span.id, Bag([t]))
  {
    if e in TreeEdges(u) {
      if e !in TreeEdges(t) {
        var p :| Least(p, r, t.span.id, Bag([t])) && Moved(t, u, r, p);
        assert e == (p.id, r.id);
      }
    } else {
      var x, p :| x in Tops(u.kids) && Least(p, x, t.span.id, Bag([t])) && e == (p.id, x.id);
      assert x in Tops(t.kids);
    }
  }
}
