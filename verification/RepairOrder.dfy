/** The order in which `repair_hierarchy` leaves the children of each node. */
module RepairOrder {
  import opened Basics
  import opened Spans
  import opened Repair
  import opened RepairTheorems
  import opened TraceTree

  /** `g` against `h`: the node `self` has lost some children, every other node has kept its own in order and
      has got some of `ids` after them, in the order of `ids`. */
  ghost predicate Appended(h: Shape, g: Shape, self: string, ids: seq<string>) {
    && self in h && self in g && Sublist(g[self], h[self])
    && forall id :: id in h && id != self ==> id in g && h[id] <= g[id] && Sublist(g[id][|h[id]|..], ids)
  }

  lemma {:induction false} ShowsAll(h: Shape, ts: seq<Tree>)
    requires Shows(h, ts)
    ensures forall x :: x in Bag(ts) ==> x.id in h
    decreases ts
  {
    if ts != [] {
      ShowsAll(h, ts[0].kids);
      ShowsAll(h, ts[1..]);
    }
  }

  /** Nodes outside `m` have the same children in both. */
  ghost predicate SameElsewhere(h: Shape, g: Shape, m: multiset<Span>) {
    forall id :: id in h && !HasId(m, id) ==> id in g && g[id] == h[id]
  }

  lemma AppendedNothing(h: Shape, self: string, ids: seq<string>)
    requires self in h
    ensures Appended(h, h, self, ids)
  {
    SublistSelf(h[self]);
    SublistNone(ids);
    assert forall id :: id in h ==> h[id][|h[id]|..] == [];
  }

  lemma AppendedOne(h: Shape, self: string, i: nat, pid: string)
    requires self in h && i < |h[self]| && pid in h && pid != self
    ensures Appended(h, MoveChild(h, self, i, pid), self, [h[self][i]])
  {
    var g, one := MoveChild(h, self, i, pid), [h[self][i]];
    SublistWithout(h[self], i);
    SublistSelf(one);
    SublistNone(one);
    forall id | id in h && id != self
      ensures id in g && h[id] <= g[id] && Sublist(g[id][|h[id]|..], one)
    {
      assert g[id][|h[id]|..] == if id == pid then one else [];
    }
  }

  /** One iteration takes a child out and appends it elsewhere, or does nothing. */
  lemma StepOrder(t: Tree, rid: string, h: Shape) returns (g: Shape)
    requires Sound(t) && Shows(h, [t])
    ensures Shows(g, [Step(t, rid)]) && Appended(h, g, t.span.id, [rid]) && SameElsewhere(h, g, Bag([t]))
  {
    var i := KidIndex(t.kids, rid);
    if i == |t.kids| || Closest(Traverse(t), t.kids[i].span, t.span.id).None? {
      g := h;
      AppendedNothing(h, t.span.id, [rid]);
    } else {
      var p := Closest(Traverse(t), t.kids[i].span, t.span.id).value;
      g := StepMovesLast(t, i, p, h);
    }
  }

  lemma StepMovesLast(t: Tree, i: nat, p: Span, h: Shape) returns (g: Shape)
    requires Sound(t) && Shows(h, [t]) && i < |t.kids|
    requires Closest(Traverse(t), t.kids[i].span, t.span.id) == Some(p)
    ensures Shows(g, [Tree(t.span, Attach(Others(t, i), p.id, t.kids[i]))])
    ensures Appended(h, g, t.span.id, [t.kids[i].span.id]) && SameElsewhere(h, g, Bag([t]))
  {
    ClosestIsLeast(t, t.kids[i].span);
    ShowsAll(h, [t]);
    ShowsMove(h, t, i, p);
    g := MoveChild(h, t.span.id, i, p.id);
    AppendedOne(h, t.span.id, i, p.id);
    assert HasId(Bag([t]), p.id) && HasId(Bag([t]), t.span.id);
  }

  lemma AppendedThen(h: Shape, g: Shape, k: Shape, self: string, id: string, ids: seq<string>)
    requires Appended(h, g, self, [id]) && Appended(g, k, self, ids)
    ensures Appended(h, k, self, [id] + ids)
  {
    SublistTrans(k[self], g[self], h[self]);
    forall x | x in h && x != self
      ensures x in k && h[x] <= k[x] && Sublist(k[x][|h[x]|..], [id] + ids)
    {
      var one, more := g[x][|h[x]|..], k[x][|g[x]|..];
      assert k[x][|h[x]|..] == one + more;
      SublistAppend(one, [id], more, ids);
    }
  }

  lemma SublistAppend(a: seq<string>, b: seq<string>, c: seq<string>, d: seq<string>)
    requires Sublist(a, b) && Sublist(c, d)
    ensures Sublist(a + c, b + d)
  {
    var at: seq<nat> :| Selects(a, b, at);
    var ct: seq<nat> :| Selects(c, d, ct);
    assert Selects(a + c, b + d, at + seq(|ct|, k requires 0 <= k < |ct| => ct[k] + |b|));
  }

  lemma {:induction false} LoopOrder(t: Tree, todo: seq<string>, h: Shape) returns (g: Shape)
    requires Sound(t) && NoDup(todo) && AllTops(todo, t.kids) && Shows(h, [t])
    ensures Shows(g, [Loop(t, todo)]) && Appended(h, g, t.span.id, todo) && SameElsewhere(h, g, Bag([t]))
    decreases todo
  {
    if todo == [] || |t.kids| == 1 {
      g := h;
      AppendedNothing(h, t.span.id, todo);
    } else {
      var u := Step(t, todo[0]);
      assert Sound(u) && SameNodes(t, u) && NoDup(todo[1..]) && AllTops(todo[1..], u.kids) by {
        var r := FirstTop(t, todo);
        StepSound(t, r);
        StillTops(t, r, u, todo);
      }
      var mid := StepOrder(t, todo[0], h);
      g := LoopOrder(u, todo[1..], mid);
      AppendedThen(h, mid, g, t.span.id, todo[0], todo[1..]);
      assert [todo[0]] + todo[1..] == todo;
    }
  }

  lemma {:induction false} OnlyChildOrder(t: Tree, d: Tree, h: Shape, g: Shape)
    requires |t.kids| == 1 && DistinctIds(Bag([t])) && d.span == t.kids[0].span
    requires Shows(h, [t]) && Shows(g, [d]) && SameElsewhere(h, g, Bag([t.kids[0]]))
    ensures Shows(g, [Tree(t.span, [d])]) && SameElsewhere(h, g, Bag([t]))
  {
    var c := t.kids[0];
    assert t.kids == [c];
    DistinctParts([t]);
    BagSingle(t);
    assert KidIds([d]) == KidIds([c]);
    assert forall x :: x in Bag([c]) ==> x in Bag([t]);
    ShowsHead(g, t.span, [d], []);
  }

  /** `h` lists the children of every node before the call, `g` afterwards: the repaired level keeps some of
      its children in their order, and every other node keeps all of its own, in order, and then has what
      it was given, in the order in which the level listed it. */
  lemma {:induction false} RepairKeepsOrder(t: Tree, h: Shape) returns (g: Shape)
    requires Sound(t) && Shows(h, [t])
    ensures Shows(g, [RepairTree(t)]) && Appended(h, g, Level(t).span.id, KidIds(Level(t).kids))
    ensures SameElsewhere(h, g, Bag([t]))
  {
    if |t.kids| == 1 {
      SoundBelow(t);
      assert t.kids == [t.kids[0]];
      g := RepairKeepsOrder(t.kids[0], h);
      RepairKeepsNodes(t.kids[0]);
      OnlyChildOrder(t, RepairTree(t.kids[0]), h, g);
    } else {
      KidIdsAreTops(t);
      g := LoopOrder(t, KidIds(t.kids), h);
    }
  }
}
