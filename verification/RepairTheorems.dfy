/** What a whole call of `repair_hierarchy` guarantees. */
module RepairTheorems {
  import opened Basics
  import opened Spans
  import opened Repair

  /** The node whose children the call repairs: the first one down the chain of only children that
      does not have exactly one child. */
  function Level(t: Tree): Tree {
    if |t.kids| == 1 then Level(t.kids[0]) else t
  }

  /** What became of `Level(t)` in `u`, found by following the same chain. */
  function LevelAfter(t: Tree, u: Tree): Tree {
    if |t.kids| == 1 && |u.kids| == 1 then LevelAfter(t.kids[0], u.kids[0]) else u
  }

  ghost predicate NoneEnveloped(u: Tree) {
    forall r :: r in Tops(u.kids) ==> !Enveloped(r, u.span.id, Bag([u]))
  }

  lemma KidIdsAreTops(t: Tree)
    requires DistinctIds(Bag([t]))
    ensures NoDup(KidIds(t.kids)) && AllTops(KidIds(t.kids), t.kids)
    ensures forall r :: r in Tops(t.kids) ==> r.id in KidIds(t.kids)
  {
    var ids := KidIds(t.kids);
    KidsDistinct(t);
    assert forall k :: 0 <= k < |ids| ==> t.kids[k].span in Tops(t.kids) && t.kids[k].span.id == ids[k];
    forall r | r in Tops(t.kids)
      ensures r.id in ids
    {
      var k :| 0 <= k < |t.kids| && t.kids[k].span == r;
      assert ids[k] == r.id;
    }
  }

  lemma RepairLevel(t: Tree)
    requires Sound(t) && |t.kids| != 1
    ensures Repaired(t, KidIds(t.kids), RepairTree(t)) && Nested(RepairTree(t).kids)
    ensures forall r :: r in Tops(t.kids) ==> Placed(r, Bag([t]), RepairTree(t))
  {
    KidIdsAreTops(t);
    LoopSound(t, KidIds(t.kids));
  }

  lemma SoundBelow(t: Tree)
    requires Sound(t) && |t.kids| == 1
    ensures Sound(t.kids[0])
  {
    assert t.kids == [t.kids[0]];
    DistinctParts([t]);
  }

  /** `repair_hierarchy` keeps exactly the same nodes in one acyclic tree, and keeps every node below
      the root's children inside its parent's interval. */
  lemma {:induction false} RepairKeepsNodes(t: Tree)
    requires Sound(t)
    ensures SameNodes(t, RepairTree(t)) && Sound(RepairTree(t))
    ensures Tops(RepairTree(t).kids) <= Tops(t.kids)
  {
    var u := RepairTree(t);
    if |t.kids| == 1 {
      var c, d := t.kids[0], RepairTree(t.kids[0]);
      assert t.kids == [c] && u.kids == [d];
      SoundBelow(t);
      RepairKeepsNodes(c);
      OnlyChildReplaced(t, u);
    } else {
      RepairLevel(t);
    }
  }

  lemma OnlyChildReplaced(t: Tree, u: Tree)
    requires Sound(t) && |t.kids| == |u.kids| == 1 && u.span == t.span
    requires SameNodes(t.kids[0], u.kids[0]) && Nested(u.kids[0].kids) && Tops(u.kids[0].kids) <= Tops(t.kids[0].kids)
    ensures SameNodes(t, u) && Sound(u) && Tops(u.kids) == Tops(t.kids)
  {
    BagOfOnlyChild(t);
    BagOfOnlyChild(u);
    assert Nested(u.kids) by {
      var c, d := t.kids[0], u.kids[0];
      assert t.kids == [c] && u.kids == [d];
      TopsInside(c.kids, d.kids, c.span);
    }
  }

  lemma BagOfOnlyChild(t: Tree)
    requires |t.kids| == 1
    ensures Bag([t]) == multiset{t.span} + Bag([t.kids[0]])
    ensures Tops(t.kids) == {t.kids[0].span}
  {
    assert t.kids == [t.kids[0]];
    BagSingle(t);
  }

  lemma TopsInside(ts: seq<Tree>, us: seq<Tree>, x: Span)
    requires AllInside(ts, x) && Tops(us) <= Tops(ts)
    ensures AllInside(us, x)
  {
    forall i | 0 <= i < |us|
      ensures Inside(us[i].span, x)
    {
      assert us[i].span in Tops(ts);
    }
  }

  /** Only children of the repaired level change parent; each of them is either still a child of
      that level, when nothing envelops it, or now under a shortest node that envelops it. */
  lemma {:induction false} RepairMovesOnlyTheLevel(t: Tree)
    requires Sound(t)
    ensures var u, l := RepairTree(t), Level(t);
            && (forall e :: e in TreeEdges(t) && e.0 != l.span.id ==> e in TreeEdges(u))
            && (forall e :: e in TreeEdges(u) ==> e in TreeEdges(t) || NewEdge(e, Tops(l.kids), l.span.id, Bag([l])))
            && (forall r :: r in Tops(l.kids) ==> Placed(r, Bag([l]), LevelAfter(t, u)))
  {
    if |t.kids| == 1 {
      SoundBelow(t);
      RepairMovesOnlyTheLevel(t.kids[0]);
      RepairKeepsNodes(t.kids[0]);
      EdgesOfOnlyChild(t);
      EdgesOfOnlyChild(RepairTree(t));
    } else {
      RepairLevel(t);
    }
  }

  /** The same, read off the intervals alone: a new edge puts a child of the level under a node of the
      level that covers it, is strictly longer, and is the shortest such node. */
  lemma RepairMovesToShortest(t: Tree, e: (string, string)) returns (r: Span, p: Span)
    requires Sound(t) && e in TreeEdges(RepairTree(t)) && e !in TreeEdges(t)
    ensures var l := Level(t);
            && r in Tops(l.kids) && p in Bag([l]) && e == (p.id, r.id) && p.id != r.id && p.id != l.span.id
            && p.start <= r.start && r.end <= p.end && p.end - p.start > r.end - r.start
            && forall x :: x in Bag([l]) && x.id != r.id && x.id != l.span.id
                 && x.start <= r.start && r.end <= x.end && x.end - x.start > r.end - r.start
                 ==> p.end - p.start <= x.end - x.start
  {
    var l := Level(t);
    RepairMovesOnlyTheLevel(t);
    assert NewEdge(e, Tops(l.kids), l.span.id, Bag([l]));
    r, p :| r in Tops(l.kids) && Least(p, r, l.span.id, Bag([l])) && e == (p.id, r.id);
  }

  /** And a child of the level stays there exactly when no other node of the level covers it and is
      strictly longer. */
  lemma RepairKeepsUncovered(t: Tree, r: Span)
    requires Sound(t) && r in Tops(Level(t).kids)
    ensures var l := Level(t);
            r in Tops(LevelAfter(t, RepairTree(t)).kids) <==>
            forall x :: x in Bag([l]) && x.id != r.id && x.id != l.span.id && x.start <= r.start && r.end <= x.end
              ==> x.end - x.start <= r.end - r.start
  {
    RepairMovesOnlyTheLevel(t);
    LevelAfterIs(t);
    SoundLevel(t);
    RepairLevel(Level(t));
    assert Placed(r, Bag([Level(t)]), LevelAfter(t, RepairTree(t)));
  }

  lemma EdgesOfOnlyChild(t: Tree)
    requires |t.kids| == 1
    ensures TreeEdges(t) == {(t.span.id, t.kids[0].span.id)} + TreeEdges(t.kids[0])
  {
    var c := t.kids[0];
    assert t.kids == [c] && [c][1..] == [];
    assert Edges(t.span.id, [c]) == {(t.span.id, c.span.id)} + TreeEdges(c) + Edges(t.span.id, [c][1..]);
  }

  /** Afterwards no child of the root, nor of the repaired level, is strictly enveloped by another
      node below it, even when the loop stopped early at one child. */
  lemma {:induction false} RepairLeavesNoneEnveloped(t: Tree)
    requires Sound(t)
    ensures NoneEnveloped(RepairTree(t)) && NoneEnveloped(LevelAfter(t, RepairTree(t)))
  {
    if |t.kids| == 1 {
      SoundBelow(t);
      RepairLeavesNoneEnveloped(t.kids[0]);
      RepairKeepsNodes(t);
      SoleChildIsFree(RepairTree(t));
    } else {
      RepairLevel(t);
    }
  }

  lemma {:induction false} NothingToDo(t: Tree, todo: seq<string>)
    requires Sound(t) && NoneEnveloped(t) && NoDup(todo) && AllTops(todo, t.kids)
    ensures Loop(t, todo) == t
  {
    if todo != [] && |t.kids| != 1 {
      var r := FirstTop(t, todo);
      StepSound(t, r);
      StillTops(t, r, t, todo);
      NothingToDo(t, todo[1..]);
    }
  }

  lemma {:induction false} LevelOfFixed(x: Tree)
    ensures LevelAfter(x, x) == Level(x)
  {
    if |x.kids| == 1 {
      LevelOfFixed(x.kids[0]);
    }
  }

  /** A call changes nothing exactly when, at the level it repairs, no child is strictly enveloped. */
  lemma {:induction false} FixedIff(x: Tree)
    requires Sound(x)
    ensures RepairTree(x) == x <==> NoneEnveloped(Level(x))
  {
    if |x.kids| == 1 {
      SoundBelow(x);
      FixedIff(x.kids[0]);
      assert x == Tree(x.span, [x.kids[0]]);
    } else {
      RepairLeavesNoneEnveloped(x);
      LevelOfFixed(x);
      KidIdsAreTops(x);
      if NoneEnveloped(x) {
        NothingToDo(x, KidIds(x.kids));
      }
    }
  }

  /** So a second pass changes nothing exactly when nothing is enveloped at the level that it repairs. */
  lemma SecondPass(t: Tree)
    requires Sound(t)
    ensures RepairTree(RepairTree(t)) == RepairTree(t) <==> NoneEnveloped(Level(RepairTree(t)))
  {
    RepairKeepsNodes(t);
    FixedIff(RepairTree(t));
  }

  /** The children of `l` that no other node of the level strictly envelops. */
  ghost function Free(l: Tree): set<Span> {
    set r | r in Tops(l.kids) && !Enveloped(r, l.span.id, Bag([l]))
  }

  lemma {:induction false} LevelAfterIs(t: Tree)
    ensures LevelAfter(t, RepairTree(t)) == RepairTree(Level(t)) && |Level(t).kids| != 1
  {
    if |t.kids| == 1 {
      LevelAfterIs(t.kids[0]);
    }
  }

  lemma {:induction false} SoundLevel(t: Tree)
    requires Sound(t)
    ensures Sound(Level(t))
  {
    if |t.kids| == 1 {
      SoundBelow(t);
      SoundLevel(t.kids[0]);
    }
  }

  /** The repaired level keeps exactly its unenveloped children. */
  lemma FreeRemain(t: Tree)
    requires Sound(t)
    ensures var l := LevelAfter(t, RepairTree(t));
            Tops(l.kids) == Free(Level(t)) && |l.kids| == |Free(Level(t))|
  {
    var l := Level(t);
    LevelAfterIs(t);
    SoundLevel(t);
    RepairLevel(l);
    RepairKeepsNodes(l);
    var u := RepairTree(l);
    forall r
      ensures r in Tops(u.kids) <==> r in Free(l)
    {
      assert r in Tops(l.kids) ==> Placed(r, Bag([l]), u);
    }
    TopsSize(u);
  }

  lemma TopsSize(t: Tree)
    requires DistinctIds(Bag([t]))
    ensures |Tops(t.kids)| == |t.kids|
  {
    var s := seq(|t.kids|, i requires 0 <= i < |t.kids| => t.kids[i].span);
    KidsDistinct(t);
    assert NoDup(s) by {
      forall i, j | 0 <= i < j < |s|
        ensures s[i] != s[j]
      {
        assert t.kids[i].span.id != t.kids[j].span.id;
      }
    }
    ElementsSize(s);
    assert forall i :: 0 <= i < |s| ==> s[i] == t.kids[i].span && s[i] in s;
    assert Elements(s) == Tops(t.kids);
  }

  lemma {:induction false} LevelStays(t: Tree)
    requires |LevelAfter(t, RepairTree(t)).kids| != 1
    ensures Level(RepairTree(t)) == LevelAfter(t, RepairTree(t))
  {
    if |t.kids| == 1 {
      LevelStays(t.kids[0]);
    }
  }

  /** Seen before the first pass: if other than one child of the repaired level is unenveloped, the second
      pass changes nothing. */
  lemma SecondPassWhenSeveralRemain(t: Tree)
    requires Sound(t) && |Free(Level(t))| != 1
    ensures RepairTree(RepairTree(t)) == RepairTree(t)
  {
    FreeRemain(t);
    LevelStays(t);
    RepairLeavesNoneEnveloped(t);
    SecondPass(t);
  }

  // ---- A second pass that moves a node ----

  function Leaf(id: string, start: int, end: int, kids: seq<Tree>): Tree {
    Tree(Span(id, None, "", "", 0, "", "", start, end, None, None, None, false), kids)
  }

  lemma PreorderPair(x: Tree, y: Tree)
    ensures Preorder([x]) == Traverse(x) && Preorder([x, y]) == Traverse(x) + Traverse(y)
  {
    assert [x, y][1..] == [y] && [y][1..] == [];
  }

  lemma BagPair(x: Tree, y: Tree)
    ensures Bag([x, y]) == Bag([x]) + Bag([y])
    ensures Bag([x]) == multiset{x.span} + Bag(x.kids)
  {
    BagAppend([x], [y]);
    assert [x] + [y] == [x, y];
  }

  /** Two nodes side by side, the second with two leaves of its own. */
  ghost predicate TwoLevels(t: Tree, a: Tree, b: Tree, c: Tree, d: Tree) {
    t.kids == [a, b] && a.kids == [c, d] && b.kids == [] && c.kids == [] && d.kids == []
  }

  lemma LeafTraverse(x: Tree)
    requires x.kids == []
    ensures Traverse(x) == [x.span]
  {
  }

  lemma TwoLevelsTraverse(t: Tree, a: Tree, b: Tree, c: Tree, d: Tree)
    requires TwoLevels(t, a, b, c, d)
    ensures Traverse(t) == [t.span, a.span, c.span, d.span, b.span]
  {
    assert Traverse(a) == [a.span, c.span, d.span] by {
      PreorderPair(c, d);
      LeafTraverse(c);
      LeafTraverse(d);
    }
    LeafTraverse(b);
    PreorderPair(a, b);
  }

  lemma TwoLevelsDistinct(t: Tree, a: Tree, b: Tree, c: Tree, d: Tree)
    requires TwoLevels(t, a, b, c, d)
    requires t.span.id !in {a.span.id, b.span.id, c.span.id, d.span.id}
    requires a.span.id !in {b.span.id, c.span.id, d.span.id}
    requires b.span.id !in {c.span.id, d.span.id} && c.span.id != d.span.id
    ensures DistinctIds(Bag([t]))
  {
    BagPair(b, b);
    BagPair(d, d);
    BagPair(c, d);
    BagPair(a, b);
    BagSingle(t);
    var low := multiset{c.span, d.span};
    assert Bag(a.kids) == low;
    assert Bag([t]) == multiset{t.span} + (multiset{a.span} + low + multiset{b.span});
  }

  /** `a` stays, and `b` goes below `c`, the closest node around it; `d` beside `c` is not looked at. */
  lemma FirstPass(t: Tree, a: Tree, b: Tree, c: Tree, d: Tree)
    requires TwoLevels(t, a, b, c, d) && a.span.id != b.span.id && c.span.id != a.span.id && c.span.id != d.span.id
    requires forall x :: x in [c.span, d.span, b.span] ==> !Candidate(x, a.span, t.span.id)
    requires Candidate(c.span, b.span, t.span.id) && !Candidate(d.span, b.span, t.span.id)
    requires Slack(c.span, b.span) < Slack(a.span, b.span)
    ensures RepairTree(t) == Tree(t.span, [Tree(a.span, [Tree(c.span, [b]), d])])
  {
    assert Step(t, a.span.id) == t by {
      StepStays(t, a, b, c, d);
    }
    assert Step(t, b.span.id) == Tree(t.span, [Tree(a.span, [Tree(c.span, [b]), d])]) by {
      StepUnderFirst(t, a, b, c, d);
    }
    LoopOfTwo(t, a.span.id, b.span.id);
    assert KidIds(t.kids) == [a.span.id, b.span.id];
  }

  lemma LoopOfTwo(t: Tree, x: string, y: string)
    requires |t.kids| != 1 && Step(t, x) == t
    ensures Loop(t, [x, y]) == Step(t, y)
  {
    var todo := [x, y];
    assert todo[1..] == [y] && [y][1..] == [];
    assert Loop(t, todo) == Loop(t, [y]);
  }

  lemma StepStays(t: Tree, a: Tree, b: Tree, c: Tree, d: Tree)
    requires TwoLevels(t, a, b, c, d)
    requires forall x :: x in [c.span, d.span, b.span] ==> !Candidate(x, a.span, t.span.id)
    ensures Step(t, a.span.id) == t
  {
    TwoLevelsTraverse(t, a, b, c, d);
    var below := [c.span, d.span, b.span];
    assert c.span in below && d.span in below && b.span in below;
    assert Closest(Traverse(t), a.span, t.span.id) == None;
  }

  lemma StepUnderFirst(t: Tree, a: Tree, b: Tree, c: Tree, d: Tree)
    requires TwoLevels(t, a, b, c, d) && a.span.id != b.span.id && c.span.id != a.span.id && c.span.id != d.span.id
    requires Candidate(c.span, b.span, t.span.id) && !Candidate(d.span, b.span, t.span.id)
    requires Slack(c.span, b.span) < Slack(a.span, b.span)
    ensures Step(t, b.span.id) == Tree(t.span, [Tree(a.span, [Tree(c.span, [b]), d])])
  {
    TwoLevelsTraverse(t, a, b, c, d);
    assert c.span in Traverse(t);
    assert Closest(Traverse(t), b.span, t.span.id) == Some(c.span);
    assert t.kids[..1] + t.kids[2..] == [a];
    AttachToFirst(a, c, d, b);
  }

  lemma AttachToFirst(a: Tree, c: Tree, d: Tree, sub: Tree)
    requires a.kids == [c, d] && c.kids == [] && d.kids == [] && c.span.id != a.span.id && c.span.id != d.span.id
    ensures Attach([a], c.span.id, sub) == [Tree(a.span, [Tree(c.span, [sub]), d])]
  {
    var none: seq<Tree> := [];
    assert Attach(none, c.span.id, sub) == none && none + [sub] == [sub];
    assert [d][1..] == none && [c, d][1..] == [d] && [a][1..] == none;
    assert d == Tree(d.span, none);
    assert Attach([d], c.span.id, sub) == [d] + none == [d];
    assert Attach([c, d], c.span.id, sub) == [Tree(c.span, [sub])] + [d] == [Tree(c.span, [sub]), d];
    assert Attach([a], c.span.id, sub) == [Tree(a.span, [Tree(c.span, [sub]), d])] + none;
  }

  lemma TwoLevelsNested(t: Tree, a: Tree, b: Tree, c: Tree, d: Tree)
    requires TwoLevels(t, a, b, c, d) && Inside(c.span, a.span) && Inside(d.span, a.span)
    ensures Nested(t.kids)
  {
    assert [a, b][1..] == [b] && [b][1..] == [] && [c, d][1..] == [d] && [d][1..] == [];
    assert Nested([d]) && Nested([b]);
    assert Nested([c, d]);
  }

  /** One more pass can still move a node. */
  lemma SecondPassCanMove()
    ensures exists t: Tree :: Sound(t) && RepairTree(RepairTree(t)) != RepairTree(t)
  {
    var b, c, d := Leaf("b", 10, 20, []), Leaf("c", 0, 30, []), Leaf("d", 1, 5, []);
    var a := Leaf("a", 0, 50, [c, d]);
    var t := Leaf("r", 0, 100, [a, b]);
    assert Sound(t) by {
      TwoLevelsDistinct(t, a, b, c, d);
      TwoLevelsNested(t, a, b, c, d);
    }
    FirstPass(t, a, b, c, d);
    StillEnveloped(Tree(a.span, [Tree(c.span, [b]), d]), c.span, d.span);
    SecondPass(t);
  }

  lemma StillEnveloped(l: Tree, c: Span, d: Span)
    requires |l.kids| == 2 && l.kids[0].span == c && l.kids[1].span == d && Candidate(c, d, l.span.id)
    ensures !NoneEnveloped(l)
  {
    TopInBag(l.kids, 0);
    BagSingle(l);
    assert d in Tops(l.kids) && Enveloped(d, l.span.id, Bag([l]));
  }

  // ---- Without containment ----

  /** The step for `rid` finds no parent, or finds one outside the moved subtree. */
  predicate PicksOutside(t: Tree, rid: string) {
    var i := KidIndex(t.kids, rid);
    i == |t.kids| ||
    match Closest(Traverse(t), t.kids[i].span, t.span.id)
    case None => true
    case Some(p) => p !in Traverse(t.kids[i])
  }

  predicate AlwaysPicksOutside(t: Tree, todo: seq<string>)
    decreases todo
  {
    todo == [] || |t.kids| == 1 || (PicksOutside(t, todo[0]) && AlwaysPicksOutside(Step(t, todo[0]), todo[1..]))
  }

  /** A step loses nodes exactly when the chosen parent lies in the subtree being moved. */
  lemma {:induction false} StepKeepsIff(t: Tree, rid: string)
    requires DistinctIds(Bag([t]))
    ensures Bag([Step(t, rid)]) <= Bag([t]) && Step(t, rid).span == t.span
    ensures Bag([Step(t, rid)]) == Bag([t]) <==> PicksOutside(t, rid)
  {
    var i := KidIndex(t.kids, rid);
    if i < |t.kids| {
      ClosestIsLeast(t, t.kids[i].span);
      var closest := Closest(Traverse(t), t.kids[i].span, t.span.id);
      if closest.Some? {
        assert Step(t, rid) == Tree(t.span, Attach(Others(t, i), closest.value.id, t.kids[i]));
        MoveKeepsIff(t, i, closest.value);
      } else {
        assert Step(t, rid) == t;
      }
    }
  }

  lemma {:induction false} MoveKeepsIff(t: Tree, i: nat, p: Span)
    requires DistinctIds(Bag([t])) && i < |t.kids|
    requires p in Bag([t]) && p.id != t.span.id
    ensures var u := Tree(t.span, Attach(Others(t, i), p.id, t.kids[i]));
            Bag([u]) <= Bag([t]) && (Bag([u]) == Bag([t]) <==> p !in Traverse(t.kids[i]))
  {
    var r, others := t.kids[i], Others(t, i);
    TraverseBag(r);
    LevelParts(t, i);
    BagWithout(t, i);
    BagSingle(t);
    BagSingle(Tree(t.span, Attach(others, p.id, r)));
    if p in Bag([r]) {
      AttachAbsent(others, p.id, r);
      assert Bag([t]) == multiset{t.span} + Bag(others) + Bag([r]);
      assert Bag([r])[p] > 0;
    } else {
      AttachBag(others, p.id, r);
    }
  }

  /** The repaired level keeps all its nodes exactly when no iteration picks a parent inside the
      subtree it is moving. `RepairKeepsNodes` shows containment rules that out. */
  lemma {:induction false} LoopKeepsIff(t: Tree, todo: seq<string>)
    requires DistinctIds(Bag([t]))
    ensures Bag([Loop(t, todo)]) <= Bag([t])
    ensures Bag([Loop(t, todo)]) == Bag([t]) <==> AlwaysPicksOutside(t, todo)
    decreases todo
  {
    if todo != [] && |t.kids| != 1 {
      StepKeepsIff(t, todo[0]);
      DistinctSub(Bag([Step(t, todo[0])]), Bag([t]));
      LoopKeepsIff(Step(t, todo[0]), todo[1..]);
    }
  }

  lemma SameRest<T>(x: T, a: multiset<T>, b: multiset<T>)
    ensures multiset{x} + a == multiset{x} + b <==> a == b
  {
    assert multiset{x} + a - multiset{x} == a && multiset{x} + b - multiset{x} == b;
  }

  lemma {:induction false} RepairLosesAtMost(t: Tree)
    requires DistinctIds(Bag([t]))
    ensures Bag([RepairTree(t)]) <= Bag([t])
  {
    if |t.kids| == 1 {
      assert t.kids == [t.kids[0]];
      DistinctParts([t]);
      RepairLosesAtMost(t.kids[0]);
      BagSingle(t);
      BagSingle(RepairTree(t));
    } else {
      LoopKeepsIff(t, KidIds(t.kids));
    }
  }

  /** The whole call keeps all nodes exactly when that holds at the level it repairs. */
  lemma {:induction false} RepairKeepsIff(t: Tree)
    requires DistinctIds(Bag([t]))
    ensures Bag([RepairTree(t)]) == Bag([t]) <==> AlwaysPicksOutside(Level(t), KidIds(Level(t).kids))
  {
    if |t.kids| == 1 {
      var u := RepairTree(t);
      assert DistinctIds(Bag([t.kids[0]])) by {
        assert t.kids == [t.kids[0]];
        DistinctParts([t]);
      }
      RepairKeepsIff(t.kids[0]);
      BagOfOnlyChild(t);
      BagOfOnlyChild(u);
      SameRest(t.span, Bag([u.kids[0]]), Bag([t.kids[0]]));
    } else {
      LoopKeepsIff(t, KidIds(t.kids));
    }
  }

  lemma DistinctSub(a: multiset<Span>, b: multiset<Span>)
    requires DistinctIds(b) && a <= b
    ensures DistinctIds(a)
  {
    assert forall x :: x in a ==> x in b && a[x] <= b[x];
  }

  /** Whatever the times of `c`, if only `b` envelops its own parent `a` then `b` is picked as the
      new parent of `a`. */
  lemma PicksDescendant(t: Tree, a: Tree, b: Tree, c: Tree)
    requires t.kids == [a, c] && a.kids == [b] && b.kids == [] && c.kids == []
    requires Candidate(b.span, a.span, t.span.id) && !Candidate(c.span, a.span, t.span.id)
    ensures !PicksOutside(t, a.span.id)
  {
    PreorderPair(b, b);
    PreorderPair(a, c);
    assert Traverse(t) == [t.span, a.span, b.span, c.span];
    assert b.span in Traverse(t) && b.span in Traverse(a);
    var best := Closest(Traverse(t), a.span, t.span.id);
    assert best == Some(b.span);
  }

  /** Without containment nodes can be lost. */
  lemma RepairCanLoseNodes()
    ensures exists t: Tree :: DistinctIds(Bag([t])) && Bag([RepairTree(t)]) != Bag([t])
  {
    var b, c := Leaf("b", 0, 9, []), Leaf("c", 20, 21, []);
    var a := Leaf("a", 2, 3, [b]);
    var t := Leaf("r", 0, 30, [a, c]);
    DistinctFour(t, a, b, c);
    PicksDescendant(t, a, b, c);
    LosesFirst(t);
  }

  lemma LosesFirst(t: Tree)
    requires DistinctIds(Bag([t])) && |t.kids| == 2 && !PicksOutside(t, t.kids[0].span.id)
    ensures Bag([RepairTree(t)]) != Bag([t])
  {
    LoopKeepsIff(t, KidIds(t.kids));
  }

  lemma DistinctFour(t: Tree, a: Tree, b: Tree, c: Tree)
    requires t.kids == [a, c] && a.kids == [b] && b.kids == [] && c.kids == []
    requires t.span.id != a.span.id && t.span.id != b.span.id && t.span.id != c.span.id
    requires a.span.id != b.span.id && a.span.id != c.span.id && b.span.id != c.span.id
    ensures DistinctIds(Bag([t]))
  {
    BagPair(b, b);
    BagPair(a, c);
    BagSingle(t);
    assert Bag([t]) == multiset{t.span, a.span, b.span, c.span};
  }
}
