/** When `repair_hierarchy` keeps all nodes, read off the given tree. */
module RepairCycles {
  import opened Basics
  import opened Spans
  import opened Repair
  import opened RepairTheorems

  /** Child number `i` has its turn: the loop stops at one child, so it leaves out the last child when all
      the others are enveloped. */
  ghost predicate HasTurn(t: Tree, i: nat) {
    i < |t.kids| &&
    (i < |t.kids| - 1 || exists k :: 0 <= k < |t.kids| - 1 && !Enveloped(t.kids[k].span, t.span.id, Bag([t])))
  }

  /** Following closest enveloping nodes from child to child goes round in no circle: `rank` falls from
      every child that has its turn to the child whose subtree holds a shortest node around it. */
  ghost predicate Ranked(t: Tree, rank: string -> nat) {
    forall i: nat, j: nat, p :: HasTurn(t, i) && Holder(t, j, p) && Least(p, t.kids[i].span, t.span.id, Bag([t])) ==>
      rank(t.kids[j].span.id) < rank(t.kids[i].span.id)
  }

  ghost predicate NoCircle(t: Tree) {
    exists rank :: Ranked(t, rank)
  }

  /** `x` is in the subtree of child number `j`. */
  ghost predicate Holder(t: Tree, j: nat, x: Span) {
    j < |t.kids| && x in Bag([t.kids[j]])
  }

  /** No child has two shortest nodes around it. */
  ghost predicate NoTies(t: Tree) {
    forall r, p, q ::
      r in Tops(t.kids) && Least(p, r, t.span.id, Bag([t])) && Least(q, r, t.span.id, Bag([t])) ==> p == q
  }

  lemma HolderExists(t: Tree, x: Span) returns (j: nat)
    requires x in Bag([t]) && x.id != t.span.id
    ensures Holder(t, j, x)
  {
    BagSingle(t);
    j := InSome(t.kids, x);
  }

  lemma {:induction false} InSome(ts: seq<Tree>, x: Span) returns (j: nat)
    requires x in Bag(ts)
    ensures j < |ts| && x in Bag([ts[j]])
  {
    BagAppend([ts[0]], ts[1..]);
    assert ts == [ts[0]] + ts[1..];
    if x in Bag([ts[0]]) {
      j := 0;
    } else {
      j := InSome(ts[1..], x);
      j := j + 1;
    }
  }

  lemma HolderUnique(t: Tree, i: nat, j: nat, x: Span)
    requires DistinctIds(Bag([t])) && Holder(t, i, x) && Holder(t, j, x)
    ensures i == j
  {
    if i != j {
      OtherApart(t, i, j, x);
    }
  }

  lemma OtherApart(t: Tree, i: nat, j: nat, x: Span)
    requires DistinctIds(Bag([t])) && i < |t.kids| && i != j && Holder(t, j, x)
    ensures x !in Bag([t.kids[i]])
  {
    var k := if j < i then j else j - 1;
    assert x in Bag(Others(t, i)) by {
      assert Others(t, i)[k] == t.kids[j];
      PartInBag(Others(t, i), k);
      assert Bag([t.kids[j]])[x] <= Bag(Others(t, i))[x];
    }
    LevelParts(t, i);
  }

  lemma {:induction false} PartInBag(ts: seq<Tree>, k: nat)
    requires k < |ts|
    ensures Bag([ts[k]]) <= Bag(ts)
  {
    BagAppend([ts[0]], ts[1..]);
    assert ts == [ts[0]] + ts[1..];
    if k > 0 {
      PartInBag(ts[1..], k - 1);
    }
  }

  // ---- One iteration, contained or not ----

  lemma ParentOutside(t: Tree, i: nat, p: Span)
    requires DistinctIds(Bag([t])) && i < |t.kids| && p in Bag([t]) && p.id != t.span.id && p !in Bag([t.kids[i]])
    ensures p in Bag(Others(t, i))
  {
    BagSingle(t);
    BagWithout(t, i);
  }

  lemma StepMoved(t: Tree, r: Span)
    requires DistinctIds(Bag([t])) && r in Tops(t.kids) && PicksOutside(t, r.id)
    ensures Stepped(t, r, Step(t, r.id))
  {
    var i := KidIndex(t.kids, r.id);
    TopsById(t);
    assert t.kids[i].span in Tops(t.kids);
    ClosestIsLeast(t, r);
    match Closest(Traverse(t), r, t.span.id)
    case None =>
    case Some(p) =>
      TraverseBag(t.kids[i]);
      ParentOutside(t, i, p);
      StepMoves(t, i, p);
  }

  /** The ids whose turn comes before the loop stops. */
  function Turns(t: Tree, todo: seq<string>): (out: seq<string>)
    ensures out <= todo
    decreases todo
  {
    if todo == [] || |t.kids| == 1 then [] else [todo[0]] + Turns(Step(t, todo[0]), todo[1..])
  }

  lemma SteppedOn(t: Tree, r: Span, todo: seq<string>)
    requires DistinctIds(Bag([t])) && r in Tops(t.kids) && PicksOutside(t, r.id)
    requires todo != [] && todo[0] == r.id && NoDup(todo) && AllTops(todo, t.kids)
    ensures var u := Step(t, r.id);
            Stepped(t, r, u) && DistinctIds(Bag([u])) && NoDup(todo[1..]) && AllTops(todo[1..], u.kids)
  {
    StepMoved(t, r);
    StillTops(t, r, Step(t, r.id), todo);
  }

  /** While nodes are kept, every child whose turn comes ends up in its place. */
  lemma {:induction false} LoopMoved(t: Tree, todo: seq<string>)
    requires DistinctIds(Bag([t])) && NoDup(todo) && AllTops(todo, t.kids) && AlwaysPicksOutside(t, todo)
    ensures Repaired(t, Turns(t, todo), Loop(t, todo))
    decreases todo
  {
    if todo != [] && |t.kids| != 1 {
      var r := FirstTop(t, todo);
      var u := Step(t, todo[0]);
      assert Stepped(t, r, u) && DistinctIds(Bag([u])) && NoDup(todo[1..]) && AllTops(todo[1..], u.kids) by {
        SteppedOn(t, r, todo);
      }
      LoopMoved(u, todo[1..]);
      var turns := Turns(t, todo);
      assert turns[1..] == Turns(u, todo[1..]) && turns[0] == r.id;
      assert NoDup(turns);
      LoopThen(t, r, u, turns, Loop(u, todo[1..]));
    }
  }

  /** If some turn never comes, one child is left. */
  lemma {:induction false} LoopStops(t: Tree, todo: seq<string>)
    requires DistinctIds(Bag([t])) && NoDup(todo) && AllTops(todo, t.kids) && AlwaysPicksOutside(t, todo)
    ensures |Turns(t, todo)| < |todo| ==> |Loop(t, todo).kids| == 1
    ensures AllTops(todo[|Turns(t, todo)|..], Loop(t, todo).kids)
    decreases todo
  {
    if todo == [] {
    } else if |t.kids| == 1 {
      assert todo[0..] == todo;
    } else {
      var r := FirstTop(t, todo);
      assert var u := Step(t, todo[0]);
             DistinctIds(Bag([u])) && NoDup(todo[1..]) && AllTops(todo[1..], u.kids) by {
        SteppedOn(t, r, todo);
      }
      LoopStops(Step(t, todo[0]), todo[1..]);
      var n := |Turns(Step(t, todo[0]), todo[1..])|;
      assert todo[1..][n..] == todo[n + 1..];
    }
  }

  lemma OneTop(ts: seq<Tree>, ids: seq<string>)
    requires |ts| == 1 && AllTops(ids, ts) && NoDup(ids)
    ensures forall id :: id in ids ==> id == ts[0].span.id
    ensures |ids| <= 1
  {
    forall id | id in ids
      ensures id == ts[0].span.id
    {
      var r :| r in Tops(ts) && r.id == id;
    }
    assert forall i :: 0 <= i < |ids| ==> ids[i] in ids;
    NoDupFits(ids, {ts[0].span.id});
  }

  lemma {:induction false} StoppedLeavesLast(t: Tree)
    requires DistinctIds(Bag([t])) && AlwaysPicksOutside(t, KidIds(t.kids))
    requires |Turns(t, KidIds(t.kids))| < |t.kids|
    ensures var ids := KidIds(t.kids);
            var turns, u := Turns(t, ids), Loop(t, ids);
            |u.kids| == 1 && |turns| == |t.kids| - 1 && u.kids[0].span.id == ids[|turns|]
  {
    var ids := KidIds(t.kids);
    KidIdsAreTops(t);
    LoopStops(t, ids);
    var rest := ids[|Turns(t, ids)|..];
    OneTop(Loop(t, ids).kids, rest);
    assert rest[0] in rest;
  }

  /** The loop stops early only before the last child, with all the others enveloped. */
  lemma {:induction false} StoppedBeforeLast(t: Tree)
    requires DistinctIds(Bag([t])) && AlwaysPicksOutside(t, KidIds(t.kids))
    requires |Turns(t, KidIds(t.kids))| < |t.kids|
    ensures |Turns(t, KidIds(t.kids))| == |t.kids| - 1
    ensures forall k :: 0 <= k < |t.kids| - 1 ==> Enveloped(t.kids[k].span, t.span.id, Bag([t]))
  {
    var ids := KidIds(t.kids);
    var turns := Turns(t, ids);
    StoppedLeavesLast(t);
    KidIdsAreTops(t);
    LoopMoved(t, ids);
    forall k | 0 <= k < |t.kids| - 1
      ensures Enveloped(t.kids[k].span, t.span.id, Bag([t]))
    {
      assert turns[k] == ids[k] && turns[k] in turns;
      GoneIsEnveloped(t, turns, Loop(t, ids), k);
    }
  }

  lemma {:induction false} GoneIsEnveloped(t: Tree, turns: seq<string>, u: Tree, k: nat)
    requires Repaired(t, turns, u) && k < |t.kids| && t.kids[k].span.id in turns
    requires |u.kids| == 1 && u.kids[0].span.id != t.kids[k].span.id
    ensures Enveloped(t.kids[k].span, t.span.id, Bag([t]))
  {
    assert t.kids[k].span in Tops(t.kids) && t.kids[k].span !in Tops(u.kids);
  }

  /** Every child that has its turn is among the ids whose turn comes. */
  lemma TurnComes(t: Tree, i: nat)
    requires DistinctIds(Bag([t])) && AlwaysPicksOutside(t, KidIds(t.kids)) && HasTurn(t, i)
    ensures i < |Turns(t, KidIds(t.kids))|
  {
    if |Turns(t, KidIds(t.kids))| < |t.kids| {
      StoppedBeforeLast(t);
    }
  }

  // ---- No circle keeps the nodes ----

  /** In the current tree `u`, a node of the subtree that child number `j` had in `t` is below that child or
      below one of lower rank. */
  ghost predicate Sunk(t: Tree, u: Tree, rank: string -> nat) {
    forall i: nat, j: nat, x :: Holder(u, i, x) && Holder(t, j, x) ==>
      u.kids[i].span == t.kids[j].span || rank(u.kids[i].span.id) < rank(t.kids[j].span.id)
  }

  lemma SunkAtFirst(t: Tree, rank: string -> nat)
    requires DistinctIds(Bag([t]))
    ensures Sunk(t, t, rank)
  {
    forall i: nat, j: nat, x | Holder(t, i, x) && Holder(t, j, x)
      ensures i == j
    {
      HolderUnique(t, i, j, x);
    }
  }

  lemma {:induction false} AttachAt(ts: seq<Tree>, pid: string, sub: Tree, m: nat)
    requires m < |ts|
    ensures [Attach(ts, pid, sub)[m]] == Attach([ts[m]], pid, sub)
  {
    if m > 0 {
      AttachAt(ts[1..], pid, sub, m - 1);
    }
  }

  /** Where the nodes below child number `m` were before the move. */
  lemma MovedHolder(u: Tree, i: nat, p: Span, m: nat, x: Span)
    requires DistinctIds(Bag([u])) && i < |u.kids| && p in Bag(Others(u, i)) && m < |Others(u, i)|
    requires x in Bag([Attach(Others(u, i), p.id, u.kids[i])[m]])
    ensures x in Bag([Others(u, i)[m]]) || (x in Bag([u.kids[i]]) && p in Bag([Others(u, i)[m]]))
  {
    var others := Others(u, i);
    LevelParts(u, i);
    PartInBag(others, m);
    DistinctSub(Bag([others[m]]), Bag(others));
    AttachAt(others, p.id, u.kids[i], m);
    AttachBag([others[m]], p.id, u.kids[i]);
    if HasId(Bag([others[m]]), p.id) {
      var y :| y in Bag([others[m]]) && y.id == p.id;
      assert y in Bag(others);
    }
  }

  lemma OtherHolder(u: Tree, i: nat, m: nat, x: Span) returns (k: nat)
    requires i < |u.kids| && m < |Others(u, i)| && x in Bag([Others(u, i)[m]])
    ensures Holder(u, k, x) && u.kids[k] == Others(u, i)[m]
  {
    k := if m < i then m else m + 1;
  }

  /** One move keeps everything sunk: the subtree goes below a child of lower rank. */
  lemma SunkMove(t: Tree, u: Tree, rank: string -> nat, i: nat, p: Span, j: nat)
    requires DistinctIds(Bag([u])) && Sunk(t, u, rank) && i < |u.kids| && p in Bag(Others(u, i))
    requires Holder(t, j, p) && rank(t.kids[j].span.id) < rank(u.kids[i].span.id)
    ensures Sunk(t, Tree(u.span, Attach(Others(u, i), p.id, u.kids[i])), rank)
  {
    var v := Tree(u.span, Attach(Others(u, i), p.id, u.kids[i]));
    AttachSpans(Others(u, i), p.id, u.kids[i]);
    forall m: nat, l: nat, x | Holder(v, m, x) && Holder(t, l, x)
      ensures v.kids[m].span == t.kids[l].span || rank(v.kids[m].span.id) < rank(t.kids[l].span.id)
    {
      MovedHolder(u, i, p, m, x);
      if x in Bag([Others(u, i)[m]]) {
        var k := OtherHolder(u, i, m, x);
      } else {
        var k := OtherHolder(u, i, m, p);
        assert Holder(u, k, p) && Holder(t, j, p) && Holder(u, i, x) && Holder(t, l, x);
      }
    }
  }

  /** The children still at the top are waiting or unenveloped. */
  ghost predicate TopsWaiting(t: Tree, u: Tree, todo: seq<string>) {
    forall r :: r in Tops(u.kids) ==> r in Tops(t.kids) && (r.id in todo || !Enveloped(r, t.span.id, Bag([t])))
  }

  /** The loop on `t` has reached child number `k` with the tree `u`. */
  ghost predicate Midway(t: Tree, u: Tree, rank: string -> nat, k: nat) {
    && k <= |t.kids| && SameNodes(t, u) && DistinctIds(Bag([t])) && Sunk(t, u, rank)
    && AllTops(KidIds(t.kids)[k..], u.kids) && NoDup(KidIds(t.kids)) && TopsWaiting(t, u, KidIds(t.kids)[k..])
  }

  /** If the last child has no turn, it is the only one left by then. */
  lemma LastAlone(t: Tree, u: Tree, rank: string -> nat, k: nat)
    requires Midway(t, u, rank, k) && k < |t.kids| && !HasTurn(t, k)
    ensures |u.kids| == 1
  {
    var ids, last := KidIds(t.kids), t.kids[k].span;
    assert ids[k..] == [last.id] && last.id in ids[k..];
    TopsById(t);
    assert last in Tops(t.kids);
    assert Tops(u.kids) == {last} by {
      forall x | x in Tops(u.kids)
        ensures x == last
      {
        NotFree(t, u, rank, k, x);
      }
      var r :| r in Tops(u.kids) && r.id == last.id;
    }
    TopsSize(u);
  }

  lemma NotFree(t: Tree, u: Tree, rank: string -> nat, k: nat, x: Span)
    requires Midway(t, u, rank, k) && k < |t.kids| && !HasTurn(t, k) && x in Tops(u.kids)
    ensures x == t.kids[k].span
  {
    var j :| 0 <= j < |t.kids| && t.kids[j].span == x;
    assert KidIds(t.kids)[k..] == [t.kids[k].span.id];
    TopsById(t);
    assert t.kids[k].span in Tops(t.kids);
  }

  lemma TurnMidway(t: Tree, u: Tree, rank: string -> nat, k: nat)
    requires Midway(t, u, rank, k) && k < |t.kids| && |u.kids| != 1
    ensures HasTurn(t, k) && t.kids[k].span in Tops(u.kids)
  {
    var ids := KidIds(t.kids);
    assert ids[k..][0] == ids[k] && ids[k] in ids[k..];
    var r :| r in Tops(u.kids) && r.id == ids[k];
    TopsById(t);
    assert t.kids[k].span in Tops(t.kids);
    if !HasTurn(t, k) {
      LastAlone(t, u, rank, k);
    }
  }

  lemma OutsideMidway(t: Tree, u: Tree, rank: string -> nat, k: nat)
    requires Midway(t, u, rank, k) && k < |t.kids| && |u.kids| != 1 && Ranked(t, rank)
    ensures PicksOutside(u, t.kids[k].span.id)
    ensures Sunk(t, Step(u, t.kids[k].span.id), rank)
  {
    var r := t.kids[k].span;
    var i := KidIndex(u.kids, r.id);
    TurnMidway(t, u, rank, k);
    TopsById(u);
    assert u.kids[i].span in Tops(u.kids);
    ClosestIsLeast(u, r);
    match Closest(Traverse(u), r, u.span.id)
    case None =>
    case Some(p) =>
      var j := HolderExists(t, p);
      assert rank(t.kids[j].span.id) < rank(r.id);
      TraverseBag(u.kids[i]);
      assert p !in Bag([u.kids[i]]) by {
        if p in Bag([u.kids[i]]) {
          assert Holder(u, i, p);
        }
      }
      ParentOutside(u, i, p);
      SunkMove(t, u, rank, i, p, j);
  }

  lemma NextMidway(t: Tree, u: Tree, rank: string -> nat, k: nat)
    requires Midway(t, u, rank, k) && k < |t.kids| && |u.kids| != 1 && Ranked(t, rank)
    ensures PicksOutside(u, t.kids[k].span.id) && Midway(t, Step(u, t.kids[k].span.id), rank, k + 1)
  {
    var ids, r := KidIds(t.kids), t.kids[k].span;
    var v := Step(u, r.id);
    TurnMidway(t, u, rank, k);
    OutsideMidway(t, u, rank, k);
    assert ids[k..][0] == r.id && ids[k..][1..] == ids[k + 1..];
    SteppedOn(u, r, ids[k..]);
    assert TopsWaiting(t, v, ids[k + 1..]) by {
      StillWaiting(t, u, v, r, ids[k..]);
    }
  }

  lemma StillWaiting(t: Tree, u: Tree, v: Tree, r: Span, todo: seq<string>)
    requires SameNodes(t, u) && DistinctIds(Bag([t])) && r in Tops(u.kids) && Stepped(u, r, v)
    requires todo != [] && todo[0] == r.id && TopsWaiting(t, u, todo)
    ensures TopsWaiting(t, v, todo[1..])
  {
    TopsById(u);
    assert todo == [r.id] + todo[1..];
  }

  lemma {:induction false} RankedPicksOutside(t: Tree, u: Tree, rank: string -> nat, k: nat)
    requires Midway(t, u, rank, k) && Ranked(t, rank)
    ensures AlwaysPicksOutside(u, KidIds(t.kids)[k..])
    decreases |t.kids| - k
  {
    if k < |t.kids| && |u.kids| != 1 {
      NextMidway(t, u, rank, k);
      RankedPicksOutside(t, Step(u, t.kids[k].span.id), rank, k + 1);
      assert KidIds(t.kids)[k..][1..] == KidIds(t.kids)[k + 1..];
    }
  }

  lemma NoCircleLevel(t: Tree)
    requires DistinctIds(Bag([t])) && NoCircle(t)
    ensures AlwaysPicksOutside(t, KidIds(t.kids))
  {
    var rank :| Ranked(t, rank);
    var ids := KidIds(t.kids);
    KidIdsAreTops(t);
    SunkAtFirst(t, rank);
    assert ids[0..] == ids;
    RankedPicksOutside(t, t, rank, 0);
  }

  // ---- Keeping the nodes means no circle ----

  /** How far below the top of the forest the node with this id is. */
  ghost function Depth(ts: seq<Tree>, id: string): nat {
    if ts == [] || ts[0].span.id == id then 0
    else if HasId(Bag(ts[0].kids), id) then 1 + Depth(ts[0].kids, id)
    else Depth(ts[1..], id)
  }

  lemma DepthInFirst(ts: seq<Tree>, id: string)
    requires ts != [] && DistinctIds(Bag(ts)) && HasId(Bag(ts[0].kids), id)
    ensures Depth(ts, id) == 1 + Depth(ts[0].kids, id)
  {
    DistinctParts(ts);
  }

  lemma DepthInRest(ts: seq<Tree>, id: string)
    requires ts != [] && DistinctIds(Bag(ts)) && HasId(Bag(ts[1..]), id)
    ensures Depth(ts, id) == Depth(ts[1..], id)
  {
    DistinctParts(ts);
  }

  /** The first node of a forest shares its id with none of the others, and `q` stays outside. */
  lemma ForestParts(ts: seq<Tree>, q: string)
    requires ts != [] && DistinctIds(Bag(ts)) && !HasId(Bag(ts), q)
    ensures DistinctIds(Bag(ts[0].kids)) && DistinctIds(Bag(ts[1..])) && ts[0].span.id != q
    ensures !HasId(Bag(ts[0].kids), ts[0].span.id) && !HasId(Bag(ts[1..]), q) && !HasId(Bag(ts[0].kids), q)
  {
    DistinctParts(ts);
    HasIdHead(ts, q);
  }

  /** `e.1` is one further down than `e.0`, or at the top if that is `q`. */
  ghost predicate StepsDown(q: string, ts: seq<Tree>, e: (string, string)) {
    && HasId(Bag(ts), e.1)
    && (if e.0 == q then Depth(ts, e.1) == 0 else HasId(Bag(ts), e.0) && Depth(ts, e.1) == Depth(ts, e.0) + 1)
  }

  /** A child is one further down than its parent. */
  lemma {:induction false} EdgeDepth(q: string, ts: seq<Tree>, e: (string, string))
    requires DistinctIds(Bag(ts)) && !HasId(Bag(ts), q) && e in Edges(q, ts)
    ensures StepsDown(q, ts, e)
    decreases ts
  {
    var x := ts[0].span.id;
    ForestParts(ts, q);
    if e == (q, x) {
      HasIdHead(ts, x);
    } else if e in Edges(x, ts[0].kids) {
      EdgeDepth(x, ts[0].kids, e);
      DownInFirst(q, ts, e);
    } else {
      EdgeDepth(q, ts[1..], e);
      DownInRest(q, ts, e);
    }
  }

  lemma DownInFirst(q: string, ts: seq<Tree>, e: (string, string))
    requires ts != [] && DistinctIds(Bag(ts)) && !HasId(Bag(ts), q) && StepsDown(ts[0].span.id, ts[0].kids, e)
    ensures StepsDown(q, ts, e)
  {
    HasIdHead(ts, e.0);
    HasIdHead(ts, e.1);
    DepthInFirst(ts, e.1);
    if e.0 != ts[0].span.id {
      DepthInFirst(ts, e.0);
    }
  }

  lemma DownInRest(q: string, ts: seq<Tree>, e: (string, string))
    requires ts != [] && DistinctIds(Bag(ts)) && StepsDown(q, ts[1..], e)
    ensures StepsDown(q, ts, e)
  {
    HasIdHead(ts, e.0);
    HasIdHead(ts, e.1);
    DepthInRest(ts, e.1);
    if e.0 != q {
      DepthInRest(ts, e.0);
    }
  }

  /** Where the edges of `ts` below `h` are edges of `us`, the nodes of `ts` are further down than `h`. */
  lemma {:induction false} DepthBelow(h: string, ts: seq<Tree>, q: string, us: seq<Tree>)
    requires DistinctIds(Bag(us)) && !HasId(Bag(us), q) && h != q && Edges(h, ts) <= Edges(q, us)
    ensures forall x :: x in Bag(ts) ==> Depth(us, h) < Depth(us, x.id)
    decreases ts
  {
    if ts != [] {
      var x := ts[0].span.id;
      assert (h, x) in Edges(q, us);
      EdgeDepth(q, us, (h, x));
      DepthBelow(x, ts[0].kids, q, us);
      DepthBelow(h, ts[1..], q, us);
    }
  }

  lemma {:induction false} TreeInEdges(q: string, ts: seq<Tree>, j: nat)
    requires j < |ts|
    ensures TreeEdges(ts[j]) <= Edges(q, ts)
  {
    if j > 0 {
      TreeInEdges(q, ts[1..], j - 1);
    }
  }

  /** The subtrees of the children are kept, so their nodes end up no higher than those children. */
  lemma HolderDepth(t: Tree, u: Tree, j: nat, p: Span)
    requires DistinctIds(Bag([t])) && SameNodes(t, u) && Holder(t, j, p)
    requires forall e :: e in TreeEdges(t) && e.0 != t.span.id ==> e in TreeEdges(u)
    ensures Depth(u.kids, t.kids[j].span.id) <= Depth(u.kids, p.id)
  {
    var c := t.kids[j];
    DistinctParts([t]);
    DistinctParts([u]);
    BagSingle(c);
    TreeInEdges(t.span.id, t.kids, j);
    TopInBag(t.kids, j);
    PartInBag(t.kids, j);
    forall e | e in TreeEdges(c)
      ensures e in TreeEdges(u)
    {
      EdgeSource(c.span.id, c.kids, e);
      BelowPart(t, j, e.0);
    }
    DepthBelow(c.span.id, c.kids, u.span.id, u.kids);
  }

  lemma {:induction false} EdgeSource(q: string, ts: seq<Tree>, e: (string, string))
    requires e in Edges(q, ts)
    ensures e.0 == q || HasId(Bag(ts), e.0)
    decreases ts
  {
    HasIdHead(ts, e.0);
    if e in Edges(ts[0].span.id, ts[0].kids) {
      EdgeSource(ts[0].span.id, ts[0].kids, e);
    } else if e in Edges(q, ts[1..]) {
      EdgeSource(q, ts[1..], e);
    }
  }

  /** No node below the root has the root's id. */
  lemma {:induction false} BelowPart(t: Tree, j: nat, id: string)
    requires DistinctIds(Bag([t])) && j < |t.kids|
    requires id == t.kids[j].span.id || HasId(Bag(t.kids[j].kids), id)
    ensures id != t.span.id
  {
    DistinctParts([t]);
    PartInBag(t.kids, j);
    BagSingle(t.kids[j]);
    var x :| x in Bag([t.kids[j]]) && x.id == id;
    assert x in Bag(t.kids);
  }

  /** With the final tree's depths as ranks: a moved child is right below the node it was moved to. */
  lemma {:induction false} KeepsNoCircle(t: Tree)
    requires DistinctIds(Bag([t])) && NoTies(t) && AlwaysPicksOutside(t, KidIds(t.kids))
    ensures NoCircle(t)
  {
    var ids := KidIds(t.kids);
    var u := Loop(t, ids);
    KidIdsAreTops(t);
    LoopMoved(t, ids);
    var rank := (id: string) => Depth(u.kids, id);
    forall i: nat, j: nat, p | HasTurn(t, i) && Holder(t, j, p) && Least(p, t.kids[i].span, t.span.id, Bag([t]))
      ensures rank(t.kids[j].span.id) < rank(t.kids[i].span.id)
    {
      TurnComes(t, i);
      ChildDepth(t, u, i, p);
      HolderDepth(t, u, j, p);
    }
    assert Ranked(t, rank);
  }

  lemma {:induction false} ChildDepth(t: Tree, u: Tree, i: nat, p: Span)
    requires DistinctIds(Bag([t])) && NoTies(t) && i < |Turns(t, KidIds(t.kids))|
    requires Repaired(t, Turns(t, KidIds(t.kids)), u) && Least(p, t.kids[i].span, t.span.id, Bag([t]))
    ensures Depth(u.kids, t.kids[i].span.id) == Depth(u.kids, p.id) + 1
  {
    var r, turns := t.kids[i].span, Turns(t, KidIds(t.kids));
    assert (p.id, r.id) in TreeEdges(u) by {
      assert turns[i] == r.id && r.id in turns && r in Tops(t.kids);
      assert Placed(r, Bag([t]), u);
    }
    assert DistinctIds(Bag(u.kids)) && !HasId(Bag(u.kids), u.span.id) by {
      DistinctParts([u]);
    }
    EdgeDepth(u.span.id, u.kids, (p.id, r.id));
  }

  /** When no child has two closest nodes, the call keeps all nodes exactly when following closest nodes
      goes round in no circle. */
  lemma RepairKeepsIffNoCircle(t: Tree)
    requires DistinctIds(Bag([t])) && NoTies(Level(t))
    ensures Bag([RepairTree(t)]) == Bag([t]) <==> NoCircle(Level(t))
  {
    LevelDistinct(t);
    RepairKeepsIff(t);
    if NoCircle(Level(t)) {
      NoCircleLevel(Level(t));
    } else if AlwaysPicksOutside(Level(t), KidIds(Level(t).kids)) {
      KeepsNoCircle(Level(t));
    }
  }

  /** Without a circle all nodes are kept, ties or not. */
  lemma NoCircleKeeps(t: Tree)
    requires DistinctIds(Bag([t])) && NoCircle(Level(t))
    ensures Bag([RepairTree(t)]) == Bag([t])
  {
    LevelDistinct(t);
    RepairKeepsIff(t);
    NoCircleLevel(Level(t));
  }

  lemma {:induction false} LevelDistinct(t: Tree)
    requires DistinctIds(Bag([t]))
    ensures DistinctIds(Bag([Level(t)]))
  {
    if |t.kids| == 1 {
      assert t.kids == [t.kids[0]];
      DistinctParts([t]);
      LevelDistinct(t.kids[0]);
    }
  }

  // ---- Containment is stricter ----

  ghost predicate Longest(ts: seq<Tree>, n: int) {
    forall i :: 0 <= i < |ts| ==> ts[i].span.end - ts[i].span.start <= n
  }

  lemma {:induction false} SomeLongest(ts: seq<Tree>) returns (n: int)
    ensures Longest(ts, n)
  {
    if ts == [] {
      n := 0;
    } else {
      n := SomeLongest(ts[1..]);
      var own := ts[0].span.end - ts[0].span.start;
      assert forall i :: 1 <= i < |ts| ==> ts[i] == ts[1..][i - 1];
      n := if own > n then own else n;
    }
  }

  /** The length of the interval of a child, by id. */
  ghost function LengthOf(ts: seq<Tree>, id: string): int {
    var i := KidIndex(ts, id);
    if i < |ts| then ts[i].span.end - ts[i].span.start else 0
  }

  lemma HolderContains(t: Tree, j: nat, p: Span)
    requires Sound(t) && Holder(t, j, p)
    ensures Inside(p, t.kids[j].span)
  {
    NestedWithout(t, j);
    NestedInside(t.kids[j].kids, t.kids[j].span);
    BagSingle(t.kids[j]);
  }

  /** Under containment shorter children follow longer ones, so there is no circle. */
  lemma ContainedNoCircle(t: Tree)
    requires Sound(t)
    ensures NoCircle(t)
  {
    var n := SomeLongest(t.kids);
    var rank := (id: string) => if LengthOf(t.kids, id) <= n then n - LengthOf(t.kids, id) else 0;
    KidsDistinct(t);
    forall i: nat, j: nat, p | HasTurn(t, i) && Holder(t, j, p) && Least(p, t.kids[i].span, t.span.id, Bag([t]))
      ensures rank(t.kids[j].span.id) < rank(t.kids[i].span.id)
    {
      HolderContains(t, j, p);
      assert KidIndex(t.kids, t.kids[i].span.id) == i && KidIndex(t.kids, t.kids[j].span.id) == j;
      assert LengthOf(t.kids, t.kids[j].span.id) > LengthOf(t.kids, t.kids[i].span.id);
    }
    assert Ranked(t, rank);
  }

  /** And it is strictly stricter: here a node reaches beyond its parent, but there is no circle. */
  lemma NoCircleBeyondContainment()
    ensures exists t: Tree :: DistinctIds(Bag([t])) && |t.kids| != 1 && !Nested(t.kids) && NoCircle(t)
  {
    var x, b := Leaf("x", 5, 50, []), Leaf("b", 20, 30, []);
    var a := Leaf("a", 0, 10, [x]);
    var t := Leaf("r", 0, 100, [a, b]);
    DistinctFour(t, a, x, b);
    OnlyHost(t, a, x, b);
    assert !Inside(x.span, a.span) && !Nested([a, b]);
  }

  lemma OnlyHost(t: Tree, a: Tree, x: Tree, b: Tree)
    requires t.kids == [a, b] && a.kids == [x] && x.kids == [] && b.kids == [] && DistinctIds(Bag([t]))
    requires !Candidate(x.span, a.span, t.span.id) && !Candidate(b.span, a.span, t.span.id)
    requires !Candidate(a.span, b.span, t.span.id)
    ensures NoCircle(t)
  {
    var rank := (id: string) => if id == b.span.id then 1 else 0;
    assert Bag([t]) == multiset{t.span, a.span, x.span, b.span} by {
      BagPair(a, b);
      BagSingle(t);
    }
    assert Bag([b]) == multiset{b.span};
    KidsDistinct(t);
    forall i: nat, j: nat, p | HasTurn(t, i) && Holder(t, j, p) && Least(p, t.kids[i].span, t.span.id, Bag([t]))
      ensures rank(t.kids[j].span.id) < rank(t.kids[i].span.id)
    {
      assert p in multiset{t.span, a.span, x.span, b.span};
      assert i == 1 && p == x.span;
      assert j == 1 ==> p == b.span;
    }
    assert Ranked(t, rank);
  }
}
