/** `TraceTree.from_spans`: the tree built from flat parent links. */
module FromSpans {
  import opened Basics
  import opened Spans
  import opened ParentLinks

  const VIRTUAL := "agentlightning.virtual"
  const VIRTUAL_ROOT := "virtual-root"

  function Links(spans: seq<Span>): seq<Link<string>> {
    seq(|spans|, i requires 0 <= i < |spans| => Link(Some(spans[i].id), spans[i].parentId))
  }

  /** The children of `p` in input order. */
  function ChildIds(spans: seq<Span>, p: string): seq<string> {
    if spans == [] then []
    else (if spans[0].parentId == Some(p) then [spans[0].id] else []) + ChildIds(spans[1..], p)
  }

  /** The spans without a parent in input order. */
  function RootIds(spans: seq<Span>): seq<string> {
    if spans == [] then []
    else (if spans[0].parentId.None? then [spans[0].id] else []) + RootIds(spans[1..])
  }

  function Parents(spans: seq<Span>): set<string> {
    set i | 0 <= i < |spans| && spans[i].parentId.Some? :: spans[i].parentId.value
  }

  function ForwardGraph(spans: seq<Span>): map<string, seq<string>> {
    map p | p in Parents(spans) :: ChildIds(spans, p)
  }

  function KnownIds(spans: seq<Span>): set<string> {
    set i | 0 <= i < |spans| :: spans[i].id
  }

  /** `{span.span_id: span for span in spans}`: a later span replaces an earlier one. */
  function ById(spans: seq<Span>): map<string, Span> {
    if spans == [] then map[]
    else ById(spans[..|spans| - 1])[spans[|spans| - 1].id := spans[|spans| - 1]]
  }

  /** Parents that no span carries. */
  function Missing(spans: seq<Span>): set<string> {
    Parents(spans) - KnownIds(spans)
  }

  function MinStart(ts: seq<Tree>): int
    requires ts != []
  {
    if |ts| == 1 || ts[0].span.start <= MinStart(ts[1..]) then ts[0].span.start else MinStart(ts[1..])
  }

  function MaxEnd(ts: seq<Tree>): int
    requires ts != []
  {
    if |ts| == 1 || ts[0].span.end >= MaxEnd(ts[1..]) then ts[0].span.end else MaxEnd(ts[1..])
  }

  /** The stand-in for a parent that was not recorded. */
  function VirtualSpan(id: string, kids: seq<Tree>): Span
    requires kids != []
  {
    var f := kids[0].span;
    Span(id, None, f.rollout, f.attempt, f.seqId, f.trace, VIRTUAL, MinStart(kids), MaxEnd(kids),
         None, None, None, false)
  }

  /** A span made up by `from_spans` carries nothing that an adapter step looks for. */
  predicate StandIn(x: Span) {
    && (x.name == VIRTUAL || x.name == VIRTUAL_ROOT) && x.parentId.None?
    && x.agentName.None? && x.reward.None? && x.responseId.None?
  }

  /** The made-up span belongs to the same attempt and trace as `x`. */
  predicate SameOrigin(v: Span, x: Span) {
    v.rollout == x.rollout && v.attempt == x.attempt && v.seqId == x.seqId && v.trace == x.trace
  }

  function VirtualRoot(kids: seq<Tree>): Tree
    requires kids != []
  {
    var f := kids[0].span;
    Tree(Span(VIRTUAL_ROOT, None, f.rollout, f.attempt, f.seqId, f.trace, VIRTUAL_ROOT, f.start,
              kids[|kids| - 1].span.end, None, None, None, false), kids)
  }

  ghost predicate UniqueIds(spans: seq<Span>) {
    Distinct(Links(spans))
  }

  lemma {:induction false} ByIdExact(spans: seq<Span>)
    requires UniqueIds(spans)
    ensures ById(spans).Keys == KnownIds(spans)
    ensures forall i :: 0 <= i < |spans| ==> ById(spans)[spans[i].id] == spans[i]
  {
    if spans != [] {
      var n := |spans| - 1;
      var front, x := spans[..n], spans[n];
      assert Links(front) == Links(spans)[..n];
      ByIdExact(front);
      LastIsNew(spans);
      assert KnownIds(spans) == KnownIds(front) + {x.id};
      forall i | 0 <= i < |spans|
        ensures ById(spans)[spans[i].id] == spans[i]
      {
        if i < n {
          assert front[i] == spans[i];
        }
      }
    }
  }

  lemma LastIsNew(spans: seq<Span>)
    requires UniqueIds(spans) && spans != []
    ensures forall i :: 0 <= i < |spans| - 1 ==> spans[i].id != spans[|spans| - 1].id
  {
    assert forall i :: 0 <= i < |spans| ==> Links(spans)[i].id == Some(spans[i].id);
  }

  lemma {:induction false} ChildIdsExact(spans: seq<Span>, p: string)
    ensures forall c :: c in ChildIds(spans, p) <==> ChildOf(Links(spans), c, p)
    ensures p in Parents(spans) <==> ChildIds(spans, p) != []
  {
    if spans != [] {
      var ls, rest := Links(spans), Links(spans[1..]);
      assert ls == [Link(Some(spans[0].id), spans[0].parentId)] + rest;
      ChildIdsExact(spans[1..], p);
      var own := if spans[0].parentId.Some? then {spans[0].parentId.value} else {};
      assert Parents(spans) == Parents(spans[1..]) + own;
    }
  }

  /** `node` is the end of a path from the top, and is known as a span or as somebody's parent. */
  ghost predicate Visitable(spans: seq<Span>, node: string, path: seq<string>) {
    && UniqueIds(spans) && FromTop(Links(spans), path) && Last(path) == node
    && (node in KnownIds(spans) || node in Parents(spans))
  }

  /** The nested `visit`. The assertion that a node without a span has children is the
      precondition of `VirtualSpan`. */
  function Visit(spans: seq<Span>, node: string, ghost path: seq<string>): Tree
    requires Visitable(spans, node, path)
    decreases |spans| + 1 - |path|, |spans| + 1
  {
    var byId, graph := ById(spans), ForwardGraph(spans);
    PathBound(Links(spans), path);
    ByIdExact(spans);
    ChildIdsExact(spans, node);
    ChildIdsBound(spans, node);
    var kids := if node in graph then VisitAll(spans, node, graph[node], path) else [];
    if node !in byId then Tree(VirtualSpan(node, kids), kids) else Tree(byId[node], kids)
  }

  function VisitAll(spans: seq<Span>, node: string, ids: seq<string>, ghost path: seq<string>): (ts: seq<Tree>)
    requires Visitable(spans, node, path) && |ids| <= |spans|
    requires forall c :: c in ids ==> ChildOf(Links(spans), c, node)
    ensures |ts| == |ids|
    decreases |spans| + 1 - |path|, |ids|
  {
    if ids == [] then []
    else
      assert ChildOf(Links(spans), ids[0], node);
      ChildKnown(spans, ids[0], node);
      PathBound(Links(spans), path + [ids[0]]);
      [Visit(spans, ids[0], path + [ids[0]])] + VisitAll(spans, node, ids[1..], path)
  }

  lemma ChildKnown(spans: seq<Span>, c: string, p: string)
    requires ChildOf(Links(spans), c, p)
    ensures c in KnownIds(spans) && p in Parents(spans)
  {
    var i :| 0 <= i < |spans| && Links(spans)[i] == Link(Some(c), Some(p));
  }

  lemma {:induction false} ChildIdsBound(spans: seq<Span>, p: string)
    ensures |ChildIds(spans, p)| <= |spans|
  {
    if spans != [] {
      ChildIdsBound(spans[1..], p);
    }
  }

  // ---- What a visit builds ----

  /** The traversal of a visited tree is the depth-first walk over the links. */
  lemma {:induction false} VisitIds(spans: seq<Span>, node: string, path: seq<string>)
    requires Visitable(spans, node, path)
    ensures IdSeq(Traverse(Visit(spans, node, path))) == Subtree(Links(spans), node, path)
    decreases |spans| + 1 - |path|, |spans| + 1
  {
    PathBound(Links(spans), path);
    assert spans[0..] == spans;
    VisitAllIds(spans, node, path, 0);
    VisitParts(spans, node, path);
    var v := Visit(spans, node, path);
    assert IdSeq([v.span] + Preorder(v.kids)) == [v.span.id] + IdSeq(Preorder(v.kids));
  }

  lemma VisitParts(spans: seq<Span>, node: string, path: seq<string>)
    requires Visitable(spans, node, path)
    ensures forall c :: c in ChildIds(spans, node) ==> ChildOf(Links(spans), c, node)
    ensures |ChildIds(spans, node)| <= |spans|
    ensures Visit(spans, node, path).span.id == node
    ensures Visit(spans, node, path).kids == VisitAll(spans, node, ChildIds(spans, node), path)
  {
    ByIdExact(spans);
    ChildIdsExact(spans, node);
    ChildIdsBound(spans, node);
    if node in KnownIds(spans) {
      NodeId(spans, node);
    }
  }

  lemma {:induction false} VisitAllIds(spans: seq<Span>, node: string, path: seq<string>, i: nat)
    requires Visitable(spans, node, path) && i <= |spans|
    ensures forall c :: c in ChildIds(spans[i..], node) ==> ChildOf(Links(spans), c, node)
    ensures |ChildIds(spans[i..], node)| <= |spans|
    ensures IdSeq(Preorder(VisitAll(spans, node, ChildIds(spans[i..], node), path)))
            == SubtreeScan(Links(spans), node, path, i)
    decreases |spans| + 1 - |path|, |spans| - i
  {
    SuffixChildren(spans, node, i);
    var ls := Links(spans);
    if i < |spans| {
      var c, rest := spans[i].id, ChildIds(spans[i + 1..], node);
      assert spans[i..][1..] == spans[i + 1..];
      assert ls[i] == Link(Some(c), spans[i].parentId);
      VisitAllIds(spans, node, path, i + 1);
      if spans[i].parentId == Some(node) {
        assert ChildIds(spans[i..], node) == [c] + rest;
        assert c in [c] + rest;
        ChildKnown(spans, c, node);
        PathBound(ls, path + [c]);
        VisitIds(spans, c, path + [c]);
        VisitAllFirst(spans, node, c, rest, path);
        assert SubtreeScan(ls, node, path, i) == Subtree(ls, c, path + [c]) + SubtreeScan(ls, node, path, i + 1);
      } else {
        assert ChildIds(spans[i..], node) == rest;
        assert SubtreeScan(ls, node, path, i) == SubtreeScan(ls, node, path, i + 1);
      }
    }
  }

  lemma VisitAllFirst(spans: seq<Span>, node: string, c: string, rest: seq<string>, path: seq<string>)
    requires Visitable(spans, node, path) && |[c] + rest| <= |spans|
    requires ChildOf(Links(spans), c, node) && forall x :: x in rest ==> ChildOf(Links(spans), x, node)
    ensures c in KnownIds(spans) && Visitable(spans, c, path + [c])
    ensures IdSeq(Preorder(VisitAll(spans, node, [c] + rest, path))) ==
            IdSeq(Traverse(Visit(spans, c, path + [c]))) + IdSeq(Preorder(VisitAll(spans, node, rest, path)))
  {
    ChildKnown(spans, c, node);
    assert ([c] + rest)[1..] == rest;
    PreorderHead(Visit(spans, c, path + [c]), VisitAll(spans, node, rest, path));
  }

  lemma SuffixChildren(spans: seq<Span>, p: string, i: nat)
    requires i <= |spans|
    ensures forall c :: c in ChildIds(spans[i..], p) ==> ChildOf(Links(spans), c, p)
    ensures |ChildIds(spans[i..], p)| <= |spans|
  {
    ChildIdsExact(spans[i..], p);
    ChildIdsBound(spans[i..], p);
    assert Links(spans[i..]) == Links(spans)[i..];
  }

  lemma NodeId(spans: seq<Span>, node: string)
    requires UniqueIds(spans) && node in KnownIds(spans)
    ensures node in ById(spans) && ById(spans)[node].id == node && ById(spans)[node] in spans
  {
    ByIdExact(spans);
    var i :| 0 <= i < |spans| && spans[i].id == node;
  }

  lemma {:induction false} VisitSpans(spans: seq<Span>, node: string, path: seq<string>)
    requires Visitable(spans, node, path)
    ensures var v := Visit(spans, node, path);
            && v.span.id == node
            && (if node in KnownIds(spans) then v.span in spans else StandIn(v.span))
            && (forall x :: x in Bag(v.kids) ==> x in spans)
    decreases |spans| + 1 - |path|, |spans| + 1
  {
    PathBound(Links(spans), path);
    ByIdExact(spans);
    ChildIdsExact(spans, node);
    ChildIdsBound(spans, node);
    if node in KnownIds(spans) {
      NodeId(spans, node);
    }
    if node in Parents(spans) {
      VisitAllSpans(spans, node, ChildIds(spans, node), path);
    }
  }

  lemma {:induction false} VisitAllSpans(spans: seq<Span>, node: string, ids: seq<string>, path: seq<string>)
    requires Visitable(spans, node, path) && |ids| <= |spans|
    requires forall c :: c in ids ==> ChildOf(Links(spans), c, node)
    ensures forall x :: x in Bag(VisitAll(spans, node, ids, path)) ==> x in spans
    decreases |spans| + 1 - |path|, |ids|
  {
    if ids != [] {
      assert ChildOf(Links(spans), ids[0], node);
      ChildKnown(spans, ids[0], node);
      PathBound(Links(spans), path + [ids[0]]);
      VisitSpans(spans, ids[0], path + [ids[0]]);
      VisitAllSpans(spans, node, ids[1..], path);
    }
  }

  /** Every parent-child pair of a visited tree is a parent link of the input. */
  lemma {:induction false} VisitEdges(spans: seq<Span>, node: string, path: seq<string>)
    requires Visitable(spans, node, path)
    ensures forall e :: e in TreeEdges(Visit(spans, node, path)) ==> ChildOf(Links(spans), e.1, e.0)
    decreases |spans| + 1 - |path|, |spans| + 1
  {
    PathBound(Links(spans), path);
    ByIdExact(spans);
    ChildIdsExact(spans, node);
    ChildIdsBound(spans, node);
    VisitSpans(spans, node, path);
    if node in Parents(spans) {
      VisitAllEdges(spans, node, ChildIds(spans, node), path);
    }
  }

  lemma {:induction false} VisitAllEdges(spans: seq<Span>, node: string, ids: seq<string>, path: seq<string>)
    requires Visitable(spans, node, path) && |ids| <= |spans|
    requires forall c :: c in ids ==> ChildOf(Links(spans), c, node)
    ensures forall e :: e in Edges(node, VisitAll(spans, node, ids, path)) ==> ChildOf(Links(spans), e.1, e.0)
    decreases |spans| + 1 - |path|, |ids|
  {
    if ids != [] {
      assert ChildOf(Links(spans), ids[0], node);
      ChildKnown(spans, ids[0], node);
      PathBound(Links(spans), path + [ids[0]]);
      VisitSpans(spans, ids[0], path + [ids[0]]);
      VisitEdges(spans, ids[0], path + [ids[0]]);
      VisitAllEdges(spans, node, ids[1..], path);
      var v, vs := Visit(spans, ids[0], path + [ids[0]]), VisitAll(spans, node, ids[1..], path);
      assert ([v] + vs)[1..] == vs;
    }
  }

  // ---- Containment ----

  /** Every recorded span lies inside its parent, when that is recorded too. */
  ghost predicate ContainedSpans(spans: seq<Span>) {
    forall a, b :: a in spans && b in spans && a.parentId == Some(b.id) ==> Inside(a, b)
  }

  /** A stand-in spans exactly the hull of its children. */
  lemma {:induction false} HullExact(ts: seq<Tree>)
    requires ts != []
    ensures forall i :: 0 <= i < |ts| ==> MinStart(ts) <= ts[i].span.start && ts[i].span.end <= MaxEnd(ts)
    ensures exists i :: 0 <= i < |ts| && ts[i].span.start == MinStart(ts)
    ensures exists i :: 0 <= i < |ts| && ts[i].span.end == MaxEnd(ts)
  {
    if |ts| > 1 {
      HullExact(ts[1..]);
      var i :| 0 <= i < |ts[1..]| && ts[1..][i].span.start == MinStart(ts[1..]);
      var j :| 0 <= j < |ts[1..]| && ts[1..][j].span.end == MaxEnd(ts[1..]);
      assert ts[i + 1].span.start == MinStart(ts[1..]) && ts[j + 1].span.end == MaxEnd(ts[1..]);
      assert ts[0].span.start == ts[0].span.start && ts[0].span.end == ts[0].span.end;
      assert forall k :: 1 <= k < |ts| ==> ts[1..][k - 1] == ts[k];
    } else {
      assert ts[0].span.start == MinStart(ts) && ts[0].span.end == MaxEnd(ts);
    }
  }

  lemma {:induction false} VisitNested(spans: seq<Span>, node: string, path: seq<string>)
    requires Visitable(spans, node, path) && ContainedSpans(spans)
    ensures Nested([Visit(spans, node, path)])
    decreases |spans| + 1 - |path|, |spans| + 1
  {
    PathBound(Links(spans), path);
    ByIdExact(spans);
    ChildIdsExact(spans, node);
    ChildIdsBound(spans, node);
    VisitSpans(spans, node, path);
    if node in Parents(spans) {
      var kids := VisitAll(spans, node, ChildIds(spans, node), path);
      VisitAllNested(spans, node, ChildIds(spans, node), path);
      if node !in KnownIds(spans) {
        HullExact(kids);
      }
    }
  }

  lemma {:induction false} VisitAllNested(spans: seq<Span>, node: string, ids: seq<string>, path: seq<string>)
    requires Visitable(spans, node, path) && ContainedSpans(spans) && |ids| <= |spans|
    requires forall c :: c in ids ==> ChildOf(Links(spans), c, node)
    ensures var ts := VisitAll(spans, node, ids, path);
            && Nested(ts)
            && (node in ById(spans) ==> AllInside(ts, ById(spans)[node]))
    decreases |spans| + 1 - |path|, |ids|
  {
    ByIdExact(spans);
    if ids != [] {
      var c := ids[0];
      assert ChildOf(Links(spans), c, node);
      ChildKnown(spans, c, node);
      PathBound(Links(spans), path + [c]);
      VisitNested(spans, c, path + [c]);
      VisitAllNested(spans, node, ids[1..], path);
      var v, vs := Visit(spans, c, path + [c]), VisitAll(spans, node, ids[1..], path);
      NestedAppend([v], vs);
      if node in KnownIds(spans) {
        VisitSpans(spans, c, path + [c]);
        NodeId(spans, node);
        SpanParent(spans, c, node);
        assert Inside(v.span, ById(spans)[node]);
      }
    }
  }

  lemma SpanParent(spans: seq<Span>, c: string, p: string)
    requires UniqueIds(spans) && ChildOf(Links(spans), c, p)
    ensures forall x :: x in spans && x.id == c ==> x.parentId == Some(p)
  {
    var i :| 0 <= i < |spans| && Links(spans)[i] == Link(Some(c), Some(p));
    forall x | x in spans && x.id == c
      ensures x.parentId == Some(p)
    {
      var j :| 0 <= j < |spans| && spans[j] == x;
      assert Links(spans)[j].id == Links(spans)[i].id;
    }
  }

  // ---- The whole tree ----

  /** `order` lists the missing parents in some order, each once. */
  ghost predicate Enumerates(order: seq<string>, ids: set<string>) {
    NoDup(order) && forall x :: x in order <==> x in ids
  }

  ghost predicate IsRoot(spans: seq<Span>, r: string) {
    Top(Links(spans), r) && (r in KnownIds(spans) || r in Parents(spans))
  }

  lemma {:induction false} RootIdsExact(spans: seq<Span>)
    ensures forall r :: r in RootIds(spans) <==> Link(Some(r), None) in Links(spans)
  {
    if spans != [] {
      RootIdsExact(spans[1..]);
      assert Links(spans) == [Link(Some(spans[0].id), spans[0].parentId)] + Links(spans[1..]);
    }
  }

  lemma {:induction false} RootIdsNoDup(spans: seq<Span>)
    requires UniqueIds(spans)
    ensures NoDup(RootIds(spans))
  {
    if spans != [] {
      var ls := Links(spans);
      assert Links(spans[1..]) == ls[1..];
      RootIdsNoDup(spans[1..]);
      RootIdsExact(spans[1..]);
      var first := if spans[0].parentId.None? then [spans[0].id] else [];
      forall x | x in first
        ensures x !in RootIds(spans[1..])
      {
        assert ls[0].id == Some(x);
        assert forall j :: 0 <= j < |ls[1..]| ==> ls[1..][j] == ls[j + 1];
      }
      NoDupConcat(first, RootIds(spans[1..]));
    }
  }

  /** The roots are the spans with a null parent and the ids of missing parents, each once. */
  lemma RootsAreTop(spans: seq<Span>, order: seq<string>)
    requires UniqueIds(spans) && Enumerates(order, Missing(spans))
    ensures NoDup(RootIds(spans) + order)
    ensures forall r :: r in RootIds(spans) + order ==> IsRoot(spans, r)
  {
    var ls := Links(spans);
    RootIdsExact(spans);
    RootIdsNoDup(spans);
    forall r | r in RootIds(spans)
      ensures IsRoot(spans, r) && r in KnownIds(spans)
    {
      var i :| 0 <= i < |ls| && ls[i] == Link(Some(r), None);
      assert spans[i].id == r;
    }
    forall r | r in order
      ensures IsRoot(spans, r)
    {
      if p :| ChildOf(ls, r, p) {
        ChildKnown(spans, r, p);
      }
    }
    NoDupConcat(RootIds(spans), order);
  }

  function VisitRoots(spans: seq<Span>, roots: seq<string>): (ts: seq<Tree>)
    requires UniqueIds(spans) && forall r :: r in roots ==> IsRoot(spans, r)
    ensures |ts| == |roots|
  {
    if roots == [] then []
    else
      var r := roots[0];
      assert r in roots && IsRoot(spans, r);
      [Visit(spans, r, [r])] + VisitRoots(spans, roots[1..])
  }

  function BuildTree(spans: seq<Span>, order: seq<string>): Result<Tree, string>
    requires UniqueIds(spans) && Enumerates(order, Missing(spans))
  {
    RootsAreTop(spans, order);
    var roots := RootIds(spans) + order;
    if spans == [] then Err("No spans provided to create TraceTree.")
    else if |roots| > 1 then Ok(VirtualRoot(VisitRoots(spans, roots)))
    else if |roots| == 0 then Err("No root spans found in the trace.")
    else Ok(VisitRoots(spans, roots)[0])
  }

  /** The parent chain of `y` ends at a null parent or at a missing one. */
  ghost predicate Rooted(spans: seq<Span>, y: string) {
    exists r :: IsRoot(spans, r) && Reaches(Links(spans), r, y)
  }

  ghost predicate RootedFrom(spans: seq<Span>, roots: seq<string>, y: string) {
    exists r :: r in roots && Reaches(Links(spans), r, y)
  }

  lemma {:induction false} VisitRootsIds(spans: seq<Span>, roots: seq<string>)
    requires UniqueIds(spans) && NoDup(roots) && forall r :: r in roots ==> IsRoot(spans, r)
    ensures var ids := IdSeq(Preorder(VisitRoots(spans, roots)));
            NoDup(ids) && forall y :: y in ids <==> RootedFrom(spans, roots, y)
  {
    if roots != [] {
      var r, rest := roots[0], roots[1..];
      assert r in roots && IsRoot(spans, r);
      VisitRootsIds(spans, rest);
      VisitIds(spans, r, [r]);
      SubtreeExact(Links(spans), r);
      RootsIdsHead(spans, roots);
      var a, b := Subtree(Links(spans), r, [r]), IdSeq(Preorder(VisitRoots(spans, rest)));
      forall y | y in a
        ensures y !in b
      {
        if y in b {
          var s :| s in rest && Reaches(Links(spans), s, y);
          TopsDisjoint(Links(spans), r, s, y);
        }
      }
      NoDupConcat(a, b);
      RootedFromHead(spans, roots);
    }
  }

  lemma RootsIdsHead(spans: seq<Span>, roots: seq<string>)
    requires UniqueIds(spans) && roots != [] && forall r :: r in roots ==> IsRoot(spans, r)
    ensures IsRoot(spans, roots[0])
    ensures IdSeq(Preorder(VisitRoots(spans, roots))) ==
            Subtree(Links(spans), roots[0], [roots[0]]) + IdSeq(Preorder(VisitRoots(spans, roots[1..])))
  {
    var r := roots[0];
    assert r in roots && IsRoot(spans, r);
    VisitIds(spans, r, [r]);
    PreorderHead(Visit(spans, r, [r]), VisitRoots(spans, roots[1..]));
  }

  lemma PreorderHead(v: Tree, vs: seq<Tree>)
    ensures IdSeq(Preorder([v] + vs)) == IdSeq(Traverse(v)) + IdSeq(Preorder(vs))
  {
    assert ([v] + vs)[1..] == vs;
  }

  lemma RootedFromHead(spans: seq<Span>, roots: seq<string>)
    requires roots != []
    ensures forall y :: RootedFrom(spans, roots, y) <==>
              Reaches(Links(spans), roots[0], y) || RootedFrom(spans, roots[1..], y)
  {
    assert forall x :: x in roots <==> x == roots[0] || x in roots[1..];
  }

  lemma RootsComplete(spans: seq<Span>, order: seq<string>, r: string)
    requires UniqueIds(spans) && Enumerates(order, Missing(spans)) && IsRoot(spans, r)
    ensures r in RootIds(spans) + order
  {
    RootIdsExact(spans);
    if r in KnownIds(spans) {
      var i :| 0 <= i < |spans| && spans[i].id == r;
      assert Links(spans)[i] == Link(Some(r), spans[i].parentId);
      if spans[i].parentId.Some? {
        assert ChildOf(Links(spans), r, spans[i].parentId.value);
      }
    }
  }

  lemma RootedFromRoots(spans: seq<Span>, order: seq<string>, y: string)
    requires UniqueIds(spans) && Enumerates(order, Missing(spans))
    ensures Rooted(spans, y) <==> RootedFrom(spans, RootIds(spans) + order, y)
  {
    RootsAreTop(spans, order);
    if Rooted(spans, y) {
      var r :| IsRoot(spans, r) && Reaches(Links(spans), r, y);
      RootsComplete(spans, order, r);
    }
  }

  lemma {:induction false} VisitRootsSpans(spans: seq<Span>, roots: seq<string>)
    requires UniqueIds(spans) && forall r :: r in roots ==> IsRoot(spans, r)
    ensures forall x :: x in Bag(VisitRoots(spans, roots)) ==> x in spans || (x.id in Missing(spans) && StandIn(x))
    ensures forall p, e :: e in Edges(p, VisitRoots(spans, roots)) ==>
              ChildOf(Links(spans), e.1, e.0) || (e.0 == p && e.1 in roots)
    ensures ContainedSpans(spans) ==> Nested(VisitRoots(spans, roots))
  {
    if roots != [] {
      var r := roots[0];
      assert r in roots && IsRoot(spans, r);
      VisitSpans(spans, r, [r]);
      VisitEdges(spans, r, [r]);
      VisitRootsSpans(spans, roots[1..]);
      var v, vs := Visit(spans, r, [r]), VisitRoots(spans, roots[1..]);
      assert ([v] + vs)[1..] == vs;
      if ContainedSpans(spans) {
        VisitNested(spans, r, [r]);
        NestedAppend([v], vs);
      }
    }
  }

  /** The name of the virtual root is not used by the input. */
  predicate NamesFree(spans: seq<Span>) {
    VIRTUAL_ROOT !in KnownIds(spans) + Parents(spans)
  }

  lemma PreorderIds(ts: seq<Tree>)
    ensures forall y :: y in IdSeq(Preorder(ts)) <==> exists x :: x in Bag(ts) && x.id == y
  {
    PreorderBag(ts);
    IdSeqIds(Preorder(ts));
  }

  lemma {:induction false} IdSeqIds(ss: seq<Span>)
    ensures forall y :: y in IdSeq(ss) <==> exists x :: x in multiset(ss) && x.id == y
  {
    forall x | x in ss
      ensures x.id in IdSeq(ss)
    {
      var i :| 0 <= i < |ss| && ss[i] == x;
      assert IdSeq(ss)[i] == x.id;
    }
  }

  /** `bag` has the rooted spans and a stand-in for each missing parent, and nothing else. */
  ghost predicate ExactNodes(spans: seq<Span>, bag: multiset<Span>) {
    && (forall s :: s in spans ==> (s in bag <==> Rooted(spans, s.id)))
    && (forall m :: m in Missing(spans) ==> exists x :: x in bag && x.id == m)
    && (forall x :: x in bag ==> x in spans || (x.id in Missing(spans) && StandIn(x)))
  }

  lemma ForestExact(spans: seq<Span>, order: seq<string>)
    requires UniqueIds(spans) && Enumerates(order, Missing(spans))
    requires forall r :: r in RootIds(spans) + order ==> IsRoot(spans, r)
    ensures ExactNodes(spans, Bag(VisitRoots(spans, RootIds(spans) + order)))
  {
    var roots := RootIds(spans) + order;
    VisitRootsSpans(spans, roots);
    forall s | s in spans
      ensures s in Bag(VisitRoots(spans, roots)) <==> Rooted(spans, s.id)
    {
      ForestHas(spans, order, s.id);
      if x :| x in Bag(VisitRoots(spans, roots)) && x.id == s.id {
        SameSpan(spans, s, x);
      }
    }
    forall m | m in Missing(spans)
      ensures exists x :: x in Bag(VisitRoots(spans, roots)) && x.id == m
    {
      assert m in roots && Chain(Links(spans), [m]) && Last([m]) == m;
      ForestHas(spans, order, m);
    }
  }

  lemma ForestHas(spans: seq<Span>, order: seq<string>, y: string)
    requires UniqueIds(spans) && Enumerates(order, Missing(spans))
    requires forall r :: r in RootIds(spans) + order ==> IsRoot(spans, r)
    ensures (exists x :: x in Bag(VisitRoots(spans, RootIds(spans) + order)) && x.id == y) <==> Rooted(spans, y)
  {
    var roots := RootIds(spans) + order;
    RootsAreTop(spans, order);
    VisitRootsIds(spans, roots);
    PreorderIds(VisitRoots(spans, roots));
    RootedFromRoots(spans, order, y);
  }

  lemma ForestDistinct(spans: seq<Span>, roots: seq<string>)
    requires UniqueIds(spans) && NoDup(roots) && forall r :: r in roots ==> IsRoot(spans, r)
    ensures DistinctIds(Bag(VisitRoots(spans, roots)))
  {
    VisitRootsIds(spans, roots);
    NoDupDistinct(Preorder(VisitRoots(spans, roots)));
    PreorderBag(VisitRoots(spans, roots));
  }

  lemma SameSpan(spans: seq<Span>, s: Span, x: Span)
    requires UniqueIds(spans) && s in spans && s.id == x.id && (x in spans || x.id in Missing(spans))
    ensures x == s
  {
    var i :| 0 <= i < |spans| && spans[i] == s;
    assert spans[i].id in KnownIds(spans);
    var j :| 0 <= j < |spans| && spans[j] == x;
    assert Links(spans)[i].id == Links(spans)[j].id;
  }

  /** What `from_spans` returns: exactly the spans whose parent chain ends at a null or missing
      parent and one stand-in for each missing parent, each once, plus a virtual root exactly when
      there are several roots. */
  lemma FromSpansExact(spans: seq<Span>, order: seq<string>)
    requires UniqueIds(spans) && Enumerates(order, Missing(spans)) && NamesFree(spans)
    requires BuildTree(spans, order).Ok?
    ensures var t := BuildTree(spans, order).value;
            && DistinctIds(Bag([t]))
            && (if |RootIds(spans) + order| > 1 then
                  && t.span.id == VIRTUAL_ROOT && t.span !in spans && StandIn(t.span)
                  && ExactNodes(spans, Bag(t.kids))
                else ExactNodes(spans, Bag([t])))
  {
    RootsAreTop(spans, order);
    ForestExact(spans, order);
    var t, roots := BuildTree(spans, order).value, RootIds(spans) + order;
    ForestDistinct(spans, roots);
    if |roots| > 1 {
      assert Bag([t]) == multiset{t.span} + Bag(t.kids);
      UnderVirtualRoot(spans, t, Bag(t.kids));
    } else {
      OnlyRoot(spans, order);
    }
  }

  lemma OnlyRoot(spans: seq<Span>, order: seq<string>)
    requires UniqueIds(spans) && Enumerates(order, Missing(spans)) && BuildTree(spans, order).Ok?
    requires forall r :: r in RootIds(spans) + order ==> IsRoot(spans, r)
    requires |RootIds(spans) + order| == 1
    ensures VisitRoots(spans, RootIds(spans) + order) == [BuildTree(spans, order).value]
  {
  }

  lemma UnderVirtualRoot(spans: seq<Span>, t: Tree, bag: multiset<Span>)
    requires NamesFree(spans) && t.span.id == VIRTUAL_ROOT && DistinctIds(bag)
    requires forall x :: x in bag ==> x in spans || x.id in Missing(spans)
    ensures DistinctIds(multiset{t.span} + bag) && t.span !in spans
  {
    forall x | x in spans
      ensures x.id != VIRTUAL_ROOT
    {
      var i :| 0 <= i < |spans| && spans[i] == x;
      assert spans[i].id in KnownIds(spans);
    }
    assert forall x :: x in bag ==> x.id != VIRTUAL_ROOT;
  }

  /** Parent-child pairs of the result are the input's parent links, or lead from the virtual root to
      a root; the virtual root runs from the start of the first root to the end of the last. If recorded
      parents contain their children, so does every node below the root. */
  lemma FromSpansShape(spans: seq<Span>, order: seq<string>)
    requires UniqueIds(spans) && Enumerates(order, Missing(spans))
    requires BuildTree(spans, order).Ok?
    ensures var t, roots := BuildTree(spans, order).value, RootIds(spans) + order;
            && (forall e :: e in TreeEdges(t) ==>
                  ChildOf(Links(spans), e.1, e.0) || (|roots| > 1 && e.0 == VIRTUAL_ROOT && e.1 in roots))
            && (ContainedSpans(spans) ==> Nested(t.kids))
            && (|roots| > 1 ==> |t.kids| == |roots| && SameOrigin(t.span, t.kids[0].span)
                                && t.span.start == t.kids[0].span.start && t.span.end == t.kids[|roots| - 1].span.end)
  {
    RootsAreTop(spans, order);
    var t, roots := BuildTree(spans, order).value, RootIds(spans) + order;
    VisitRootsSpans(spans, roots);
    if |roots| == 1 {
      var r := roots[0];
      assert r in roots;
      assert t == Visit(spans, r, [r]);
      VisitEdges(spans, r, [r]);
      OnlyRoot(spans, order);
    }
  }

  /** `from_spans` fails exactly when no parent chain ends: on no spans, or on cycles only. */
  lemma FromSpansFails(spans: seq<Span>, order: seq<string>)
    requires UniqueIds(spans) && Enumerates(order, Missing(spans))
    ensures BuildTree(spans, order).Ok? <==> exists s :: s in spans && Rooted(spans, s.id)
  {
    var roots := RootIds(spans) + order;
    RootsAreTop(spans, order);
    if s :| s in spans && Rooted(spans, s.id) {
      SomeRoot(spans, order, s.id);
    }
    if roots != [] {
      assert IsRoot(spans, roots[0]) by { assert roots[0] in roots; }
      RootHasSpan(spans, roots[0]);
    }
  }

  lemma SomeRoot(spans: seq<Span>, order: seq<string>, y: string)
    requires UniqueIds(spans) && Enumerates(order, Missing(spans)) && Rooted(spans, y)
    ensures RootIds(spans) + order != []
  {
    var r :| IsRoot(spans, r) && Reaches(Links(spans), r, y);
    RootsComplete(spans, order, r);
  }

  lemma RootHasSpan(spans: seq<Span>, r: string)
    requires IsRoot(spans, r)
    ensures exists s :: s in spans && Rooted(spans, s.id)
  {
    var ls := Links(spans);
    if r in KnownIds(spans) {
      var i :| 0 <= i < |spans| && spans[i].id == r;
      assert Chain(ls, [r]) && Last([r]) == r;
      assert spans[i] in spans && Rooted(spans, spans[i].id);
    } else {
      var i :| 0 <= i < |spans| && spans[i].parentId == Some(r);
      var c := spans[i].id;
      assert ls[i] == Link(Some(c), Some(r));
      assert Chain(ls, [r, c]) && Last([r, c]) == c;
      assert spans[i] in spans && Rooted(spans, c);
    }
  }

  /** `v` stands in for the missing parent `m` of the spans `ids`: it spans exactly their hull. */
  ghost predicate IsHull(v: Tree, m: string, ids: seq<string>) {
    && v.span.id == m && StandIn(v.span)
    && v.kids != [] && SameOrigin(v.span, v.kids[0].span)
    && |v.kids| == |ids| && (forall i :: 0 <= i < |ids| ==> v.kids[i].span.id == ids[i])
    && AllInside(v.kids, v.span)
    && (exists i :: 0 <= i < |v.kids| && v.kids[i].span.start == v.span.start)
    && (exists i :: 0 <= i < |v.kids| && v.kids[i].span.end == v.span.end)
  }

  lemma {:induction false} VisitAllNames(spans: seq<Span>, node: string, ids: seq<string>, path: seq<string>)
    requires Visitable(spans, node, path) && |ids| <= |spans|
    requires forall c :: c in ids ==> ChildOf(Links(spans), c, node)
    ensures forall i :: 0 <= i < |ids| ==> VisitAll(spans, node, ids, path)[i].span.id == ids[i]
  {
    if ids != [] {
      assert ChildOf(Links(spans), ids[0], node);
      ChildKnown(spans, ids[0], node);
      VisitParts(spans, ids[0], path + [ids[0]]);
      VisitAllNames(spans, node, ids[1..], path);
    }
  }

  lemma VisitMissing(spans: seq<Span>, m: string)
    requires UniqueIds(spans) && m in Missing(spans) && IsRoot(spans, m)
    ensures IsHull(Visit(spans, m, [m]), m, ChildIds(spans, m))
  {
    ByIdExact(spans);
    ChildIdsExact(spans, m);
    VisitParts(spans, m, [m]);
    VisitAllNames(spans, m, ChildIds(spans, m), [m]);
    HullExact(Visit(spans, m, [m]).kids);
  }

  lemma {:induction false} VisitRootsAt(spans: seq<Span>, roots: seq<string>, k: nat)
    requires UniqueIds(spans) && (forall r :: r in roots ==> IsRoot(spans, r)) && k < |roots|
    ensures roots[k] in roots && VisitRoots(spans, roots)[k] == Visit(spans, roots[k], [roots[k]])
  {
    if k > 0 {
      VisitRootsAt(spans, roots[1..], k - 1);
    } else {
      assert roots[0] in roots;
    }
  }

  /** Where there is a missing parent, `from_spans` succeeds, and in the tree it returns the stand-in is
      the root or directly below the virtual root. Its children are the spans that name it, in order, and
      it spans exactly their hull. */
  lemma MissingHull(spans: seq<Span>, order: seq<string>, m: string)
    requires UniqueIds(spans) && Enumerates(order, Missing(spans)) && m in Missing(spans)
    ensures BuildTree(spans, order).Ok?
    ensures var t := BuildTree(spans, order).value;
            exists v :: v in (if |RootIds(spans) + order| > 1 then t.kids else [t]) && IsHull(v, m, ChildIds(spans, m))
  {
    var roots := RootIds(spans) + order;
    RootsAreTop(spans, order);
    assert m in roots;
    var k :| 0 <= k < |roots| && roots[k] == m;
    VisitRootsAt(spans, roots, k);
    VisitMissing(spans, m);
    assert VisitRoots(spans, roots)[k] in VisitRoots(spans, roots);
    if |roots| == 1 {
      OnlyRoot(spans, order);
    }
  }

  // ---- Order ----

  /** Every node of `ts` has its children in the order of `ids`. */
  ghost predicate InInputOrder(ts: seq<Tree>, ids: seq<string>) {
    ts == [] ||
    (Sublist(KidIds(ts[0].kids), ids) && InInputOrder(ts[0].kids, ids) && InInputOrder(ts[1..], ids))
  }

  lemma {:induction false} ChildIdsInOrder(spans: seq<Span>, p: string)
    ensures Sublist(ChildIds(spans, p), IdSeq(spans))
  {
    if spans == [] {
      SublistNone(IdSeq(spans));
    } else {
      ChildIdsInOrder(spans[1..], p);
      SublistCons(spans[0].id, ChildIds(spans[1..], p), IdSeq(spans[1..]));
      assert IdSeq(spans) == [spans[0].id] + IdSeq(spans[1..]);
      NothingBefore(ChildIds(spans[1..], p));
    }
  }

  lemma {:induction false} RootIdsInOrder(spans: seq<Span>)
    ensures Sublist(RootIds(spans), IdSeq(spans))
  {
    if spans == [] {
      SublistNone(IdSeq(spans));
    } else {
      RootIdsInOrder(spans[1..]);
      SublistCons(spans[0].id, RootIds(spans[1..]), IdSeq(spans[1..]));
      assert IdSeq(spans) == [spans[0].id] + IdSeq(spans[1..]);
      NothingBefore(RootIds(spans[1..]));
    }
  }

  lemma {:induction false} VisitInOrder(spans: seq<Span>, node: string, path: seq<string>)
    requires Visitable(spans, node, path)
    ensures InInputOrder([Visit(spans, node, path)], IdSeq(spans))
    decreases |spans| + 1 - |path|, |spans| + 1
  {
    PathBound(Links(spans), path);
    VisitParts(spans, node, path);
    VisitAllInOrder(spans, node, ChildIds(spans, node), path);
    var v := Visit(spans, node, path);
    assert Sublist(KidIds(v.kids), IdSeq(spans)) by {
      VisitAllNames(spans, node, ChildIds(spans, node), path);
      assert KidIds(v.kids) == ChildIds(spans, node);
      ChildIdsInOrder(spans, node);
    }
    assert [v][1..] == [];
  }

  lemma {:induction false} VisitAllInOrder(spans: seq<Span>, node: string, ids: seq<string>, path: seq<string>)
    requires Visitable(spans, node, path) && |ids| <= |spans|
    requires forall c :: c in ids ==> ChildOf(Links(spans), c, node)
    ensures InInputOrder(VisitAll(spans, node, ids, path), IdSeq(spans))
    decreases |spans| + 1 - |path|, |ids|
  {
    if ids != [] {
      assert ChildOf(Links(spans), ids[0], node);
      ChildKnown(spans, ids[0], node);
      PathBound(Links(spans), path + [ids[0]]);
      VisitInOrder(spans, ids[0], path + [ids[0]]);
      VisitAllInOrder(spans, node, ids[1..], path);
      InOrderHead(Visit(spans, ids[0], path + [ids[0]]), VisitAll(spans, node, ids[1..], path), IdSeq(spans));
    }
  }

  lemma InOrderHead(v: Tree, vs: seq<Tree>, ids: seq<string>)
    requires InInputOrder([v], ids) && InInputOrder(vs, ids)
    ensures InInputOrder([v] + vs, ids)
  {
    assert ([v] + vs)[1..] == vs;
  }

  lemma {:induction false} VisitRootsInOrder(spans: seq<Span>, roots: seq<string>)
    requires UniqueIds(spans) && forall r :: r in roots ==> IsRoot(spans, r)
    ensures InInputOrder(VisitRoots(spans, roots), IdSeq(spans)) && KidIds(VisitRoots(spans, roots)) == roots
  {
    if roots != [] {
      var r, rest := roots[0], roots[1..];
      assert r in roots && IsRoot(spans, r);
      VisitInOrder(spans, r, [r]);
      VisitSpans(spans, r, [r]);
      VisitRootsInOrder(spans, rest);
      InOrderHead(Visit(spans, r, [r]), VisitRoots(spans, rest), IdSeq(spans));
      assert KidIds([Visit(spans, r, [r])] + VisitRoots(spans, rest)) == [r] + KidIds(VisitRoots(spans, rest));
    }
  }

  /** The children of every node below the virtual root come in the order of the input; the roots are the
      parentless spans in that order and then the missing parents. */
  lemma FromSpansOrder(spans: seq<Span>, order: seq<string>)
    requires UniqueIds(spans) && Enumerates(order, Missing(spans)) && BuildTree(spans, order).Ok?
    ensures var t := BuildTree(spans, order).value;
            exists found :: Sublist(found, IdSeq(spans)) &&
              if |found + order| > 1 then KidIds(t.kids) == found + order && InInputOrder(t.kids, IdSeq(spans))
              else [t.span.id] == found + order && InInputOrder([t], IdSeq(spans))
  {
    var roots := RootIds(spans) + order;
    RootsAreTop(spans, order);
    RootIdsInOrder(spans);
    VisitRootsInOrder(spans, roots);
    if |roots| == 1 {
      OnlyRoot(spans, order);
      assert KidIds([BuildTree(spans, order).value]) == [BuildTree(spans, order).value.span.id];
    }
  }

  // ---- Cycles ----

  /** Going from a span to its recorded parent always lowers `depth`. */
  ghost predicate Falls(spans: seq<Span>, depth: map<string, nat>) {
    forall s :: s in spans ==>
      && s.id in depth
      && (s.parentId.Some? && s.parentId.value in KnownIds(spans) ==>
            s.parentId.value in depth && depth[s.parentId.value] < depth[s.id])
  }

  ghost predicate Acyclic(spans: seq<Span>) {
    exists depth :: Falls(spans, depth)
  }

  lemma ParentLink(spans: seq<Span>, s: Span)
    requires UniqueIds(spans) && s in spans
    ensures Link(Some(s.id), s.parentId) in Links(spans) && s.id in KnownIds(spans)
    ensures s.parentId.None? ==> Top(Links(spans), s.id)
  {
    var ls := Links(spans);
    var i :| 0 <= i < |spans| && spans[i] == s;
    assert ls[i] == Link(Some(s.id), s.parentId);
    if s.parentId.None? {
      forall p
        ensures !ChildOf(ls, s.id, p)
      {
      }
    }
  }

  lemma {:induction false} FallsRooted(spans: seq<Span>, depth: map<string, nat>, s: Span)
    requires UniqueIds(spans) && Falls(spans, depth) && s in spans
    ensures Rooted(spans, s.id)
    decreases depth[s.id]
  {
    var ls := Links(spans);
    ParentLink(spans, s);
    if s.parentId.None? {
      assert Chain(ls, [s.id]) && Last([s.id]) == s.id;
      assert IsRoot(spans, s.id) && Reaches(ls, s.id, s.id);
    } else {
      var p := s.parentId.value;
      if p in KnownIds(spans) {
        var j :| 0 <= j < |spans| && spans[j].id == p;
        FallsRooted(spans, depth, spans[j]);
        var r :| IsRoot(spans, r) && Reaches(ls, r, p);
        var q :| Chain(ls, q) && q[0] == r && Last(q) == p;
        ChainExtend(ls, q, s.id);
        assert Last(q + [s.id]) == s.id;
      } else {
        MissingIsRoot(spans, s.id, p);
        assert Chain(ls, [p, s.id]) && Last([p, s.id]) == s.id;
      }
    }
  }

  lemma MissingIsRoot(spans: seq<Span>, c: string, p: string)
    requires ChildOf(Links(spans), c, p) && p !in KnownIds(spans)
    ensures IsRoot(spans, p)
  {
    ChildKnown(spans, c, p);
    if x :| ChildOf(Links(spans), p, x) {
      ChildKnown(spans, p, x);
    }
  }

  ghost predicate DownTo(spans: seq<Span>, path: seq<string>, y: string) {
    FromTop(Links(spans), path) && Last(path) == y
  }

  /** The path from the top to `y`, if there is one. */
  ghost function TopPath(spans: seq<Span>, y: string): (path: seq<string>)
    ensures (exists q :: DownTo(spans, q, y)) ==> DownTo(spans, path, y)
  {
    if q :| DownTo(spans, q, y) then q else []
  }

  ghost function ChainLength(spans: seq<Span>, y: string): nat {
    |TopPath(spans, y)|
  }

  lemma ChainLengthIs(spans: seq<Span>, path: seq<string>, y: string)
    requires UniqueIds(spans) && DownTo(spans, path, y)
    ensures ChainLength(spans, y) == |path|
  {
    PathUnique(Links(spans), path, TopPath(spans, y));
  }

  /** A child is one further from the top than its parent. */
  lemma ChildIsLonger(spans: seq<Span>, c: string, p: string)
    requires UniqueIds(spans) && ChildOf(Links(spans), c, p) && Rooted(spans, p)
    ensures ChainLength(spans, p) < ChainLength(spans, c)
  {
    var ls := Links(spans);
    var r :| IsRoot(spans, r) && Reaches(ls, r, p);
    var q :| Chain(ls, q) && q[0] == r && Last(q) == p;
    ChainExtend(ls, q, c);
    ChainLengthIs(spans, q, p);
    ChainLengthIs(spans, q + [c], c);
  }

  /** Every span's parent chain ends exactly when the parent links form no cycle. */
  lemma RootedIffAcyclic(spans: seq<Span>)
    requires UniqueIds(spans)
    ensures (forall s :: s in spans ==> Rooted(spans, s.id)) <==> Acyclic(spans)
  {
    if depth :| Falls(spans, depth) {
      forall s | s in spans
        ensures Rooted(spans, s.id)
      {
        FallsRooted(spans, depth, s);
      }
    } else if forall s :: s in spans ==> Rooted(spans, s.id) {
      var depth := map id | id in KnownIds(spans) :: ChainLength(spans, id);
      forall s | s in spans
        ensures s.id in depth
        ensures s.parentId.Some? && s.parentId.value in KnownIds(spans) ==> depth[s.parentId.value] < depth[s.id]
      {
        ParentLink(spans, s);
        if s.parentId.Some? && s.parentId.value in KnownIds(spans) {
          var j :| 0 <= j < |spans| && spans[j].id == s.parentId.value;
          assert Rooted(spans, spans[j].id);
          ChildIsLonger(spans, s.id, s.parentId.value);
        }
      }
      assert Falls(spans, depth);
    }
  }

  // ---- The method ----

  lemma {:induction false} ChildIdsSnoc(spans: seq<Span>, x: Span, p: string)
    ensures ChildIds(spans + [x], p) == ChildIds(spans, p) + (if x.parentId == Some(p) then [x.id] else [])
  {
    if spans == [] {
      assert spans + [x] == [x];
    } else {
      assert (spans + [x])[1..] == spans[1..] + [x];
      ChildIdsSnoc(spans[1..], x, p);
    }
  }

  lemma {:induction false} RootIdsSnoc(spans: seq<Span>, x: Span)
    ensures RootIds(spans + [x]) == RootIds(spans) + (if x.parentId.None? then [x.id] else [])
  {
    if spans == [] {
      assert spans + [x] == [x];
    } else {
      assert (spans + [x])[1..] == spans[1..] + [x];
      RootIdsSnoc(spans[1..], x);
    }
  }

  /** The loop over the spans: the children of every parent, and the spans without one. */
  method IndexSpans(spans: seq<Span>) returns (graph: map<string, seq<string>>, rootIds: seq<string>)
    ensures graph == ForwardGraph(spans) && rootIds == RootIds(spans)
  {
    graph, rootIds := map[], [];
    for i := 0 to |spans|
      invariant graph == ForwardGraph(spans[..i]) && rootIds == RootIds(spans[..i])
    {
      var x := spans[i];
      assert spans[..i + 1] == spans[..i] + [x];
      GraphSnoc(spans[..i], x);
      RootIdsSnoc(spans[..i], x);
      if x.parentId.None? {
        rootIds := rootIds + [x.id];
      } else {
        var p := x.parentId.value;
        ChildIdsExact(spans[..i], p);
        if p !in graph {
          graph := graph[p := []];
        }
        graph := graph[p := graph[p] + [x.id]];
      }
    }
    assert spans[..|spans|] == spans;
  }

  lemma ParentsSnoc(spans: seq<Span>, x: Span)
    ensures Parents(spans + [x]) == Parents(spans) + (if x.parentId.Some? then {x.parentId.value} else {})
  {
    var all := spans + [x];
    assert all[|spans|] == x && forall i :: 0 <= i < |spans| ==> all[i] == spans[i];
  }

  lemma OneKeySet<V>(g: map<string, V>, h: map<string, V>, p: string, v: V)
    requires h.Keys == g.Keys + {p} && h[p] == v
    requires forall q :: q in g && q != p ==> h[q] == g[q]
    ensures h == g[p := v]
  {
  }

  lemma GraphSnoc(spans: seq<Span>, x: Span)
    ensures ForwardGraph(spans + [x]) ==
            if x.parentId.None? then ForwardGraph(spans)
            else ForwardGraph(spans)[x.parentId.value := ChildIds(spans, x.parentId.value) + [x.id]]
  {
    var g, h := ForwardGraph(spans), ForwardGraph(spans + [x]);
    assert h.Keys == g.Keys + (if x.parentId.Some? then {x.parentId.value} else {}) by {
      ParentsSnoc(spans, x);
    }
    if x.parentId.Some? {
      GraphGrows(spans, x);
      OneKeySet(g, h, x.parentId.value, ChildIds(spans, x.parentId.value) + [x.id]);
    } else {
      forall q | q in g
        ensures h[q] == g[q]
      {
        ChildIdsSnoc(spans, x, q);
      }
      assert g == h;
    }
  }

  lemma GraphGrows(spans: seq<Span>, x: Span)
    requires x.parentId.Some?
    ensures var g, h, p := ForwardGraph(spans), ForwardGraph(spans + [x]), x.parentId.value;
            && p in h && h[p] == ChildIds(spans, p) + [x.id]
            && forall q :: q in g && q != p ==> q in h && h[q] == g[q]
  {
    ParentsSnoc(spans, x);
    ChildIdsSnoc(spans, x, x.parentId.value);
    forall q | q in ForwardGraph(spans) && q != x.parentId.value
      ensures ChildIds(spans + [x], q) == ChildIds(spans, q)
    {
      ChildIdsSnoc(spans, x, q);
    }
  }

  /** `TraceTree.from_spans`. The missing parents come out of a Python set, so their order is given. */
  method FromSpans(spans: seq<Span>, unfoundRoots: seq<string>) returns (r: Result<Tree, string>)
    requires UniqueIds(spans) && Enumerates(unfoundRoots, Missing(spans))
    ensures r == BuildTree(spans, unfoundRoots)
  {
    if spans == [] {
      return Err("No spans provided to create TraceTree.");
    }
    var graph, rootIds := IndexSpans(spans);
    for i := 0 to |unfoundRoots|
      invariant rootIds == RootIds(spans) + unfoundRoots[..i]
    {
      rootIds := rootIds + [unfoundRoots[i]];
    }
    RootsAreTop(spans, unfoundRoots);
    assert unfoundRoots[..|unfoundRoots|] == unfoundRoots;
    if |rootIds| > 1 {
      var rootSpans := VisitEach(spans, rootIds);
      r := Ok(VirtualRoot(rootSpans));
    } else if |rootIds| == 0 {
      r := Err("No root spans found in the trace.");
    } else {
      var rootSpans := VisitEach(spans, rootIds);
      r := Ok(rootSpans[0]);
    }
  }

  method VisitEach(spans: seq<Span>, rootIds: seq<string>) returns (rootSpans: seq<Tree>)
    requires UniqueIds(spans) && forall r :: r in rootIds ==> IsRoot(spans, r)
    ensures rootSpans == VisitRoots(spans, rootIds)
  {
    rootSpans := [];
    for i := 0 to |rootIds|
      invariant rootSpans + VisitRoots(spans, rootIds[i..]) == VisitRoots(spans, rootIds)
    {
      var id, rest := rootIds[i], rootIds[i..];
      assert id in rest && IsRoot(spans, id) && rest[1..] == rootIds[i + 1..];
      rootSpans := rootSpans + [Visit(spans, id, [id])];
    }
  }
}
