/** `LightningSpanExporter`: spans are buffered until the root of their tree arrives, and then leave
    the buffer as one subtree. */
module Exporter {
  import opened Basics
  import opened ParentLinks

  /** A finished span: its context's id, its parent's id, and the rest. */
  datatype OtelSpan = OtelSpan(ctx: Option<int>, parent: Option<int>, body: string)

  /** What becomes of a popped subtree: dropped with a warning, handed to the store, or an exception
      after the store has been given its first `given` spans. */
  datatype Outcome = Skipped | Delivered | Raised(given: nat)

  /** The store and the headers decide the outcome; the exporter does not control it. */
  type Handler = int -> Outcome

  function LinksOf(b: seq<OtelSpan>): seq<Link<int>> {
    seq(|b|, i requires 0 <= i < |b| => Link(b[i].ctx, b[i].parent))
  }

  ghost predicate DistinctSpans(b: seq<OtelSpan>) {
    Distinct(LinksOf(b))
  }

  /** `_get_root_span_ids`. */
  function RootIds(b: seq<OtelSpan>): seq<int> {
    if b == [] then []
    else (if b[0].parent.None? && b[0].ctx.Some? then [b[0].ctx.value] else []) + RootIds(b[1..])
  }

  predicate In(s: OtelSpan, ids: set<int>) {
    s.ctx.Some? && s.ctx.value in ids
  }

  /** The spans with an id in `ids`, in buffer order. */
  function Taken(b: seq<OtelSpan>, ids: set<int>): seq<OtelSpan> {
    if b == [] then [] else if In(b[0], ids) then [b[0]] + Taken(b[1..], ids) else Taken(b[1..], ids)
  }

  /** The other spans, in buffer order. */
  function Left(b: seq<OtelSpan>, ids: set<int>): seq<OtelSpan> {
    if b == [] then [] else if In(b[0], ids) then Left(b[1..], ids) else [b[0]] + Left(b[1..], ids)
  }

  /** Popping splits the buffer into two parts that keep their order. */
  lemma {:induction false} SplitInterleaves(b: seq<OtelSpan>, ids: set<int>)
    ensures Interleaves(Taken(b, ids), Left(b, ids), b)
    ensures forall s :: s in Taken(b, ids) <==> s in b && In(s, ids)
    ensures forall s :: s in Left(b, ids) <==> s in b && !In(s, ids)
  {
    if b != [] {
      SplitInterleaves(b[1..], ids);
      assert b == [b[0]] + b[1..];
      var a, c := Taken(b[1..], ids), Left(b[1..], ids);
      assert ([b[0]] + a)[1..] == a && ([b[0]] + c)[1..] == c;
    }
  }

  /** The ids of the tree below `r`, as the links of `b` have it. */
  function TreeIds(b: seq<OtelSpan>, r: int): set<int>
    requires DistinctSpans(b) && Top(LinksOf(b), r)
  {
    set y | y in Subtree(LinksOf(b), r, [r])
  }

  lemma TreeIdsExact(b: seq<OtelSpan>, r: int)
    requires DistinctSpans(b) && Top(LinksOf(b), r)
    ensures forall y :: y in TreeIds(b, r) <==> Reaches(LinksOf(b), r, y)
  {
    SubtreeExact(LinksOf(b), r);
  }

  /** `r` is the id of a span in `b` without a parent. */
  ghost predicate IsRoot(b: seq<OtelSpan>, r: int) {
    Link(Some(r), None) in LinksOf(b)
  }

  lemma RootIsTop(b: seq<OtelSpan>, r: int)
    requires DistinctSpans(b) && IsRoot(b, r)
    ensures Top(LinksOf(b), r)
  {
    var ls := LinksOf(b);
    var i :| 0 <= i < |ls| && ls[i] == Link(Some(r), None);
    assert forall j :: 0 <= j < |ls| && ls[j].id == Some(r) ==> j == i;
  }

  lemma {:induction false} RootIdsExact(b: seq<OtelSpan>)
    ensures forall r :: r in RootIds(b) <==> IsRoot(b, r)
  {
    if b != [] {
      assert LinksOf(b) == [Link(b[0].ctx, b[0].parent)] + LinksOf(b[1..]);
      RootIdsExact(b[1..]);
    }
  }

  lemma {:induction false} RootIdsNoDup(b: seq<OtelSpan>)
    requires DistinctSpans(b)
    ensures NoDup(RootIds(b))
  {
    if b != [] {
      var ls := LinksOf(b);
      assert LinksOf(b[1..]) == ls[1..];
      RootIdsNoDup(b[1..]);
      RootIdsExact(b[1..]);
      var first := if b[0].parent.None? && b[0].ctx.Some? then [b[0].ctx.value] else [];
      forall x | x in first
        ensures x !in RootIds(b[1..])
      {
        assert ls[0].id == Some(x);
        assert forall j :: 0 <= j < |ls[1..]| ==> ls[1..][j] == ls[j + 1];
      }
      NoDupConcat(first, RootIds(b[1..]));
    }
  }

  // ---- Sub-buffers ----

  lemma {:induction false} LeftLeft(b: seq<OtelSpan>, x: set<int>, y: set<int>)
    ensures Left(Left(b, x), y) == Left(b, x + y)
    ensures x !! y ==> Taken(Left(b, x), y) == Taken(b, y)
  {
    if b != [] {
      LeftLeft(b[1..], x, y);
      var rest := Left(b[1..], x);
      assert ([b[0]] + rest)[1..] == rest;
    }
  }

  lemma {:induction false} SplitAppend(a: seq<OtelSpan>, b: seq<OtelSpan>, ids: set<int>)
    ensures Left(a + b, ids) == Left(a, ids) + Left(b, ids)
    ensures Taken(a + b, ids) == Taken(a, ids) + Taken(b, ids)
  {
    if a == [] {
      assert a + b == b;
    } else {
      assert (a + b)[1..] == a[1..] + b;
      SplitAppend(a[1..], b, ids);
    }
  }

  lemma LinkMember(b: seq<OtelSpan>, l: Link<int>)
    ensures l in LinksOf(b) <==> exists s :: s in b && l == Link(s.ctx, s.parent)
  {
    forall s | s in b
      ensures Link(s.ctx, s.parent) in LinksOf(b)
    {
      var i :| 0 <= i < |b| && b[i] == s;
      assert LinksOf(b)[i] == Link(s.ctx, s.parent);
    }
  }

  /** Removing spans removes the links of those spans, and adds none. */
  lemma LeftChild(b: seq<OtelSpan>, ids: set<int>, c: int, p: int)
    ensures ChildOf(LinksOf(Left(b, ids)), c, p) <==> ChildOf(LinksOf(b), c, p) && c !in ids
  {
    SplitInterleaves(b, ids);
    LinkMember(b, Link(Some(c), Some(p)));
    LinkMember(Left(b, ids), Link(Some(c), Some(p)));
  }

  lemma {:induction false} LeftDistinct(b: seq<OtelSpan>, ids: set<int>)
    requires DistinctSpans(b)
    ensures DistinctSpans(Left(b, ids))
  {
    if b != [] {
      var ls := LinksOf(b);
      assert LinksOf(b[1..]) == ls[1..];
      LeftDistinct(b[1..], ids);
      var rest := Left(b[1..], ids);
      if !In(b[0], ids) {
        forall s | s in rest
          ensures b[0].ctx.Some? ==> s.ctx != b[0].ctx
        {
          SplitInterleaves(b[1..], ids);
          var i :| 0 <= i < |b[1..]| && b[1..][i] == s;
          assert ls[i + 1].id == s.ctx && ls[0].id == b[0].ctx;
        }
        DistinctCons(b[0], rest);
      }
    }
  }

  lemma DistinctCons(x: OtelSpan, b: seq<OtelSpan>)
    requires DistinctSpans(b) && forall s :: s in b ==> x.ctx.Some? ==> s.ctx != x.ctx
    ensures DistinctSpans([x] + b)
  {
    assert LinksOf([x] + b) == [Link(x.ctx, x.parent)] + LinksOf(b);
    assert forall j :: 0 <= j < |b| ==> LinksOf(b)[j].id == b[j].ctx && b[j] in b;
  }

  /** Two buffers that agree on the links inside the tree of `r` have the same tree there. */
  lemma SameTree(b: seq<OtelSpan>, c: seq<OtelSpan>, r: int)
    requires DistinctSpans(b) && DistinctSpans(c) && Top(LinksOf(b), r) && Top(LinksOf(c), r)
    requires forall y, p :: ChildOf(LinksOf(c), y, p) ==> ChildOf(LinksOf(b), y, p)
    requires forall y, p :: ChildOf(LinksOf(b), y, p) && y in TreeIds(b, r) ==> ChildOf(LinksOf(c), y, p)
    ensures TreeIds(c, r) == TreeIds(b, r)
  {
    TreeIdsExact(b, r);
    TreeIdsExact(c, r);
    forall y
      ensures y in TreeIds(c, r) <==> y in TreeIds(b, r)
    {
      if q :| Chain(LinksOf(c), q) && q[0] == r && Last(q) == y {
        ChainWithin(c, b, q);
      }
      if q :| Chain(LinksOf(b), q) && q[0] == r && Last(q) == y {
        ChainKept(b, c, r, q);
      }
    }
  }

  lemma ChainWithin(c: seq<OtelSpan>, b: seq<OtelSpan>, q: seq<int>)
    requires Chain(LinksOf(c), q)
    requires forall y, p :: ChildOf(LinksOf(c), y, p) ==> ChildOf(LinksOf(b), y, p)
    ensures Chain(LinksOf(b), q)
  {
    forall i | 0 < i < |q|
      ensures ChildOf(LinksOf(b), q[i], q[i - 1])
    {
      assert ChildOf(LinksOf(c), q[i], q[i - 1]);
    }
  }

  lemma ChainKept(b: seq<OtelSpan>, c: seq<OtelSpan>, r: int, q: seq<int>)
    requires DistinctSpans(b) && Top(LinksOf(b), r) && Chain(LinksOf(b), q) && q[0] == r
    requires forall y, p :: ChildOf(LinksOf(b), y, p) && y in TreeIds(b, r) ==> ChildOf(LinksOf(c), y, p)
    ensures Chain(LinksOf(c), q)
  {
    TreeIdsExact(b, r);
    forall i | 0 < i < |q|
      ensures ChildOf(LinksOf(c), q[i], q[i - 1])
    {
      ChainPrefix(LinksOf(b), q, i + 1);
      assert q[..i + 1][0] == r && Last(q[..i + 1]) == q[i];
      assert ChildOf(LinksOf(b), q[i], q[i - 1]) && q[i] in TreeIds(b, r);
    }
  }

  /** Removing spans outside a tree leaves the tree as it was. */
  lemma TreeKept(b: seq<OtelSpan>, ids: set<int>, r: int)
    requires DistinctSpans(b) && Top(LinksOf(b), r) && ids !! TreeIds(b, r)
    ensures DistinctSpans(Left(b, ids)) && Top(LinksOf(Left(b, ids)), r)
    ensures TreeIds(Left(b, ids), r) == TreeIds(b, r)
    ensures Taken(Left(b, ids), TreeIds(b, r)) == Taken(b, TreeIds(b, r))
  {
    LeftDistinct(b, ids);
    LeftLeft(b, ids, TreeIds(b, r));
    LeftTop(b, ids, r);
    forall y, p
      ensures ChildOf(LinksOf(Left(b, ids)), y, p) ==> ChildOf(LinksOf(b), y, p)
      ensures ChildOf(LinksOf(b), y, p) && y in TreeIds(b, r) ==> ChildOf(LinksOf(Left(b, ids)), y, p)
    {
      LeftChild(b, ids, y, p);
    }
    SameTree(b, Left(b, ids), r);
  }

  lemma LeftTop(b: seq<OtelSpan>, ids: set<int>, r: int)
    requires Top(LinksOf(b), r)
    ensures Top(LinksOf(Left(b, ids)), r)
  {
    forall p
      ensures !ChildOf(LinksOf(Left(b, ids)), r, p)
    {
      LeftChild(b, ids, r, p);
    }
  }

  lemma TreesDisjoint(b: seq<OtelSpan>, r: int, s: int)
    requires DistinctSpans(b) && Top(LinksOf(b), r) && Top(LinksOf(b), s) && r != s
    ensures TreeIds(b, r) !! TreeIds(b, s)
  {
    TreeIdsExact(b, r);
    TreeIdsExact(b, s);
    forall y | y in TreeIds(b, r)
      ensures y !in TreeIds(b, s)
    {
      if y in TreeIds(b, s) {
        TopsDisjoint(LinksOf(b), r, s, y);
      }
    }
  }

  // ---- One flush ----

  ghost predicate Roots(b: seq<OtelSpan>, roots: seq<int>) {
    NoDup(roots) && forall r :: r in roots ==> IsRoot(b, r)
  }

  /** A handed-over prefix of a subtree. */
  function Given(sub: seq<OtelSpan>, o: Outcome): seq<OtelSpan> {
    match o
    case Skipped => []
    case Delivered => sub
    case Raised(n) => if n <= |sub| then sub[..n] else sub
  }

  /** How many of `roots` a flush gets to: all, or up to the first that raises. */
  function Reached(roots: seq<int>, h: Handler): (n: nat)
    ensures n <= |roots|
  {
    if roots == [] then 0 else if h(roots[0]).Raised? then 1 else 1 + Reached(roots[1..], h)
  }

  predicate Succeeds(roots: seq<int>, h: Handler) {
    forall i :: 0 <= i < |roots| ==> !h(roots[i]).Raised?
  }

  /** The trees of `roots`, together. */
  function Trees(b: seq<OtelSpan>, roots: seq<int>): set<int>
    requires DistinctSpans(b) && Roots(b, roots)
  {
    if roots == [] then {}
    else
      assert roots[0] in roots;
      RootIsTop(b, roots[0]);
      RootsRest(b, roots);
      TreeIds(b, roots[0]) + Trees(b, roots[1..])
  }

  lemma RootsRest(b: seq<OtelSpan>, roots: seq<int>)
    requires Roots(b, roots) && roots != []
    ensures Roots(b, roots[1..]) && roots[0] !in roots[1..] && IsRoot(b, roots[0])
  {
    assert roots[0] in roots;
    assert forall i :: 0 <= i < |roots[1..]| ==> roots[1..][i] == roots[i + 1];
  }

  /** What the store is given, subtree by subtree, for the roots the flush gets to. */
  function Handed(b: seq<OtelSpan>, roots: seq<int>, h: Handler): seq<OtelSpan>
    requires DistinctSpans(b) && Roots(b, roots)
  {
    if roots == [] then []
    else
      RootsRest(b, roots);
      RootIsTop(b, roots[0]);
      Given(Taken(b, TreeIds(b, roots[0])), h(roots[0]))
      + if h(roots[0]).Raised? then [] else Handed(b, roots[1..], h)
  }

  /** The buffer after the roots the flush got to have been popped. */
  function Flushed(b: seq<OtelSpan>, roots: seq<int>, h: Handler): seq<OtelSpan>
    requires DistinctSpans(b) && Roots(b, roots)
  {
    RootsPrefix(b, roots, Reached(roots, h));
    Left(b, Trees(b, roots[..Reached(roots, h)]))
  }

  lemma RootsPrefix(b: seq<OtelSpan>, roots: seq<int>, n: nat)
    requires Roots(b, roots) && n <= |roots|
    ensures Roots(b, roots[..n])
  {
  }

  /** Once the tree of the first root is gone, the others are roots of the same trees as before. */
  lemma RestKept(b: seq<OtelSpan>, roots: seq<int>)
    requires DistinctSpans(b) && Roots(b, roots) && roots != []
    ensures Roots(b, roots[1..]) && Top(LinksOf(b), roots[0])
    ensures DistinctSpans(Left(b, TreeIds(b, roots[0]))) && Roots(Left(b, TreeIds(b, roots[0])), roots[1..])
    ensures forall s :: s in roots[1..] ==>
              && Top(LinksOf(b), s) && Top(LinksOf(Left(b, TreeIds(b, roots[0]))), s)
              && TreeIds(Left(b, TreeIds(b, roots[0])), s) == TreeIds(b, s)
              && Taken(Left(b, TreeIds(b, roots[0])), TreeIds(b, s)) == Taken(b, TreeIds(b, s))
  {
    var r := roots[0];
    RootsRest(b, roots);
    RootIsTop(b, r);
    var ids := TreeIds(b, r);
    var left := Left(b, ids);
    LeftDistinct(b, ids);
    forall s | s in roots[1..]
      ensures Top(LinksOf(b), s) && Top(LinksOf(left), s) && IsRoot(left, s)
      ensures TreeIds(left, s) == TreeIds(b, s) && Taken(left, TreeIds(b, s)) == Taken(b, TreeIds(b, s))
    {
      RootIsTop(b, s);
      TreesDisjoint(b, r, s);
      TreeKept(b, ids, s);
      RootKept(b, ids, s);
    }
  }

  lemma RootKept(b: seq<OtelSpan>, ids: set<int>, s: int)
    requires DistinctSpans(b) && IsRoot(b, s) && Top(LinksOf(b), s) && ids !! TreeIds(b, s)
    ensures IsRoot(Left(b, ids), s)
  {
    assert Chain(LinksOf(b), [s]) && Last([s]) == s;
    TreeIdsExact(b, s);
    LinkMember(b, Link(Some(s), None));
    LinkMember(Left(b, ids), Link(Some(s), None));
    SplitInterleaves(b, ids);
  }

  /** One flush, subtree by subtree, each popped from what the ones before it left. */
  function Flush(b: seq<OtelSpan>, roots: seq<int>, h: Handler): (seq<OtelSpan>, seq<OtelSpan>, bool)
    requires DistinctSpans(b) && Roots(b, roots)
    decreases |roots|
  {
    if roots == [] then (b, [], true)
    else
      var r := roots[0];
      RestKept(b, roots);
      var sub, left := Taken(b, TreeIds(b, r)), Left(b, TreeIds(b, r));
      if sub == [] then Flush(left, roots[1..], h)
      else if h(r).Raised? then (left, Given(sub, h(r)), false)
      else
        var rest := Flush(left, roots[1..], h);
        (rest.0, Given(sub, h(r)) + rest.1, rest.2)
  }

  /** What is given and still to be given comes to the same. */
  ghost predicate SameFlush(g: seq<OtelSpan>, f: (seq<OtelSpan>, seq<OtelSpan>, bool),
                            g0: seq<OtelSpan>, f0: (seq<OtelSpan>, seq<OtelSpan>, bool)) {
    f.0 == f0.0 && g + f.1 == g0 + f0.1 && f.2 == f0.2
  }

  /** The first root's part of a flush. */
  lemma FlushStep(b: seq<OtelSpan>, roots: seq<int>, h: Handler, g: seq<OtelSpan>)
    requires DistinctSpans(b) && Roots(b, roots) && roots != []
    ensures Roots(b, roots[1..]) && Top(LinksOf(b), roots[0])
    ensures var sub, left := Taken(b, TreeIds(b, roots[0])), Left(b, TreeIds(b, roots[0]));
            && DistinctSpans(left) && Roots(left, roots[1..])
            && if sub != [] && h(roots[0]).Raised? then Flush(b, roots, h) == (left, Given(sub, h(roots[0])), false)
               else SameFlush(if sub == [] then g else g + Given(sub, h(roots[0])), Flush(left, roots[1..], h),
                              g, Flush(b, roots, h))
  {
    RestKept(b, roots);
    var sub, left := Taken(b, TreeIds(b, roots[0])), Left(b, TreeIds(b, roots[0]));
    Associates(g, Given(sub, h(roots[0])), Flush(left, roots[1..], h).1);
  }

  /** The same, for a flush under way that has given `g` since `g0` and comes to `whole` in the end. */
  lemma FlushOn(b: seq<OtelSpan>, roots: seq<int>, h: Handler, g: seq<OtelSpan>,
                g0: seq<OtelSpan>, whole: (seq<OtelSpan>, seq<OtelSpan>, bool))
    requires DistinctSpans(b) && Roots(b, roots) && roots != []
    requires SameFlush(g, Flush(b, roots, h), g0, whole)
    ensures Roots(b, roots[1..]) && Top(LinksOf(b), roots[0])
    ensures var sub, left := Taken(b, TreeIds(b, roots[0])), Left(b, TreeIds(b, roots[0]));
            && DistinctSpans(left) && Roots(left, roots[1..])
            && if sub != [] && h(roots[0]).Raised? then
                 SameFlush(g + Given(sub, h(roots[0])), (left, [], false), g0, whole)
               else SameFlush(if sub == [] then g else g + Given(sub, h(roots[0])), Flush(left, roots[1..], h), g0, whole)
  {
    FlushStep(b, roots, h, g);
    NothingBefore(g + Given(Taken(b, TreeIds(b, roots[0])), h(roots[0])));
  }

  lemma {:induction false} TreesAfter(b: seq<OtelSpan>, first: int, roots: seq<int>)
    requires DistinctSpans(b) && Roots(b, [first] + roots)
    ensures Roots(b, roots) && Top(LinksOf(b), first) && DistinctSpans(Left(b, TreeIds(b, first)))
    ensures Roots(Left(b, TreeIds(b, first)), roots)
    ensures Trees(Left(b, TreeIds(b, first)), roots) == Trees(b, roots)
    decreases |roots|
  {
    assert ([first] + roots)[1..] == roots;
    RestKept(b, [first] + roots);
    if roots != [] {
      SkipSecond(b, first, roots);
      TreesAfter(b, first, roots[1..]);
      RootsRest(b, roots);
      assert roots[0] in ([first] + roots)[1..];
    }
  }

  lemma SkipSecond(b: seq<OtelSpan>, first: int, roots: seq<int>)
    requires Roots(b, [first] + roots) && roots != []
    ensures Roots(b, [first] + roots[1..])
  {
    var all, fewer := [first] + roots, [first] + roots[1..];
    assert forall i :: 0 <= i < |fewer| ==> fewer[i] == if i == 0 then all[0] else all[i + 1];
  }

  lemma {:induction false} HandedAfter(b: seq<OtelSpan>, first: int, roots: seq<int>, h: Handler)
    requires DistinctSpans(b) && Roots(b, [first] + roots)
    ensures Roots(b, roots) && Top(LinksOf(b), first) && DistinctSpans(Left(b, TreeIds(b, first)))
    ensures Roots(Left(b, TreeIds(b, first)), roots)
    ensures Handed(Left(b, TreeIds(b, first)), roots, h) == Handed(b, roots, h)
    decreases |roots|
  {
    assert ([first] + roots)[1..] == roots;
    RestKept(b, [first] + roots);
    if roots != [] {
      SkipSecond(b, first, roots);
      HandedAfter(b, first, roots[1..], h);
      RootsRest(b, roots);
      assert roots[0] in ([first] + roots)[1..];
    }
  }

  /** A flush pops exactly the trees, as they were at its start, of the roots it gets to; it reports
      success exactly when none of them raises. */
  lemma {:induction false} FlushExact(b: seq<OtelSpan>, roots: seq<int>, h: Handler)
    requires DistinctSpans(b) && Roots(b, roots)
    ensures Flush(b, roots, h).0 == Flushed(b, roots, h)
    ensures Flush(b, roots, h).1 == Handed(b, roots, h)
    ensures Flush(b, roots, h).2 <==> Succeeds(roots, h)
    decreases |roots|
  {
    if roots == [] {
      LeftNone(b);
    } else {
      var r, rest, n := roots[0], roots[1..], Reached(roots, h);
      assert roots == [r] + rest;
      RestKept(b, roots);
      RootIsPopped(b, r);
      var left := Left(b, TreeIds(b, r));
      RootsPrefix(b, roots, n);
      if h(r).Raised? {
        assert roots[..1][1..] == [];
        assert Trees(b, roots[..1]) == TreeIds(b, r);
      } else {
        FlushExact(left, rest, h);
        HandedAfter(b, r, rest, h);
        var m := Reached(rest, h);
        assert roots[..n] == [r] + rest[..m] && roots[..n][1..] == rest[..m];
        TreesAfter(b, r, rest[..m]);
        LeftLeft(b, TreeIds(b, r), Trees(b, rest[..m]));
        assert forall i :: 0 <= i < |rest| ==> rest[i] == roots[i + 1];
      }
    }
  }

  /** The popped subtree has at least its root. */
  lemma RootIsPopped(b: seq<OtelSpan>, r: int)
    requires DistinctSpans(b) && Top(LinksOf(b), r) && IsRoot(b, r)
    ensures Taken(b, TreeIds(b, r)) != []
  {
    LinkMember(b, Link(Some(r), None));
    var s :| s in b && s.ctx == Some(r);
    assert Chain(LinksOf(b), [r]) && Last([r]) == r;
    TreeIdsExact(b, r);
    SplitInterleaves(b, TreeIds(b, r));
    assert s in Taken(b, TreeIds(b, r));
  }

  lemma {:induction false} LeftNone(b: seq<OtelSpan>)
    ensures Left(b, {}) == b
  {
    if b != [] {
      LeftNone(b[1..]);
    }
  }

  lemma {:induction false} TreesExact(b: seq<OtelSpan>, roots: seq<int>)
    requires DistinctSpans(b) && Roots(b, roots)
    ensures forall y :: y in Trees(b, roots) <==> exists r :: r in roots && Reaches(LinksOf(b), r, y)
  {
    if roots != [] {
      RootsRest(b, roots);
      RootIsTop(b, roots[0]);
      TreeIdsExact(b, roots[0]);
      TreesExact(b, roots[1..]);
      assert forall x :: x in roots <==> x == roots[0] || x in roots[1..];
    }
  }

  /** The chain of ancestors of `s` inside the buffer ends at a root. */
  ghost predicate Complete(b: seq<OtelSpan>, s: OtelSpan) {
    s.ctx.Some? && exists r :: IsRoot(b, r) && Reaches(LinksOf(b), r, s.ctx.value)
  }

  lemma AllRoots(b: seq<OtelSpan>)
    requires DistinctSpans(b)
    ensures Roots(b, RootIds(b))
  {
    RootIdsExact(b);
    RootIdsNoDup(b);
  }

  /** After a successful flush the buffer holds, in order, exactly the spans whose chain of buffered
      ancestors reaches no root. */
  lemma SuccessLeavesIncomplete(b: seq<OtelSpan>, h: Handler)
    requires DistinctSpans(b)
    requires Succeeds(RootIds(b), h)
    ensures Roots(b, RootIds(b))
    ensures var after := Flushed(b, RootIds(b), h);
            && Interleaves(Taken(b, Trees(b, RootIds(b))), after, b)
            && forall s :: s in after <==> s in b && !Complete(b, s)
  {
    AllRoots(b);
    var roots := RootIds(b);
    ReachesAll(roots, h);
    assert roots[..|roots|] == roots;
    var ids, after := Trees(b, roots), Flushed(b, roots, h);
    assert after == Left(b, ids);
    SplitInterleaves(b, ids);
    assert Interleaves(Taken(b, ids), after, b);
    forall s
      ensures s in after <==> s in b && !Complete(b, s)
    {
      InTrees(b, s);
    }
  }

  lemma InTrees(b: seq<OtelSpan>, s: OtelSpan)
    requires DistinctSpans(b)
    ensures Roots(b, RootIds(b))
    ensures In(s, Trees(b, RootIds(b))) <==> Complete(b, s)
  {
    AllRoots(b);
    RootIdsExact(b);
    TreesExact(b, RootIds(b));
    if In(s, Trees(b, RootIds(b))) {
      var r :| r in RootIds(b) && Reaches(LinksOf(b), r, s.ctx.value);
      assert IsRoot(b, r);
    }
    if Complete(b, s) {
      var r :| IsRoot(b, r) && Reaches(LinksOf(b), r, s.ctx.value);
      assert r in RootIds(b);
    }
  }

  lemma {:induction false} ReachesAll(roots: seq<int>, h: Handler)
    requires Succeeds(roots, h)
    ensures Reached(roots, h) == |roots|
  {
    if roots != [] {
      assert forall i :: 0 <= i < |roots[1..]| ==> roots[1..][i] == roots[i + 1];
      ReachesAll(roots[1..], h);
    }
  }

  /** Handing over the subtree of `roots[k]` is the first to raise. */
  ghost predicate RaisesFirst(roots: seq<int>, h: Handler, k: nat) {
    k < |roots| && h(roots[k]).Raised? && forall i :: 0 <= i < k ==> !h(roots[i]).Raised?
  }

  lemma FailureBuffer(b: seq<OtelSpan>, roots: seq<int>, h: Handler, k: nat)
    requires DistinctSpans(b) && Roots(b, roots) && RaisesFirst(roots, h, k)
    ensures Roots(b, roots[..k + 1])
    ensures !Flush(b, roots, h).2 && Flush(b, roots, h).0 == Left(b, Trees(b, roots[..k + 1]))
  {
    FlushExact(b, roots, h);
    FirstRaised(roots, h, k);
    RootsPrefix(b, roots, k + 1);
  }

  /** What a flush gives has, in one piece, the whole tree of every root delivered before any raised. */
  lemma {:induction false} HandedWhole(b: seq<OtelSpan>, roots: seq<int>, h: Handler, j: nat)
    returns (x: seq<OtelSpan>, y: seq<OtelSpan>)
    requires DistinctSpans(b) && Roots(b, roots) && j < |roots| && h(roots[j]).Delivered?
    requires forall i :: 0 <= i < j ==> !h(roots[i]).Raised?
    ensures Top(LinksOf(b), roots[j]) && Handed(b, roots, h) == x + Taken(b, TreeIds(b, roots[j])) + y
  {
    assert roots[j] in roots;
    RootIsTop(b, roots[j]);
    RootsRest(b, roots);
    if j == 0 {
      x, y := [], Handed(b, roots[1..], h);
      assert [] + Taken(b, TreeIds(b, roots[0])) == Taken(b, TreeIds(b, roots[0]));
    } else {
      assert !h(roots[0]).Raised? && roots[1..][j - 1] == roots[j];
      assert forall i :: 0 <= i < j - 1 ==> roots[1..][i] == roots[i + 1];
      x, y := HandedWhole(b, roots[1..], h, j - 1);
      RootIsTop(b, roots[0]);
      var first, tree := Given(Taken(b, TreeIds(b, roots[0])), h(roots[0])), Taken(b, TreeIds(b, roots[j]));
      Associates(first, x + tree, y);
      Associates(first, x, tree);
      x := first + x;
    }
  }

  /** `part` is what the store is given of the tree `sub`: nothing if it is skipped, all of it if it is
      delivered, and if handing it over raises the spans given before that. */
  ghost predicate IsGiven(part: seq<OtelSpan>, sub: seq<OtelSpan>, o: Outcome) {
    match o
    case Skipped => part == []
    case Delivered => part == sub
    case Raised(n) => part <= sub && (|part| == n || (part == sub && n > |sub|))
  }

  /** `parts` are what the store is given of the first roots' trees, up to and including the first that raises. */
  ghost predicate PartsOf(b: seq<OtelSpan>, roots: seq<int>, h: Handler, parts: seq<seq<OtelSpan>>)
    requires DistinctSpans(b)
  {
    && |parts| <= |roots|
    && (forall j :: 0 <= j < |parts| ==>
          Top(LinksOf(b), roots[j]) && IsGiven(parts[j], Taken(b, TreeIds(b, roots[j])), h(roots[j])))
    && (forall j :: 0 <= j < |parts| - 1 ==> !h(roots[j]).Raised?)
    && (|parts| < |roots| ==> parts != [] && h(roots[|parts| - 1]).Raised?)
  }

  lemma PartsCons(b: seq<OtelSpan>, r: int, rest: seq<int>, h: Handler, more: seq<seq<OtelSpan>>)
    requires DistinctSpans(b) && Top(LinksOf(b), r) && !h(r).Raised? && PartsOf(b, rest, h, more)
    ensures PartsOf(b, [r] + rest, h, [Given(Taken(b, TreeIds(b, r)), h(r))] + more)
  {
    var roots, parts := [r] + rest, [Given(Taken(b, TreeIds(b, r)), h(r))] + more;
    assert forall j :: 0 < j < |roots| ==> roots[j] == rest[j - 1];
    assert forall j :: 0 < j < |parts| ==> parts[j] == more[j - 1];
  }

  /** A flush gives the trees one after the other in the order of the roots, each from the buffer as it was at
      the start. */
  lemma {:induction false} HandedParts(b: seq<OtelSpan>, roots: seq<int>, h: Handler)
    returns (parts: seq<seq<OtelSpan>>)
    requires DistinctSpans(b) && Roots(b, roots)
    ensures PartsOf(b, roots, h, parts) && Handed(b, roots, h) == Joined(parts)
  {
    parts := [];
    if roots != [] {
      var r, rest := roots[0], roots[1..];
      RootsRest(b, roots);
      RootIsTop(b, r);
      var first := Given(Taken(b, TreeIds(b, r)), h(r));
      if h(r).Raised? {
        parts := [first];
        assert parts[1..] == [] && first + [] == first;
      } else {
        var more := HandedParts(b, rest, h);
        PartsCons(b, r, rest, h, more);
        parts := [first] + more;
        assert parts[1..] == more && roots == [r] + rest;
      }
    }
  }

  /** `roots` are the ids of the spans at `at`, in order: exactly those without a parent that have an id. */
  ghost predicate RootsAt(b: seq<OtelSpan>, roots: seq<int>, at: seq<nat>) {
    && |at| == |roots|
    && (forall k :: 0 <= k < |at| ==> at[k] < |b| && b[at[k]].parent.None? && b[at[k]].ctx == Some(roots[k]))
    && (forall k, l :: 0 <= k < l < |at| ==> at[k] < at[l])
    && (forall i :: 0 <= i < |b| && b[i].parent.None? && b[i].ctx.Some? ==> i in at)
  }

  function Shifted(at: seq<nat>): seq<nat> {
    seq(|at|, k requires 0 <= k < |at| => at[k] + 1)
  }

  lemma ShiftedHas(at: seq<nat>, i: nat)
    requires i in at
    ensures i + 1 in Shifted(at)
  {
    var k :| 0 <= k < |at| && at[k] == i;
    assert Shifted(at)[k] == i + 1;
  }

  lemma RootsLater(x: OtelSpan, b: seq<OtelSpan>, roots: seq<int>, at: seq<nat>)
    requires RootsAt(b, roots, at) && !(x.parent.None? && x.ctx.Some?)
    ensures RootsAt([x] + b, roots, Shifted(at))
  {
    var all := [x] + b;
    forall i | 0 <= i < |all| && all[i].parent.None? && all[i].ctx.Some?
      ensures i in Shifted(at)
    {
      assert all[i] == b[i - 1];
      ShiftedHas(at, i - 1);
    }
  }

  lemma RootFirst(x: OtelSpan, b: seq<OtelSpan>, roots: seq<int>, at: seq<nat>)
    requires RootsAt(b, roots, at) && x.parent.None? && x.ctx.Some?
    ensures RootsAt([x] + b, [x.ctx.value] + roots, [0] + Shifted(at))
  {
    var all := [x] + b;
    forall i | 0 <= i < |all| && all[i].parent.None? && all[i].ctx.Some?
      ensures i in [0] + Shifted(at)
    {
      if i > 0 {
        assert all[i] == b[i - 1];
        ShiftedHas(at, i - 1);
      }
    }
  }

  lemma {:induction false} RootsInOrder(b: seq<OtelSpan>) returns (at: seq<nat>)
    ensures RootsAt(b, RootIds(b), at)
  {
    at := [];
    if b != [] {
      var later := RootsInOrder(b[1..]);
      assert b == [b[0]] + b[1..];
      if b[0].parent.None? && b[0].ctx.Some? {
        RootFirst(b[0], b[1..], RootIds(b[1..]), later);
        at := [0] + Shifted(later);
      } else {
        RootsLater(b[0], b[1..], RootIds(b[1..]), later);
        at := Shifted(later);
        assert [] + RootIds(b[1..]) == RootIds(b[1..]);
      }
    }
  }

  /** What a flush of the buffer gives the store: the trees of its parentless spans, in buffer order. */
  lemma FlushGives(b: seq<OtelSpan>, h: Handler) returns (roots: seq<int>, at: seq<nat>, parts: seq<seq<OtelSpan>>)
    requires DistinctSpans(b)
    ensures roots == RootIds(b) && Roots(b, roots) && RootsAt(b, roots, at)
    ensures Flush(b, roots, h).1 == Joined(parts) && PartsOf(b, roots, h, parts)
  {
    roots := RootIds(b);
    AllRoots(b);
    at := RootsInOrder(b);
    parts := HandedParts(b, roots, h);
    FlushExact(b, roots, h);
  }

  /** `s` was dealt with: its tree is that of a root before `k`, and was handed over unless it was to
      be skipped. */
  ghost predicate DealtWith(b: seq<OtelSpan>, roots: seq<int>, h: Handler, k: nat, s: OtelSpan, given: seq<OtelSpan>)
    requires DistinctSpans(b) && Roots(b, roots) && k <= |roots|
  {
    exists j :: 0 <= j < k && Top(LinksOf(b), roots[j]) && In(s, TreeIds(b, roots[j]))
                && (h(roots[j]).Skipped? || s in given)
  }

  /** If handing over the subtree of `roots[k]` raises, the export fails, and only spans of that one
      subtree leave the buffer without having been dealt with. */
  lemma FailureLosesOneSubtree(b: seq<OtelSpan>, roots: seq<int>, h: Handler, k: nat)
    requires DistinctSpans(b) && Roots(b, roots) && RaisesFirst(roots, h, k)
    ensures !Flush(b, roots, h).2 && Top(LinksOf(b), roots[k])
    ensures forall s :: s in b && s !in Flush(b, roots, h).0 ==>
              In(s, TreeIds(b, roots[k])) || DealtWith(b, roots, h, k, s, Flush(b, roots, h).1)
  {
    FailureBuffer(b, roots, h, k);
    FlushExact(b, roots, h);
    assert roots[k] in roots;
    RootIsTop(b, roots[k]);
    var ids := Trees(b, roots[..k + 1]);
    SplitInterleaves(b, ids);
    forall s | s in b && s !in Left(b, ids)
      ensures In(s, TreeIds(b, roots[k])) || DealtWith(b, roots, h, k, s, Handed(b, roots, h))
    {
      var j := TreeOf(b, roots[..k + 1], s.ctx.value);
      if j < k {
        EarlierIsDealtWith(b, roots, h, k, s, j);
      }
    }
  }

  lemma EarlierIsDealtWith(b: seq<OtelSpan>, roots: seq<int>, h: Handler, k: nat, s: OtelSpan, j: nat)
    requires DistinctSpans(b) && Roots(b, roots) && RaisesFirst(roots, h, k) && j < k && s in b
    requires Top(LinksOf(b), roots[j]) && In(s, TreeIds(b, roots[j]))
    ensures DealtWith(b, roots, h, k, s, Handed(b, roots, h))
  {
    SplitInterleaves(b, TreeIds(b, roots[j]));
    if h(roots[j]).Delivered? {
      var x, y := HandedWhole(b, roots, h, j);
    }
  }

  lemma TreeOf(b: seq<OtelSpan>, roots: seq<int>, y: int) returns (j: nat)
    requires DistinctSpans(b) && Roots(b, roots) && y in Trees(b, roots)
    ensures j < |roots| && Top(LinksOf(b), roots[j]) && y in TreeIds(b, roots[j])
  {
    TreesExact(b, roots);
    var r :| r in roots && Reaches(LinksOf(b), r, y);
    j :| 0 <= j < |roots| && roots[j] == r;
    RootIsTop(b, r);
    TreeIdsExact(b, r);
  }

  /** Every root not yet reached keeps its whole tree in the buffer, in order. */
  lemma FailureKeepsTheRest(b: seq<OtelSpan>, roots: seq<int>, h: Handler, k: nat, j: nat)
    requires DistinctSpans(b) && Roots(b, roots) && RaisesFirst(roots, h, k) && k < j < |roots|
    ensures Top(LinksOf(b), roots[j])
    ensures Taken(Flush(b, roots, h).0, TreeIds(b, roots[j])) == Taken(b, TreeIds(b, roots[j]))
  {
    FailureBuffer(b, roots, h, k);
    assert roots[j] in roots;
    RootIsTop(b, roots[j]);
    LaterApart(b, roots, k, j);
    LeftLeft(b, Trees(b, roots[..k + 1]), TreeIds(b, roots[j]));
  }

  lemma LaterApart(b: seq<OtelSpan>, roots: seq<int>, k: nat, j: nat)
    requires DistinctSpans(b) && Roots(b, roots) && k < j < |roots| && Top(LinksOf(b), roots[j])
    ensures Roots(b, roots[..k + 1]) && Trees(b, roots[..k + 1]) !! TreeIds(b, roots[j])
  {
    RootsPrefix(b, roots, k + 1);
    TreesExact(b, roots[..k + 1]);
    TreeIdsExact(b, roots[j]);
    forall y | y in Trees(b, roots[..k + 1])
      ensures y !in TreeIds(b, roots[j])
    {
      var r :| r in roots[..k + 1] && Reaches(LinksOf(b), r, y);
      RootIsTop(b, r);
      if y in TreeIds(b, roots[j]) {
        TopsDisjoint(LinksOf(b), r, roots[j], y);
      }
    }
  }

  lemma {:induction false} FirstRaised(roots: seq<int>, h: Handler, k: nat)
    requires RaisesFirst(roots, h, k)
    ensures Reached(roots, h) == k + 1
  {
    if k > 0 {
      assert !h(roots[0]).Raised?;
      assert forall i :: 0 <= i < |roots[1..]| ==> roots[1..][i] == roots[i + 1];
      FirstRaised(roots[1..], h, k - 1);
    }
  }

  // ---- The exporter ----

  class LightningSpanExporter {
    var buffer: seq<OtelSpan>
    /** What the store has been given, in order. */
    var given: seq<OtelSpan>

    constructor ()
      ensures buffer == [] && given == []
    {
      buffer, given := [], [];
    }

    /** Removes and returns the tree below a root. */
    method PopSubtrees(root: int) returns (subtree: seq<OtelSpan>)
      requires DistinctSpans(buffer) && Top(LinksOf(buffer), root)
      modifies this`buffer
      ensures subtree == Taken(old(buffer), old(TreeIds(buffer, root)))
      ensures buffer == Left(old(buffer), old(TreeIds(buffer, root)))
    {
      var ids := TreeIds(buffer, root);
      var newBuffer: seq<OtelSpan> := [];
      subtree := [];
      for i := 0 to |buffer|
        invariant buffer == old(buffer)
        invariant subtree + Taken(buffer[i..], ids) == Taken(buffer, ids)
        invariant newBuffer + Left(buffer[i..], ids) == Left(buffer, ids)
      {
        var span := buffer[i];
        assert buffer[i..][0] == span && buffer[i..][1..] == buffer[i + 1..];
        if span.ctx.Some? && span.ctx.value in ids {
          subtree := subtree + [span];
        } else {
          newBuffer := newBuffer + [span];
        }
      }
      buffer := newBuffer;
    }

    /** `_maybe_flush`. The roots are those of the buffer at the start: popping replaces the buffer
        and leaves the list being iterated alone. */
    method MaybeFlush(h: Handler) returns (ok: bool)
      requires DistinctSpans(buffer)
      modifies this
      ensures Roots(old(buffer), RootIds(old(buffer)))
      ensures var f := Flush(old(buffer), RootIds(old(buffer)), h);
              buffer == f.0 && given == old(given) + f.1 && ok == f.2
    {
      AllRoots(buffer);
      var roots := RootIds(buffer);
      ghost var whole := Flush(buffer, roots, h);
      ok := true;
      for i := 0 to |roots|
        invariant ok && DistinctSpans(buffer) && Roots(buffer, roots[i..])
        invariant SameFlush(given, Flush(buffer, roots[i..], h), old(given), whole)
      {
        assert roots[i..][0] == roots[i] && roots[i..][1..] == roots[i + 1..];
        FlushOn(buffer, roots[i..], h, given, old(given), whole);
        var subtree := PopSubtrees(roots[i]);
        if subtree == [] {
          continue;
        }
        given := given + Given(subtree, h(roots[i]));
        if h(roots[i]).Raised? {
          return false;
        }
      }
    }

    /** `export`: appends, then flushes; an exception is reported as failure. */
    method Export(spans: seq<OtelSpan>, h: Handler) returns (ok: bool)
      requires DistinctSpans(buffer + spans)
      modifies this
      ensures Roots(old(buffer) + spans, RootIds(old(buffer) + spans))
      ensures var f := Flush(old(buffer) + spans, RootIds(old(buffer) + spans), h);
              buffer == f.0 && given == old(given) + f.1 && ok == f.2
    {
      for i := 0 to |spans|
        invariant buffer == old(buffer) + spans[..i] && given == old(given)
      {
        buffer := buffer + [spans[i]];
      }
      assert spans[..|spans|] == spans;
      ok := MaybeFlush(h);
    }
  }
}
