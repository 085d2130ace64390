/** Whole runs of the exporter: any sequence of `export` calls, succeeding or failing. */
module ExporterRuns {
  import opened Basics
  import opened ParentLinks
  import opened Exporter

  /** One call of `export`. */
  datatype Batch = Batch(spans: seq<OtelSpan>, handler: Handler)

  /** Everything exported in a run, in order. */
  function Arrived(run: seq<Batch>): seq<OtelSpan> {
    if run == [] then [] else Arrived(run[..|run| - 1]) + run[|run| - 1].spans
  }

  /** The exporter after a run, with the ids of the spans popped so far. */
  datatype State = State(buffer: seq<OtelSpan>, given: seq<OtelSpan>, gone: set<int>)

  /** The state fits what has arrived: the buffer is what has not been popped, the store got each
      popped span at most as often as it arrived, and spans were popped with their whole chain. */
  ghost predicate Fits(all: seq<OtelSpan>, st: State) {
    && st.buffer == Left(all, st.gone)
    && multiset(st.given) <= multiset(Taken(all, st.gone))
    && RootedIds(all, st.gone)
  }

  ghost predicate RootedIds(all: seq<OtelSpan>, gone: set<int>) {
    forall y :: y in gone ==> RootedId(all, gone, y)
  }

  ghost predicate RootedId(all: seq<OtelSpan>, gone: set<int>, y: int) {
    exists r :: r in gone && IsRoot(all, r) && Reaches(LinksOf(all), r, y)
  }

  /** What `Export` does to the state. */
  ghost function Next(st: State, batch: Batch): State
    requires DistinctSpans(st.buffer + batch.spans)
  {
    var b := st.buffer + batch.spans;
    AllRoots(b);
    var roots := RootIds(b);
    RootsPrefix(b, roots, Reached(roots, batch.handler));
    var f := Flush(b, roots, batch.handler);
    State(f.0, st.given + f.1, st.gone + Trees(b, roots[..Reached(roots, batch.handler)]))
  }

  ghost function After(run: seq<Batch>): (st: State)
    requires DistinctSpans(Arrived(run))
    ensures Fits(Arrived(run), st)
  {
    if run == [] then State([], [], {})
    else
      var front, batch := run[..|run| - 1], run[|run| - 1];
      DistinctFront(Arrived(front), batch.spans);
      var st := After(front);
      Refits(Arrived(front), st, batch.spans);
      NextFits(Arrived(run), st, batch);
      Next(st, batch)
  }

  lemma DistinctFront(a: seq<OtelSpan>, b: seq<OtelSpan>)
    requires DistinctSpans(a + b)
    ensures DistinctSpans(a)
    ensures forall s, t :: s in a && t in b && s.ctx.Some? ==> s.ctx != t.ctx
  {
    assert LinksOf(a) == LinksOf(a + b)[..|a|];
    forall s, t | s in a && t in b && s.ctx.Some?
      ensures s.ctx != t.ctx
    {
      var i :| 0 <= i < |a| && a[i] == s;
      var j :| 0 <= j < |b| && b[j] == t;
      assert LinksOf(a + b)[i].id == s.ctx && LinksOf(a + b)[|a| + j].id == t.ctx;
    }
  }

  /** Links, roots and paths survive when more spans arrive. */
  lemma MoreLinks(a: seq<OtelSpan>, b: seq<OtelSpan>, r: int, y: int)
    ensures IsRoot(a, r) ==> IsRoot(a + b, r)
    ensures Reaches(LinksOf(a), r, y) ==> Reaches(LinksOf(a + b), r, y)
  {
    assert LinksOf(a + b) == LinksOf(a) + LinksOf(b);
    if q :| Chain(LinksOf(a), q) && q[0] == r && Last(q) == y {
      assert Chain(LinksOf(a + b), q);
    }
  }

  /** Every popped id belongs to a span that has arrived. */
  lemma GoneArrived(all: seq<OtelSpan>, gone: set<int>, y: int)
    requires RootedIds(all, gone) && y in gone
    ensures exists s :: s in all && s.ctx == Some(y)
  {
    assert RootedId(all, gone, y);
    var r :| r in gone && IsRoot(all, r) && Reaches(LinksOf(all), r, y);
    ReachedArrived(all, r, y);
  }

  lemma ReachedArrived(all: seq<OtelSpan>, r: int, y: int)
    requires IsRoot(all, r) && Reaches(LinksOf(all), r, y)
    ensures exists s :: s in all && s.ctx == Some(y)
  {
    var q :| Chain(LinksOf(all), q) && q[0] == r && Last(q) == y;
    if |q| == 1 {
      LinkMember(all, Link(Some(r), None));
    } else {
      assert ChildOf(LinksOf(all), q[|q| - 1], q[|q| - 2]);
      LinkMember(all, Link(Some(y), Some(q[|q| - 2])));
    }
  }

  /** Ids popped before are not those of new spans. */
  lemma NewNotGone(all: seq<OtelSpan>, gone: set<int>, spans: seq<OtelSpan>)
    requires DistinctSpans(all + spans) && RootedIds(all, gone)
    ensures forall s :: s in spans ==> !In(s, gone)
  {
    DistinctFront(all, spans);
    forall s | s in spans
      ensures !In(s, gone)
    {
      if In(s, gone) {
        GoneArrived(all, gone, s.ctx.value);
      }
    }
  }

  lemma StillRooted(all: seq<OtelSpan>, gone: set<int>, spans: seq<OtelSpan>)
    requires RootedIds(all, gone)
    ensures RootedIds(all + spans, gone)
  {
    forall y | y in gone
      ensures RootedId(all + spans, gone, y)
    {
      assert RootedId(all, gone, y);
      var r :| r in gone && IsRoot(all, r) && Reaches(LinksOf(all), r, y);
      MoreLinks(all, spans, r, y);
    }
  }

  /** New spans join the buffer behind those still in it. */
  lemma Refits(all: seq<OtelSpan>, st: State, spans: seq<OtelSpan>)
    requires DistinctSpans(all + spans) && Fits(all, st)
    ensures Fits(all + spans, st.(buffer := st.buffer + spans))
    ensures DistinctSpans(st.buffer + spans)
  {
    SplitAppend(all, spans, st.gone);
    NewNotGone(all, st.gone, spans);
    NothingTaken(spans, st.gone);
    StillRooted(all, st.gone, spans);
    LeftDistinct(all + spans, st.gone);
  }

  lemma {:induction false} NothingTaken(b: seq<OtelSpan>, ids: set<int>)
    requires forall s :: s in b ==> !In(s, ids)
    ensures Left(b, ids) == b && Taken(b, ids) == []
  {
    if b != [] {
      NothingTaken(b[1..], ids);
    }
  }

  lemma {:induction false} TakenBoth(b: seq<OtelSpan>, x: set<int>, y: set<int>)
    requires x !! y
    ensures multiset(Taken(b, x + y)) == multiset(Taken(b, x)) + multiset(Taken(b, y))
  {
    if b != [] {
      TakenBoth(b[1..], x, y);
    }
  }

  lemma GivenWithin(sub: seq<OtelSpan>, o: Outcome)
    ensures multiset(Given(sub, o)) <= multiset(sub)
  {
    if o.Raised? && o.given <= |sub| {
      assert sub == sub[..o.given] + sub[o.given..];
    }
  }

  /** The store gets spans of the popped trees only, none more often than it was buffered. */
  lemma {:induction false} HandedWithin(b: seq<OtelSpan>, roots: seq<int>, h: Handler)
    requires DistinctSpans(b) && Roots(b, roots)
    ensures Roots(b, roots[..Reached(roots, h)])
    ensures multiset(Handed(b, roots, h)) <= multiset(Taken(b, Trees(b, roots[..Reached(roots, h)])))
  {
    var n := Reached(roots, h);
    RootsPrefix(b, roots, n);
    if roots != [] {
      var r, rest := roots[0], roots[1..];
      RootsRest(b, roots);
      RootIsTop(b, r);
      GivenWithin(Taken(b, TreeIds(b, r)), h(r));
      RootsPrefix(b, rest, n - 1);
      assert roots[..n][0] == r && roots[..n][1..] == rest[..n - 1];
      FirstApart(b, r, rest[..n - 1]);
      TakenBoth(b, TreeIds(b, r), Trees(b, rest[..n - 1]));
      if !h(r).Raised? {
        HandedWithin(b, rest, h);
        BagSum(Given(Taken(b, TreeIds(b, r)), h(r)), Handed(b, rest, h), Taken(b, TreeIds(b, r)),
               Taken(b, Trees(b, rest[..n - 1])));
      }
    }
  }

  lemma BagSum<T>(a: seq<T>, b: seq<T>, c: seq<T>, d: seq<T>)
    requires multiset(a) <= multiset(c) && multiset(b) <= multiset(d)
    ensures multiset(a + b) <= multiset(c) + multiset(d)
  {
  }

  lemma FirstApart(b: seq<OtelSpan>, r: int, rest: seq<int>)
    requires DistinctSpans(b) && Top(LinksOf(b), r) && Roots(b, rest) && r !in rest
    ensures TreeIds(b, r) !! Trees(b, rest)
  {
    TreesExact(b, rest);
    TreeIdsExact(b, r);
    forall y | y in TreeIds(b, r)
      ensures y !in Trees(b, rest)
    {
      if y in Trees(b, rest) {
        var s :| s in rest && Reaches(LinksOf(b), s, y);
        RootIsTop(b, s);
        TopsDisjoint(LinksOf(b), r, s, y);
      }
    }
  }

  /** What is rooted in the buffer is rooted in everything that arrived, and was still buffered. */
  lemma TreesRooted(all: seq<OtelSpan>, gone: set<int>, roots: seq<int>, y: int)
    requires DistinctSpans(all) && DistinctSpans(Left(all, gone)) && Roots(Left(all, gone), roots)
    requires y in Trees(Left(all, gone), roots)
    ensures y !in gone
    ensures RootedId(all, Trees(Left(all, gone), roots), y)
  {
    var b := Left(all, gone);
    TreesExact(b, roots);
    var r :| r in roots && Reaches(LinksOf(b), r, y);
    assert IsRoot(b, r);
    ReachedArrived(b, r, y);
    SplitInterleaves(all, gone);
    LinkMember(b, Link(Some(r), None));
    LinkMember(all, Link(Some(r), None));
    assert Chain(LinksOf(b), [r]) && Last([r]) == r;
    assert Reaches(LinksOf(b), r, r);
    ReachesBefore(all, gone, r, y);
  }

  lemma ReachesBefore(all: seq<OtelSpan>, gone: set<int>, r: int, y: int)
    requires Reaches(LinksOf(Left(all, gone)), r, y)
    ensures Reaches(LinksOf(all), r, y)
  {
    var q :| Chain(LinksOf(Left(all, gone)), q) && q[0] == r && Last(q) == y;
    forall i | 0 < i < |q|
      ensures ChildOf(LinksOf(all), q[i], q[i - 1])
    {
      LeftChild(all, gone, q[i], q[i - 1]);
    }
    assert Chain(LinksOf(all), q);
  }

  lemma BothRooted(all: seq<OtelSpan>, gone: set<int>, roots: seq<int>)
    requires DistinctSpans(all) && DistinctSpans(Left(all, gone))
    requires Roots(Left(all, gone), roots) && RootedIds(all, gone)
    ensures gone !! Trees(Left(all, gone), roots)
    ensures RootedIds(all, gone + Trees(Left(all, gone), roots))
  {
    var ids := Trees(Left(all, gone), roots);
    forall y | y in ids
      ensures y !in gone
    {
      TreesRooted(all, gone, roots, y);
    }
    forall y | y in ids
      ensures RootedId(all, ids, y)
    {
      TreesRooted(all, gone, roots, y);
    }
    forall y | y in gone + ids
      ensures RootedId(all, gone + ids, y)
    {
      assert RootedId(all, gone, y) || RootedId(all, ids, y);
    }
  }

  lemma NextFits(all: seq<OtelSpan>, st: State, batch: Batch)
    requires DistinctSpans(all) && DistinctSpans(st.buffer + batch.spans)
    requires Fits(all, st.(buffer := st.buffer + batch.spans))
    ensures Fits(all, Next(st, batch))
  {
    var b, h := st.buffer + batch.spans, batch.handler;
    AllRoots(b);
    var roots := RootIds(b);
    var n := Reached(roots, h);
    RootsPrefix(b, roots, n);
    var ids := Trees(b, roots[..n]);
    FlushExact(b, roots, h);
    LeftLeft(all, st.gone, ids);
    BothRooted(all, st.gone, roots[..n]);
    HandedWithin(b, roots, h);
    TakenBoth(all, st.gone, ids);
  }

  // ---- The guarantees ----

  lemma {:induction false} SplitBag(b: seq<OtelSpan>, ids: set<int>)
    ensures multiset(Taken(b, ids)) + multiset(Left(b, ids)) == multiset(b)
  {
    if b != [] {
      SplitBag(b[1..], ids);
      assert b == [b[0]] + b[1..];
    }
  }

  lemma {:induction false} OneOfEach(b: seq<OtelSpan>, s: OtelSpan)
    requires DistinctSpans(b) && s.ctx.Some?
    ensures multiset(b)[s] <= 1
  {
    if b != [] {
      assert LinksOf([b[0]] + b[1..]) == [Link(b[0].ctx, b[0].parent)] + LinksOf(b[1..]);
      assert b == [b[0]] + b[1..];
      DistinctFront([b[0]], b[1..]);
      assert LinksOf(b[1..]) == LinksOf(b)[1..];
      OneOfEach(b[1..], s);
      assert s == b[0] ==> s !in b[1..];
    }
  }

  /** Over any run, successful or not, nothing is handed to the store twice, and nothing that was
      handed over is still buffered. */
  lemma HandedOnce(run: seq<Batch>, s: OtelSpan)
    requires DistinctSpans(Arrived(run)) && s.ctx.Some?
    ensures var st := After(run);
            && multiset(st.given) + multiset(st.buffer) <= multiset(Arrived(run))
            && multiset(st.given)[s] + multiset(st.buffer)[s] <= 1
  {
    var st := After(run);
    SplitBag(Arrived(run), st.gone);
    OneOfEach(Arrived(run), s);
  }

  /** Every span of the whole run below `r` has arrived within `arrived`. */
  ghost predicate TreeArrived(all: seq<OtelSpan>, arrived: seq<OtelSpan>, r: int) {
    forall s :: s in all && s.ctx.Some? && Reaches(LinksOf(all), r, s.ctx.value) ==> s in arrived
  }

  /** A tree none of whose spans comes later, and none of which was popped before, is whole in the
      buffer. */
  lemma TreeWhole(arrived: seq<OtelSpan>, later: seq<OtelSpan>, gone: set<int>, r: int)
    requires DistinctSpans(arrived + later) && IsRoot(Left(arrived, gone), r) && RootedIds(arrived, gone)
    requires TreeArrived(arrived + later, arrived, r)
    ensures DistinctSpans(Left(arrived, gone))
    ensures Top(LinksOf(Left(arrived, gone)), r) && Top(LinksOf(arrived + later), r)
    ensures TreeIds(Left(arrived, gone), r) == TreeIds(arrived + later, r)
    ensures var tree := TreeIds(arrived + later, r);
            Taken(Left(arrived, gone), tree) == Taken(arrived + later, tree)
  {
    var all := arrived + later;
    DistinctFront(arrived, later);
    LeftDistinct(arrived, gone);
    RootThroughout(arrived, later, gone, r);
    RootIsTop(arrived, r);
    LaterOutside(arrived, later, r);
    TreeStaysSame(arrived, later, r);
    GoneOutside(arrived, later, gone, r);
    TreeKept(arrived, gone, r);
    SplitAppend(arrived, later, TreeIds(all, r));
    NothingTaken(later, TreeIds(all, r));
  }

  lemma RootThroughout(arrived: seq<OtelSpan>, later: seq<OtelSpan>, gone: set<int>, r: int)
    requires DistinctSpans(arrived + later) && DistinctSpans(Left(arrived, gone)) && IsRoot(Left(arrived, gone), r)
    ensures r !in gone && IsRoot(arrived, r) && IsRoot(arrived + later, r)
    ensures Top(LinksOf(Left(arrived, gone)), r) && Top(LinksOf(arrived + later), r)
  {
    RootIsTop(Left(arrived, gone), r);
    SplitInterleaves(arrived, gone);
    LinkMember(Left(arrived, gone), Link(Some(r), None));
    LinkMember(arrived, Link(Some(r), None));
    MoreLinks(arrived, later, r, r);
    RootIsTop(arrived + later, r);
  }

  lemma LaterOutside(arrived: seq<OtelSpan>, later: seq<OtelSpan>, r: int)
    requires DistinctSpans(arrived + later) && Top(LinksOf(arrived + later), r)
    requires TreeArrived(arrived + later, arrived, r)
    ensures forall s :: s in later ==> !In(s, TreeIds(arrived + later, r))
  {
    DistinctFront(arrived, later);
    TreeIdsExact(arrived + later, r);
    forall s | s in later
      ensures !In(s, TreeIds(arrived + later, r))
    {
      assert s in arrived + later;
      assert s.ctx.Some? && Reaches(LinksOf(arrived + later), r, s.ctx.value) ==> s in arrived;
    }
  }

  /** Spans that come later and lie outside the tree add nothing to it. */
  lemma TreeStaysSame(arrived: seq<OtelSpan>, later: seq<OtelSpan>, r: int)
    requires DistinctSpans(arrived) && DistinctSpans(arrived + later)
    requires Top(LinksOf(arrived), r) && Top(LinksOf(arrived + later), r)
    requires forall s :: s in later ==> !In(s, TreeIds(arrived + later, r))
    ensures TreeIds(arrived, r) == TreeIds(arrived + later, r)
  {
    var all := arrived + later;
    assert LinksOf(all) == LinksOf(arrived) + LinksOf(later);
    forall y, p
      ensures ChildOf(LinksOf(arrived), y, p) ==> ChildOf(LinksOf(all), y, p)
      ensures ChildOf(LinksOf(all), y, p) && y in TreeIds(all, r) ==> ChildOf(LinksOf(arrived), y, p)
    {
      LinkMember(later, Link(Some(y), Some(p)));
    }
    SameTree(all, arrived, r);
  }

  lemma GoneOutside(arrived: seq<OtelSpan>, later: seq<OtelSpan>, gone: set<int>, r: int)
    requires DistinctSpans(arrived) && RootedIds(arrived, gone) && r !in gone
    requires IsRoot(arrived, r) && Top(LinksOf(arrived), r)
    ensures gone !! TreeIds(arrived, r)
  {
    TreeIdsExact(arrived, r);
    forall y | y in gone
      ensures y !in TreeIds(arrived, r)
    {
      assert RootedId(arrived, gone, y);
      var s :| s in gone && IsRoot(arrived, s) && Reaches(LinksOf(arrived), s, y);
      RootIsTop(arrived, s);
      if y in TreeIds(arrived, r) {
        TopsDisjoint(LinksOf(arrived), r, s, y);
      }
    }
  }

  /** If everything below a root arrives no later than the flush that finds the root, that flush pops
      the whole tree at once, in order of arrival. */
  lemma TreePoppedWhole(before: seq<Batch>, batch: Batch, future: seq<OtelSpan>, r: int)
    requires DistinctSpans(Arrived(before + [batch]) + future)
    requires DistinctSpans(Arrived(before))
    requires var b := After(before).buffer + batch.spans; IsRoot(b, r)
    requires TreeArrived(Arrived(before + [batch]) + future, Arrived(before + [batch]), r)
    ensures var b, all := After(before).buffer + batch.spans, Arrived(before + [batch]) + future;
            && DistinctSpans(b) && Top(LinksOf(b), r) && Top(LinksOf(all), r)
            && Taken(b, TreeIds(b, r)) == Taken(all, TreeIds(all, r))
  {
    var st := After(before);
    var run := before + [batch];
    assert run[..|run| - 1] == before;
    var arrived := Arrived(run);
    DistinctFront(arrived, future);
    Refits(Arrived(before), st, batch.spans);
    TreeWhole(arrived, future, st.gone, r);
  }

  /** If moreover its hand-over succeeds and none before it raises, what this flush gives the store has the
      whole tree in one piece. */
  lemma TreeHandedWhole(before: seq<Batch>, batch: Batch, future: seq<OtelSpan>, j: nat)
    returns (x: seq<OtelSpan>, y: seq<OtelSpan>)
    requires DistinctSpans(Arrived(before + [batch]) + future)
    requires DistinctSpans(Arrived(before)) && DistinctSpans(After(before).buffer + batch.spans)
    requires var roots := RootIds(After(before).buffer + batch.spans);
             && j < |roots| && batch.handler(roots[j]).Delivered?
             && (forall i :: 0 <= i < j ==> !batch.handler(roots[i]).Raised?)
             && TreeArrived(Arrived(before + [batch]) + future, Arrived(before + [batch]), roots[j])
    ensures var st, all := After(before), Arrived(before + [batch]) + future;
            var r := RootIds(st.buffer + batch.spans)[j];
            && Top(LinksOf(all), r)
            && Next(st, batch).given == st.given + (x + Taken(all, TreeIds(all, r)) + y)
  {
    var b := After(before).buffer + batch.spans;
    var roots := RootIds(b);
    AllRoots(b);
    assert roots[j] in roots && IsRoot(b, roots[j]);
    TreePoppedWhole(before, batch, future, roots[j]);
    x, y := HandedWhole(b, roots, batch.handler, j);
    FlushExact(b, roots, batch.handler);
  }

  // ---- Running the exporter ----

  lemma {:induction false} ArrivedFront(run: seq<Batch>, n: nat)
    requires n <= |run| && DistinctSpans(Arrived(run))
    ensures DistinctSpans(Arrived(run[..n]))
    decreases |run| - n
  {
    if n < |run| {
      ArrivedFront(run, n + 1);
      assert run[..n + 1][..n] == run[..n];
      DistinctFront(Arrived(run[..n]), run[n].spans);
    } else {
      assert run[..n] == run;
    }
  }

  /** The exporter, driven through a run, is in the state the theorems speak of. */
  method Replay(run: seq<Batch>) returns (exporter: LightningSpanExporter)
    requires DistinctSpans(Arrived(run))
    ensures exporter.buffer == After(run).buffer && exporter.given == After(run).given
  {
    exporter := new LightningSpanExporter();
    assert run[..0] == [];
    for i := 0 to |run|
      invariant fresh(exporter) && DistinctSpans(Arrived(run[..i]))
      invariant exporter.buffer == After(run[..i]).buffer && exporter.given == After(run[..i]).given
    {
      ArrivedFront(run, i + 1);
      assert run[..i + 1][..i] == run[..i];
      Refits(Arrived(run[..i]), After(run[..i]), run[i].spans);
      var ok := exporter.Export(run[i].spans, run[i].handler);
    }
    assert run[..|run|] == run;
  }
}
