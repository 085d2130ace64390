/** Trace spans, the trees built from them, and the depth-first traversal every adapter step uses. A list of
    sibling trees is the basic shape: its traversal, the multiset of its nodes, its parent-child edges and
    the containment of its intervals are all defined by recursion over the first tree's children and the
    remaining trees. */
module Spans {

  import opened Basics

  /** A span as the adapters see it. Times and sequence numbers are always present; `agentName`,
      `reward`, `responseId` and `hasTokens` are what attribute lookup finds on the span. */
  datatype Span = Span(
    id: string,
    parentId: Option<string>,
    rollout: string,
    attempt: string,
    seqId: int,
    trace: string,
    name: string,
    start: int,
    end: int,
    agentName: Option<string>,
    reward: Option<real>,
    responseId: Option<string>,
    hasTokens: bool)

  datatype Tree = Tree(span: Span, kids: seq<Tree>)

  /** Depth-first preorder of a list of sibling trees. */
  function Preorder(ts: seq<Tree>): (out: seq<Span>) {
    if ts == [] then [] else [ts[0].span] + Preorder(ts[0].kids) + Preorder(ts[1..])
  }

  function Traverse(t: Tree): seq<Span> {
    [t.span] + Preorder(t.kids)
  }

  function KidIds(ts: seq<Tree>): seq<string> {
    seq(|ts|, i requires 0 <= i < |ts| => ts[i].span.id)
  }

  /** The nodes of a list of sibling trees, each as often as it occurs. */
  ghost function Bag(ts: seq<Tree>): multiset<Span> {
    if ts == [] then multiset{} else multiset{ts[0].span} + Bag(ts[0].kids) + Bag(ts[1..])
  }

  ghost predicate DistinctIds(m: multiset<Span>) {
    && (forall x :: x in m ==> m[x] == 1)
    && (forall x, y :: x in m && y in m && x.id == y.id ==> x == y)
  }

  function IdSeq(ss: seq<Span>): seq<string> {
    seq(|ss|, i requires 0 <= i < |ss| => ss[i].id)
  }

  lemma {:induction false} NoDupDistinct(ss: seq<Span>)
    requires NoDup(IdSeq(ss))
    ensures DistinctIds(multiset(ss))
  {
    if ss != [] {
      assert IdSeq(ss[1..]) == IdSeq(ss)[1..];
      NoDupDistinct(ss[1..]);
      assert ss == [ss[0]] + ss[1..];
      forall x | x in ss[1..]
        ensures x.id != ss[0].id
      {
        var i :| 0 <= i < |ss[1..]| && ss[1..][i] == x;
        assert IdSeq(ss)[i + 1] == x.id && IdSeq(ss)[0] == ss[0].id;
      }
    }
  }

  lemma DistinctSplit(a: multiset<Span>, b: multiset<Span>)
    requires DistinctIds(a + b)
    ensures DistinctIds(a) && DistinctIds(b)
    ensures forall x, y :: x in a && y in b ==> x.id != y.id
  {
    forall x | x in a || x in b
      ensures a[x] + b[x] == 1
    {
      assert (a + b)[x] == a[x] + b[x];
      assert x in a + b;
    }
    forall x, y | x in a && y in b
      ensures x.id != y.id
    {
      assert x in a + b && y in a + b;
      assert a[x] + b[x] == 1;
    }
    assert forall x :: x in a ==> x in a + b;
    assert forall x :: x in b ==> x in a + b;
  }

  /** Parent-child pairs, by id, of the trees `ts` hanging below the node `parent`. */
  ghost function Edges(parent: string, ts: seq<Tree>): set<(string, string)>
    decreases ts
  {
    if ts == [] then {}
    else {(parent, ts[0].span.id)} + Edges(ts[0].span.id, ts[0].kids) + Edges(parent, ts[1..])
  }

  ghost function TreeEdges(t: Tree): set<(string, string)> {
    Edges(t.span.id, t.kids)
  }

  predicate Inside(inner: Span, outer: Span) {
    outer.start <= inner.start && inner.end <= outer.end
  }

  ghost predicate AllInside(ts: seq<Tree>, outer: Span) {
    forall i :: 0 <= i < |ts| ==> Inside(ts[i].span, outer)
  }

  /** Every node of `ts` other than the top ones lies inside its parent's interval. */
  ghost predicate Nested(ts: seq<Tree>) {
    ts == [] || (AllInside(ts[0].kids, ts[0].span) && Nested(ts[0].kids) && Nested(ts[1..]))
  }

  lemma {:induction false} PreorderBag(ts: seq<Tree>)
    ensures multiset(Preorder(ts)) == Bag(ts)
  {
    if ts != [] {
      PreorderBag(ts[0].kids);
      PreorderBag(ts[1..]);
    }
  }

  lemma {:induction false} BagAppend(a: seq<Tree>, b: seq<Tree>)
    ensures Bag(a + b) == Bag(a) + Bag(b)
  {
    if a == [] {
      assert a + b == b;
    } else {
      assert (a + b)[1..] == a[1..] + b;
      BagAppend(a[1..], b);
    }
  }

  lemma {:induction false} EdgesAppend(p: string, a: seq<Tree>, b: seq<Tree>)
    ensures Edges(p, a + b) == Edges(p, a) + Edges(p, b)
  {
    if a == [] {
      assert a + b == b;
    } else {
      assert (a + b)[1..] == a[1..] + b;
      EdgesAppend(p, a[1..], b);
    }
  }

  lemma {:induction false} NestedAppend(a: seq<Tree>, b: seq<Tree>)
    ensures Nested(a + b) <==> Nested(a) && Nested(b)
  {
    if a == [] {
      assert a + b == b;
    } else {
      assert (a + b)[1..] == a[1..] + b;
      NestedAppend(a[1..], b);
    }
  }

  /** Under containment the interval of a node covers everything below it. */
  lemma {:induction false} NestedInside(ts: seq<Tree>, outer: Span)
    requires AllInside(ts, outer) && Nested(ts)
    ensures forall x :: x in Bag(ts) ==> Inside(x, outer)
  {
    if ts != [] {
      NestedInside(ts[0].kids, ts[0].span);
      NestedInside(ts[1..], outer);
    }
  }

  lemma {:induction false} TopInBag(ts: seq<Tree>, i: nat)
    requires i < |ts|
    ensures ts[i].span in Bag(ts)
  {
    if i > 0 {
      TopInBag(ts[1..], i - 1);
    }
  }

  lemma {:induction false} TopEdge(p: string, ts: seq<Tree>, i: nat)
    requires i < |ts|
    ensures (p, ts[i].span.id) in Edges(p, ts)
  {
    if i > 0 {
      TopEdge(p, ts[1..], i - 1);
    }
  }

  ghost predicate HasId(m: multiset<Span>, id: string) {
    exists x :: x in m && x.id == id
  }

  lemma HasIdHead(ts: seq<Tree>, id: string)
    requires ts != []
    ensures HasId(Bag(ts), id) <==>
            ts[0].span.id == id || HasId(Bag(ts[0].kids), id) || HasId(Bag(ts[1..]), id)
  {
    assert ts[0].span in Bag(ts);
  }

  /** Distinct ids: the first node, the nodes below it and the later trees share none. */
  lemma DistinctParts(ts: seq<Tree>)
    requires ts != [] && DistinctIds(Bag(ts))
    ensures DistinctIds(Bag(ts[0].kids)) && DistinctIds(Bag(ts[1..]))
    ensures !HasId(Bag(ts[0].kids), ts[0].span.id) && !HasId(Bag(ts[1..]), ts[0].span.id)
    ensures forall id :: HasId(Bag(ts[0].kids), id) ==> !HasId(Bag(ts[1..]), id)
  {
    var a, b, c := multiset{ts[0].span}, Bag(ts[0].kids), Bag(ts[1..]);
    DistinctSplit(a + b, c);
    DistinctSplit(a, b);
    assert ts[0].span in a && ts[0].span in a + b;
    assert forall x :: x in b ==> x in a + b;
  }
}
