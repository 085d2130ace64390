/** When first sibling matches as many rewards as possible. */
module FirstSibling {
  import opened Basics
  import opened Spans
  import opened Matching
  import opened RewardMatching

  // ---- Every node's rewards in time order ----

  /** The reward `r` may go to the call `c`: they are children of `n`, the call listed no later and over by
      the reward's start. */
  ghost predicate Slot(n: Tree, calls: set<string>, r: string, c: string) {
    exists i, j :: 0 <= i <= j < |n.kids| && n.kids[i].span.id == c && c in calls
                   && n.kids[j].span.id == r && n.kids[j].span.reward.Some?
                   && n.kids[i].span.end <= n.kids[j].span.start
  }

  ghost predicate Injective(m: map<string, string>) {
    forall r, s :: r in m && s in m && m[r] == m[s] ==> r == s
  }

  /** An assignment of rewards to different calls that are siblings of theirs, by id. */
  ghost predicate SiblingMatching(nodes: seq<Tree>, calls: set<string>, m: map<string, string>) {
    Injective(m) && forall r :: r in m ==> exists k :: 0 <= k < |nodes| && Slot(nodes[k], calls, r, m[r])
  }

  /** The same among the children of one node. */
  ghost predicate Assigns(n: Tree, calls: set<string>, m: map<string, string>) {
    Injective(m) && forall r :: r in m ==> Slot(n, calls, r, m[r])
  }

  /** The node's children have different ids, none of which is in `done`. */
  ghost predicate NewKids(n: Tree, done: set<string>) {
    NoDup(IdSeq(Siblings(n))) && forall id :: id in IdSeq(Siblings(n)) ==> id !in done
  }

  /** The children of all nodes, one node after the other. */
  function AllKids(nodes: seq<Tree>): seq<Span> {
    if nodes == [] then [] else AllKids(nodes[..|nodes| - 1]) + Siblings(nodes[|nodes| - 1])
  }

  ghost predicate InOrder(nodes: seq<Tree>) {
    forall k :: 0 <= k < |nodes| ==> RewardsInOrder(Siblings(nodes[k]))
  }

  /** The rewards matched at the last node, with the positions of its children for their ids. */
  ghost function AtLast(n: Tree, m: map<string, string>): Pairs<string> {
    map j: nat | j < |n.kids| && n.kids[j].span.id in m :: m[n.kids[j].span.id]
  }

  /** The pairs whose reward is a child of `n`. */
  ghost function Here(n: Tree, m: map<string, string>): map<string, string> {
    map r | r in m && r in IdSeq(Siblings(n)) :: m[r]
  }

  lemma AtLastMatches(n: Tree, calls: set<string>, done: set<string>, m: map<string, string>)
    requires NewKids(n, done) && Assigns(n, calls, m)
    ensures IsMatching(EligibleCalls(Siblings(n), calls, done), AtLast(n, m))
  {
    var e, p, ids := EligibleCalls(Siblings(n), calls, done), AtLast(n, m), IdSeq(Siblings(n));
    forall j | j in p
      ensures j in e && p[j] in e[j]
    {
      SlotEligible(n, calls, done, j, m[ids[j]]);
    }
    AtLastInjective(n, m);
  }

  lemma AtLastInjective(n: Tree, m: map<string, string>)
    requires NoDup(IdSeq(Siblings(n))) && Injective(m)
    ensures var p := AtLast(n, m); forall i, j :: i in p && j in p && p[i] == p[j] ==> i == j
  {
    var p, ids := AtLast(n, m), IdSeq(Siblings(n));
    forall i, j | i in p && j in p && p[i] == p[j]
      ensures i == j
    {
      assert ids[i] == ids[j];
    }
  }

  lemma AtLastValues(n: Tree, calls: set<string>, m: map<string, string>)
    requires Assigns(n, calls, m)
    ensures AtLast(n, m).Values == m.Values
  {
    var p := AtLast(n, m);
    forall c | c in m.Values
      ensures c in p.Values
    {
      var r :| r in m && m[r] == c;
      SlotPosition(n, calls, m, r);
    }
  }

  lemma SlotPosition(n: Tree, calls: set<string>, m: map<string, string>, r: string)
    requires r in m && Slot(n, calls, r, m[r])
    ensures m[r] in AtLast(n, m).Values
  {
    var i, j :| 0 <= i <= j < |n.kids| && n.kids[i].span.id == m[r] && n.kids[j].span.id == r;
    assert j in AtLast(n, m) && AtLast(n, m)[j] == m[r];
  }

  lemma AtLastSize(n: Tree, calls: set<string>, done: set<string>, m: map<string, string>)
    requires NewKids(n, done) && Assigns(n, calls, m)
    ensures |AtLast(n, m)| == |m|
  {
    AtLastMatches(n, calls, done, m);
    AtLastValues(n, calls, m);
    ValuesSize(EligibleCalls(Siblings(n), calls, done), AtLast(n, m));
    InjectiveSize(m);
  }

  lemma SlotEligible(n: Tree, calls: set<string>, done: set<string>, j: nat, c: string)
    requires j < |n.kids| && NewKids(n, done) && Slot(n, calls, n.kids[j].span.id, c)
    ensures j in EligibleCalls(Siblings(n), calls, done) && c in EligibleCalls(Siblings(n), calls, done)[j]
  {
    var events, ids := Siblings(n), IdSeq(Siblings(n));
    var i, k :| 0 <= i <= k < |n.kids| && n.kids[i].span.id == c && c in calls
                && n.kids[k].span.id == n.kids[j].span.id && n.kids[k].span.reward.Some?
                && n.kids[i].span.end <= n.kids[k].span.start;
    assert ids[k] == ids[j] && k == j;
    assert ids[i] in ids && events[i].id == c;
  }

  /** What one node adds: a reward for each of its matched calls, all new. */
  lemma NodeAdds(n: Tree, calls: set<string>, acc: Rewards, m: map<string, string>)
    requires NewKids(n, acc.Keys) && Assigns(n, calls, m) && RewardsInOrder(Siblings(n))
    ensures var out := RewardsUpto(Siblings(n), calls, acc, |Siblings(n)|);
            |acc.Keys| + |m| <= |out.Keys| && out.Keys <= acc.Keys + Elements(IdSeq(Siblings(n)))
  {
    var out := RewardsUpto(Siblings(n), calls, acc, |Siblings(n)|);
    KeysGrow(Siblings(n), calls, acc);
    assert |m| <= |PairsUpto(Siblings(n), calls, acc.Keys, |Siblings(n)|)| by {
      AtLastMatches(n, calls, acc.Keys, m);
      AtLastSize(n, calls, acc.Keys, m);
      OrderedIsMaximum(Siblings(n), calls, acc.Keys, AtLast(n, m));
    }
  }

  /** A list of events adds one key for each of its pairs. */
  lemma KeysGrow(events: seq<Span>, calls: set<string>, acc: Rewards)
    ensures var out, p := RewardsUpto(events, calls, acc, |events|), PairsUpto(events, calls, acc.Keys, |events|);
            |out.Keys| == |acc.Keys| + |p| && out.Keys <= acc.Keys + Elements(IdSeq(events))
  {
    var out, p := RewardsUpto(events, calls, acc, |events|), PairsUpto(events, calls, acc.Keys, |events|);
    assert out.Keys == acc.Keys + p.Values by {
      RewardsRecordPairs(events, calls, acc, |events|);
    }
    PairsNew(events, calls, acc.Keys);
    Added(acc.Keys, p.Values, out.Keys);
  }

  lemma Added<T>(a: set<T>, b: set<T>, c: set<T>)
    requires a !! b && c == a + b
    ensures |c| == |a| + |b|
  {
  }

  lemma PairsNew(events: seq<Span>, calls: set<string>, done: set<string>)
    ensures var p := PairsUpto(events, calls, done, |events|);
            p.Values !! done && p.Values <= Elements(IdSeq(events)) && |p.Values| == |p|
  {
    var e, p := EligibleCalls(events, calls, done), PairsUpto(events, calls, done, |events|);
    PairsAreGreedy(events, calls, done);
    GreedyIsMatching(e, p);
    ValuesSize(e, p);
    forall c | c in p.Values
      ensures c !in done && c in IdSeq(events)
    {
      var j :| j in p && p[j] == c;
      assert c in e[j];
      var i :| 0 <= i <= j && events[i].id == c;
      assert IdSeq(events)[i] == c;
    }
  }

  lemma IdsAppend(a: seq<Span>, b: seq<Span>)
    ensures IdSeq(a + b) == IdSeq(a) + IdSeq(b)
  {
  }

  lemma NoDupParts<T>(a: seq<T>, b: seq<T>)
    requires NoDup(a + b)
    ensures NoDup(a) && NoDup(b) && forall x :: x in a ==> x !in b
  {
    var ab := a + b;
    assert forall i :: 0 <= i < |a| ==> ab[i] == a[i];
    assert forall i :: 0 <= i < |b| ==> ab[|a| + i] == b[i];
  }

  /** The children of `n` are not among those of the earlier nodes. */
  ghost predicate KidsApart(front: seq<Tree>, n: Tree) {
    forall x :: x in IdSeq(AllKids(front)) ==> x !in IdSeq(Siblings(n))
  }

  /** The pairs split into those of the earlier nodes and those of the last. */
  lemma SplitMatching(front: seq<Tree>, n: Tree, calls: set<string>, m: map<string, string>)
    requires SiblingMatching(front + [n], calls, m) && KidsApart(front, n)
    ensures SiblingMatching(front, calls, m - Here(n, m).Keys) && Assigns(n, calls, Here(n, m))
    ensures |m| == |m - Here(n, m).Keys| + |Here(n, m)|
  {
    SplitHere(front, n, calls, m);
    SplitRest(front, n, calls, m);
    SplitSize(m, Here(n, m));
  }

  lemma SplitSize(m: map<string, string>, part: map<string, string>)
    requires part.Keys <= m.Keys
    ensures |m| == |m - part.Keys| + |part|
  {
    var rest := m - part.Keys;
    assert m.Keys == rest.Keys + part.Keys;
    Added(rest.Keys, part.Keys, m.Keys);
  }

  lemma SplitHere(front: seq<Tree>, n: Tree, calls: set<string>, m: map<string, string>)
    requires SiblingMatching(front + [n], calls, m) && KidsApart(front, n)
    ensures Assigns(n, calls, Here(n, m))
  {
    forall r | r in Here(n, m)
      ensures Slot(n, calls, r, m[r])
    {
      SlotWhere(front, n, calls, r, m[r]);
    }
  }

  lemma SplitRest(front: seq<Tree>, n: Tree, calls: set<string>, m: map<string, string>)
    requires SiblingMatching(front + [n], calls, m) && KidsApart(front, n)
    ensures SiblingMatching(front, calls, m - Here(n, m).Keys)
  {
    forall r | r in m && r !in Here(n, m)
      ensures exists k :: 0 <= k < |front| && Slot(front[k], calls, r, m[r])
    {
      SlotWhere(front, n, calls, r, m[r]);
    }
  }

  lemma SlotWhere(front: seq<Tree>, n: Tree, calls: set<string>, r: string, c: string)
    requires exists k :: 0 <= k < |front + [n]| && Slot((front + [n])[k], calls, r, c)
    requires KidsApart(front, n)
    ensures if r in IdSeq(Siblings(n)) then Slot(n, calls, r, c)
            else exists k :: 0 <= k < |front| && Slot(front[k], calls, r, c)
  {
    var k :| 0 <= k < |front + [n]| && Slot((front + [n])[k], calls, r, c);
    if k < |front| {
      SlotInKids(front, k, calls, r, c);
      assert Slot(front[k], calls, r, c);
    } else {
      SlotId(n, calls, r, c);
    }
  }

  lemma SlotId(n: Tree, calls: set<string>, r: string, c: string)
    requires Slot(n, calls, r, c)
    ensures r in IdSeq(Siblings(n))
  {
    var i, j :| 0 <= i <= j < |n.kids| && n.kids[i].span.id == c && n.kids[j].span.id == r;
    assert IdSeq(Siblings(n))[j] == r;
  }

  lemma {:induction false} SlotInKids(nodes: seq<Tree>, k: nat, calls: set<string>, r: string, c: string)
    requires k < |nodes| && Slot(nodes[k], calls, r, c)
    ensures r in IdSeq(AllKids(nodes))
  {
    var n := |nodes| - 1;
    IdsAppend(AllKids(nodes[..n]), Siblings(nodes[n]));
    if k < n {
      SlotInKids(nodes[..n], k, calls, r, c);
    } else {
      SlotId(nodes[n], calls, r, c);
    }
  }

  /** No assignment has more pairs than the rewards given, node by node. */
  lemma {:induction false} NodesMaximum(nodes: seq<Tree>, calls: set<string>, m: map<string, string>)
    requires NoDup(IdSeq(AllKids(nodes))) && InOrder(nodes) && SiblingMatching(nodes, calls, m)
    ensures |m| <= |SiblingRewards(nodes, calls, map[]).Keys|
    ensures SiblingRewards(nodes, calls, map[]).Keys <= Elements(IdSeq(AllKids(nodes)))
  {
    if nodes == [] {
      assert m.Keys == {};
    } else {
      var k := |nodes| - 1;
      var front, n := nodes[..k], nodes[k];
      assert nodes == front + [n];
      IdsAppend(AllKids(front), Siblings(n));
      NoDupParts(IdSeq(AllKids(front)), IdSeq(Siblings(n)));
      SplitMatching(front, n, calls, m);
      NodesMaximum(front, calls, m - Here(n, m).Keys);
      NodeAdds(n, calls, SiblingRewards(front, calls, map[]), Here(n, m));
    }
  }

  // ---- From trees to lists of nodes ----

  lemma {:induction false} AllKidsAppend(a: seq<Tree>, b: seq<Tree>)
    ensures AllKids(a + b) == AllKids(a) + AllKids(b)
  {
    if b == [] {
      assert a + b == a;
    } else {
      assert (a + b)[..|a + b| - 1] == a + b[..|b| - 1];
      AllKidsAppend(a, b[..|b| - 1]);
      Associates(AllKids(a), AllKids(b[..|b| - 1]), Siblings(b[|b| - 1]));
    }
  }

  function TopSpans(ts: seq<Tree>): seq<Span> {
    seq(|ts|, i requires 0 <= i < |ts| => ts[i].span)
  }

  /** The children of all nodes are all nodes but the top ones. */
  lemma {:induction false} KidsBag(ts: seq<Tree>)
    ensures multiset(TopSpans(ts)) + multiset(AllKids(Nodes(ts))) == Bag(ts)
    decreases ts
  {
    if ts != [] {
      var t, rest := ts[0], ts[1..];
      KidsBag(t.kids);
      KidsBag(rest);
      AllKidsHead(ts);
      TopSpansHead(ts);
      Regroup([t.span], TopSpans(rest), TopSpans(t.kids), AllKids(Nodes(t.kids)), AllKids(Nodes(rest)));
    }
  }

  lemma {:induction false} TopSpansHead(ts: seq<Tree>)
    requires ts != []
    ensures TopSpans(ts) == [ts[0].span] + TopSpans(ts[1..])
  {
  }

  lemma Regroup<T>(a: seq<T>, b: seq<T>, c: seq<T>, d: seq<T>, e: seq<T>)
    ensures multiset(a + b) + multiset(c + d + e)
            == multiset(a) + (multiset(c) + multiset(d)) + (multiset(b) + multiset(e))
  {
    assert multiset(c + d + e) == multiset(c + d) + multiset(e);
  }

  lemma {:induction false} AllKidsHead(ts: seq<Tree>)
    requires ts != []
    ensures AllKids(Nodes(ts)) == TopSpans(ts[0].kids) + AllKids(Nodes(ts[0].kids)) + AllKids(Nodes(ts[1..]))
  {
    assert AllKids([ts[0]]) == Siblings(ts[0]) == TopSpans(ts[0].kids);
    AllKidsAppend([ts[0]] + Nodes(ts[0].kids), Nodes(ts[1..]));
    AllKidsAppend([ts[0]], Nodes(ts[0].kids));
  }

  lemma {:induction false} DistinctNoDup(s: seq<Span>)
    requires DistinctIds(multiset(s))
    ensures NoDup(IdSeq(s))
  {
    if s != [] {
      assert s == [s[0]] + s[1..];
      DistinctSplit(multiset{s[0]}, multiset(s[1..]));
      DistinctNoDup(s[1..]);
      forall i | 0 < i < |s|
        ensures s[i].id != s[0].id
      {
        assert s[i] in multiset(s[1..]) && s[0] in multiset{s[0]};
      }
      assert forall i :: 0 < i < |s| ==> IdSeq(s)[i] == IdSeq(s[1..])[i - 1];
    }
  }

  /** If every node's reward children come in time order, first sibling rewards as many calls as any
      assignment of rewards to different eligible siblings. */
  lemma FirstSiblingIsMaximum(t: Tree, calls: set<string>, m: map<string, string>)
    requires DistinctIds(Bag([t])) && InOrder(Nodes([t])) && SiblingMatching(Nodes([t]), calls, m)
    ensures |m| <= |AllRewards(t, FirstSibling, calls)|
  {
    KidsBag([t]);
    DistinctSplit(multiset(TopSpans([t])), multiset(AllKids(Nodes([t]))));
    DistinctNoDup(AllKids(Nodes([t])));
    NodesMaximum(Nodes([t]), calls, m);
  }
}
