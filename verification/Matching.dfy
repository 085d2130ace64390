/** Rewards matched to calls: greedy matching is maximum when the eligible sets grow. */
module Matching {
  import opened Basics

  /** For each reward, by its position, the calls it may go to. */
  type Eligible<K(==)> = map<nat, set<K>>

  /** Which call each matched reward goes to. */
  type Pairs<K(==)> = map<nat, K>

  ghost predicate IsMatching<K>(e: Eligible<K>, m: Pairs<K>) {
    && (forall j :: j in m ==> j in e && m[j] in e[j])
    && (forall i, j :: i in m && j in m && m[i] == m[j] ==> i == j)
  }

  /** The calls taken by rewards before position `j`. */
  ghost function Used<K>(m: Pairs<K>, j: nat): set<K> {
    set i | i in m && i < j :: m[i]
  }

  ghost function Before<K>(m: Pairs<K>, j: nat): set<nat> {
    set i | i in m && i < j
  }

  /** Each reward takes some unused eligible call, and goes unmatched only when there is none. */
  ghost predicate Greedy<K>(e: Eligible<K>, m: Pairs<K>) {
    && (forall j :: j in m ==> j in e && m[j] in e[j] && m[j] !in Used(m, j))
    && (forall j :: j in e && j !in m ==> e[j] <= Used(m, j))
  }

  ghost predicate Growing<K>(e: Eligible<K>) {
    forall i, j :: i in e && j in e && i <= j ==> e[i] <= e[j]
  }

  lemma GreedyIsMatching<K>(e: Eligible<K>, g: Pairs<K>)
    requires Greedy(e, g)
    ensures IsMatching(e, g)
  {
    forall i, j | i in g && j in g && i < j
      ensures g[i] != g[j]
    {
      assert g[i] in Used(g, j);
    }
  }

  lemma BeforeStep<K>(m: Pairs<K>, k: nat)
    ensures Before(m, k + 1) == if k in m then Before(m, k) + {k} else Before(m, k)
    ensures |Before(m, k + 1)| == |Before(m, k)| + (if k in m then 1 else 0)
  {
    assert k !in Before(m, k);
    assert Before(m, k + 1) == if k in m then Before(m, k) + {k} else Before(m, k);
  }

  lemma UsedStep<K>(e: Eligible<K>, m: Pairs<K>, k: nat)
    requires IsMatching(e, m)
    ensures Used(m, k + 1) == if k in m then Used(m, k) + {m[k]} else Used(m, k)
    ensures k in m ==> m[k] !in Used(m, k)
  {
  }

  lemma {:induction false} UsedSize<K>(e: Eligible<K>, m: Pairs<K>, k: nat)
    requires IsMatching(e, m)
    ensures |Used(m, k)| == |Before(m, k)|
  {
    if k == 0 {
      assert Used(m, 0) == {} && Before(m, 0) == {};
    } else {
      UsedSize(e, m, k - 1);
      UsedStep(e, m, k - 1);
      BeforeStep(m, k - 1);
    }
  }

  /** A reward the greedy matching leaves out finds everything eligible so far taken, and another
      matching can use nothing else up to there. */
  lemma LeftOut<K>(e: Eligible<K>, g: Pairs<K>, m: Pairs<K>, k: nat)
    requires Greedy(e, g) && IsMatching(e, g) && Growing(e) && IsMatching(e, m)
    requires k in m && k !in g
    ensures |Before(m, k + 1)| <= |Before(g, k)|
  {
    UsedWithin(e, m, k);
    UsedSize(e, m, k + 1);
    UsedSize(e, g, k);
    SubsetSize(Used(m, k + 1), Used(g, k));
  }

  /** The calls used so far are all eligible for the present reward. */
  lemma UsedWithin<K>(e: Eligible<K>, m: Pairs<K>, k: nat)
    requires Growing(e) && IsMatching(e, m) && k in m
    ensures k in e && Used(m, k + 1) <= e[k]
  {
    forall c | c in Used(m, k + 1)
      ensures c in e[k]
    {
      var i :| i in m && i < k + 1 && m[i] == c;
      assert e[i] <= e[k];
    }
  }

  /** No matching uses more of the first `k` rewards than the greedy one. */
  lemma {:induction false} GreedyKeepsUp<K>(e: Eligible<K>, g: Pairs<K>, m: Pairs<K>, k: nat)
    requires Greedy(e, g) && IsMatching(e, g) && Growing(e) && IsMatching(e, m)
    ensures |Before(m, k)| <= |Before(g, k)|
  {
    if k == 0 {
      assert Before(m, 0) == {};
    } else {
      GreedyKeepsUp(e, g, m, k - 1);
      BeforeStep(m, k - 1);
      BeforeStep(g, k - 1);
      if k - 1 in m && k - 1 !in g {
        LeftOut(e, g, m, k - 1);
      }
    }
  }

  /** Greedy matching over growing eligible sets is a maximum matching. */
  lemma GreedyIsMaximum<K>(e: Eligible<K>, g: Pairs<K>, m: Pairs<K>)
    requires Greedy(e, g) && Growing(e) && IsMatching(e, m)
    ensures IsMatching(e, g) && |m| <= |g|
  {
    GreedyIsMatching(e, g);
    var k := Bound(m.Keys + g.Keys);
    GreedyKeepsUp(e, g, m, k);
    assert Before(m, k) == m.Keys && Before(g, k) == g.Keys;
  }

  /** A matching uses as many calls as rewards. */
  lemma ValuesSize<K>(e: Eligible<K>, m: Pairs<K>)
    requires IsMatching(e, m)
    ensures |m.Values| == |m|
  {
    InjectiveSize(m);
  }

  lemma {:induction false} Bound(s: set<nat>) returns (k: nat)
    ensures forall x :: x in s ==> x < k
  {
    if s == {} {
      k := 0;
    } else {
      var x :| x in s;
      k := Bound(s - {x});
      assert forall y :: y in s ==> y == x || y in s - {x};
      k := if x < k then k else x + 1;
    }
  }
}
