/** `batch_iter_over_dataset`: an endless run of batches, reshuffled on every pass, with leftovers
    carried into the next pass. */
module BatchIter {
  import opened Basics

  /** The batches one pass over `indices` yields, starting with `current` in hand, and what is left. */
  function Pass(indices: seq<nat>, current: seq<nat>, size: nat): (seq<seq<nat>>, seq<nat>)
    decreases indices
  {
    if indices == [] then ([], current)
    else if indices[0] in current then Pass(indices[1..], current, size)
    else
      var longer := current + [indices[0]];
      if |longer| == size then
        var rest := Pass(indices[1..], [], size);
        ([longer] + rest.0, rest.1)
      else Pass(indices[1..], longer, size)
  }

  /** The indices a pass takes. */
  function Kept(indices: seq<nat>, current: seq<nat>, size: nat): seq<nat>
    decreases indices
  {
    if indices == [] then []
    else if indices[0] in current then Kept(indices[1..], current, size)
    else
      var longer := current + [indices[0]];
      [indices[0]] + Kept(indices[1..], if |longer| == size then [] else longer, size)
  }

  /** The indices a pass skips, because the batch in hand has them already. */
  function Skipped(indices: seq<nat>, current: seq<nat>, size: nat): seq<nat>
    decreases indices
  {
    if indices == [] then []
    else if indices[0] in current then [indices[0]] + Skipped(indices[1..], current, size)
    else
      var longer := current + [indices[0]];
      Skipped(indices[1..], if |longer| == size then [] else longer, size)
  }

  ghost predicate IsShuffle(indices: seq<nat>, n: nat) {
    NoDup(indices) && Below(indices, n) && |indices| == n
  }

  ghost predicate Below(s: seq<nat>, n: nat) {
    forall k :: 0 <= k < |s| ==> s[k] < n
  }

  /** The batch in hand: short of `size`, without repetition. */
  ghost predicate InHand(current: seq<nat>, n: nat, size: nat) {
    NoDup(current) && |current| < size && Below(current, n)
  }

  ghost predicate FullBatch(b: seq<nat>, n: nat, size: nat) {
    |b| == size && NoDup(b) && Below(b, n)
  }

  /** Every batch has exactly `size` indices, all different. */
  lemma {:induction false} BatchesFull(indices: seq<nat>, current: seq<nat>, n: nat, size: nat)
    requires InHand(current, n, size) && Below(indices, n)
    ensures var p := Pass(indices, current, size);
            (forall k :: 0 <= k < |p.0| ==> FullBatch(p.0[k], n, size)) && InHand(p.1, n, size)
    decreases indices
  {
    if indices != [] {
      if indices[0] in current {
        BatchesFull(indices[1..], current, n, size);
      } else {
        var longer := current + [indices[0]];
        assert FullBatch(longer, n, |longer|);
        BatchesFull(indices[1..], if |longer| == size then [] else longer, n, size);
      }
    }
  }

  /** The batches and the leftovers are what was in hand and what was taken, in that order. */
  lemma {:induction false} PassConserves(indices: seq<nat>, current: seq<nat>, size: nat)
    ensures var p := Pass(indices, current, size);
            Joined(p.0) + p.1 == current + Kept(indices, current, size)
    decreases indices
  {
    if indices != [] {
      if indices[0] in current {
        PassConserves(indices[1..], current, size);
      } else {
        var longer := current + [indices[0]];
        if |longer| == size {
          var rest := Pass(indices[1..], [], size);
          PassConserves(indices[1..], [], size);
          assert ([longer] + rest.0)[1..] == rest.0;
          assert Joined(rest.0) + rest.1 == Kept(indices[1..], [], size);
          Regroup(current, indices[0], Joined(rest.0), rest.1);
        } else {
          PassConserves(indices[1..], longer, size);
          Regroup(current, indices[0], Kept(indices[1..], longer, size), []);
        }
      }
    }
  }

  lemma Regroup(a: seq<nat>, i: nat, b: seq<nat>, c: seq<nat>)
    ensures a + [i] + b + c == a + ([i] + (b + c)) && b + [] == b
  {
  }

  lemma {:induction false} JoinedSize(batches: seq<seq<nat>>, size: nat)
    requires forall k :: 0 <= k < |batches| ==> |batches[k]| == size
    ensures |Joined(batches)| == |batches| * size
  {
    if batches != [] {
      JoinedSize(batches[1..], size);
      assert |batches| * size == size + (|batches| - 1) * size;
    }
  }

  /** Taken and skipped indices together are the pass, both in its order. */
  lemma {:induction false} KeptOrSkipped(indices: seq<nat>, current: seq<nat>, size: nat)
    ensures Interleaves(Kept(indices, current, size), Skipped(indices, current, size), indices)
    ensures multiset(Kept(indices, current, size)) + multiset(Skipped(indices, current, size)) == multiset(indices)
    decreases indices
  {
    if indices != [] {
      var i, rest := indices[0], indices[1..];
      assert indices == [i] + rest;
      var longer := current + [i];
      var next := if i in current then current else if |longer| == size then [] else longer;
      KeptOrSkipped(rest, next, size);
      var kept, skipped := Kept(rest, next, size), Skipped(rest, next, size);
      assert ([i] + kept)[1..] == kept && ([i] + skipped)[1..] == skipped;
    }
  }

  /** Indices that are not in hand are never skipped. */
  lemma {:induction false} NothingSkipped(indices: seq<nat>, current: seq<nat>, size: nat)
    requires NoDup(current + indices)
    ensures Kept(indices, current, size) == indices && Skipped(indices, current, size) == []
    decreases indices
  {
    if indices != [] {
      var i, rest := indices[0], indices[1..];
      var longer := current + [i];
      assert longer + rest == current + indices;
      NoDupTail(current, indices);
      NoDupTail(longer, rest);
      assert [] + rest == rest;
      NothingSkipped(rest, if |longer| == size then [] else longer, size);
    }
  }

  lemma NoDupTail(a: seq<nat>, b: seq<nat>)
    requires NoDup(a + b)
    ensures NoDup(a) && NoDup(b) && forall x :: x in a ==> x !in b
  {
    assert a == (a + b)[..|a|] && b == (a + b)[|a|..];
    forall x | x in a
      ensures x !in b
    {
      var i :| 0 <= i < |a| && a[i] == x;
      assert (a + b)[i] == x;
      assert forall j :: 0 <= j < |b| ==> (a + b)[|a| + j] == b[j];
    }
  }

  /** Only indices that were in hand at the start of a pass are skipped, and if the pass yields a batch
      then nothing skipped is left over at its end. */
  lemma {:induction false} SkippedWereInHand(indices: seq<nat>, before: seq<nat>, taken: seq<nat>, size: nat)
    requires NoDup(before + taken) && NoDup(taken + indices)
    ensures var current := before + taken;
            && (forall i :: i in Skipped(indices, current, size) ==> i in before)
            && (Pass(indices, current, size).0 != [] ==>
                  && (forall i :: i in current ==> i in Pass(indices, current, size).0[0])
                  && (forall i :: i in Pass(indices, current, size).1 ==>
                        i in indices && i !in Skipped(indices, current, size)))
    decreases indices
  {
    if indices != [] {
      var current, i, rest := before + taken, indices[0], indices[1..];
      NoDupTail(taken, indices);
      NoDupTail([i], rest);
      assert [i] + rest == indices;
      if i in current {
        SkipOne(before, taken, i, rest);
        SkippedWereInHand(rest, before, taken, size);
      } else {
        var longer := current + [i];
        assert longer == before + (taken + [i]);
        assert taken + [i] + rest == taken + indices;
        if |longer| == size {
          AfterBatch(rest, size);
        } else {
          SkippedWereInHand(rest, before, taken + [i], size);
        }
      }
    }
  }

  lemma SkipOne(before: seq<nat>, taken: seq<nat>, i: nat, rest: seq<nat>)
    requires i in before + taken && NoDup(taken + ([i] + rest))
    ensures i in before && NoDup(taken + rest)
  {
    NoDupTail(taken, [i] + rest);
    NoDupTail([i], rest);
    NoDupConcat(taken, rest);
  }

  lemma AfterBatch(rest: seq<nat>, size: nat)
    requires NoDup(rest)
    ensures Skipped(rest, [], size) == [] && forall i :: i in Pass(rest, [], size).1 ==> i in rest
  {
    assert [] + rest == rest;
    NothingSkipped(rest, [], size);
    PassConserves(rest, [], size);
    var p := Pass(rest, [], size);
    assert Joined(p.0) + p.1 == rest;
  }

  // ---- One pass ----

  function Upto(n: nat): (s: set<nat>)
    ensures |s| == n && forall i :: i in s <==> 0 <= i < n
  {
    if n == 0 then {} else Upto(n - 1) + {n - 1}
  }

  /** A shuffle has every index. */
  lemma ShuffleHasAll(indices: seq<nat>, n: nat, i: nat)
    requires IsShuffle(indices, n) && i < n
    ensures i in indices
  {
    ElementsSize(indices);
    assert Elements(indices) <= Upto(n);
    if i !in indices {
      assert Elements(indices) <= Upto(n) - {i};
      SubsetSize(Elements(indices), Upto(n) - {i});
    }
  }

  lemma {:induction false} PartNoDup(part: seq<nat>, whole: seq<nat>)
    requires NoDup(whole) && multiset(part) <= multiset(whole)
    ensures NoDup(part) && forall x :: x in part ==> x in whole
  {
    CountOne(whole);
    forall i, j | 0 <= i < j < |part|
      ensures part[i] != part[j]
    {
      assert part == part[..j] + part[j..];
      assert part[i] in part[..j] && part[j] in part[j..];
      assert multiset(part)[part[i]] == multiset(part[..j])[part[i]] + multiset(part[j..])[part[i]];
    }
    forall x | x in part
      ensures x in whole
    {
      assert x in multiset(part);
    }
  }

  lemma {:induction false} CountOne(s: seq<nat>)
    requires NoDup(s)
    ensures forall x :: multiset(s)[x] <= 1
  {
    if s != [] {
      CountOne(s[1..]);
      assert s == [s[0]] + s[1..];
      assert s[0] !in s[1..];
    }
  }

  /** What one pass does with a shuffle: it yields at least one batch, the first one with everything that
      was in hand; it skips only what was in hand; and what it leaves over it has not skipped. */
  lemma PassFacts(indices: seq<nat>, current: seq<nat>, n: nat, size: nat)
    requires 1 <= size <= n && IsShuffle(indices, n) && InHand(current, n, size)
    ensures var p, skipped := Pass(indices, current, size), Skipped(indices, current, size);
            && p.0 != [] && InHand(p.1, n, size)
            && (forall k :: 0 <= k < |p.0| ==> FullBatch(p.0[k], n, size))
            && (forall i :: i in current ==> i in p.0[0])
            && (forall i :: i in skipped ==> i in current)
            && (forall i :: i in p.1 ==> i !in skipped)
  {
    assert current + [] == current && [] + indices == indices;
    SkippedWereInHand(indices, current, [], size);
    BatchesFull(indices, current, n, size);
    PassConserves(indices, current, size);
    KeptOrSkipped(indices, current, size);
    var p, kept, skipped := Pass(indices, current, size), Kept(indices, current, size), Skipped(indices, current, size);
    PartNoDup(skipped, indices);
    ElementsSize(current);
    NoDupFits(skipped, Elements(current));
    BagSizes(kept, skipped, indices);
    assert |Joined(p.0)| + |p.1| == |Joined(p.0) + p.1| == |current| + |kept|;
  }

  lemma BagSizes(a: seq<nat>, b: seq<nat>, c: seq<nat>)
    requires multiset(a) + multiset(b) == multiset(c)
    ensures |a| + |b| == |c|
  {
    assert |multiset(a) + multiset(b)| == |a| + |b| && |multiset(c)| == |c|;
  }

  // ---- Whole runs ----

  ghost predicate AllShuffles(shuffles: seq<seq<nat>>, n: nat) {
    forall k :: 0 <= k < |shuffles| ==> IsShuffle(shuffles[k], n)
  }

  /** What is in hand after the passes over `shuffles`. */
  function LeftAfter(shuffles: seq<seq<nat>>, size: nat): seq<nat> {
    if shuffles == [] then []
    else Pass(shuffles[|shuffles| - 1], LeftAfter(shuffles[..|shuffles| - 1], size), size).1
  }

  /** The batches of the last pass. */
  function LastBatches(shuffles: seq<seq<nat>>, size: nat): seq<seq<nat>>
    requires shuffles != []
  {
    Pass(shuffles[|shuffles| - 1], LeftAfter(shuffles[..|shuffles| - 1], size), size).0
  }

  lemma {:induction false} RunInHand(shuffles: seq<seq<nat>>, n: nat, size: nat)
    requires 1 <= size <= n && AllShuffles(shuffles, n)
    ensures InHand(LeftAfter(shuffles, size), n, size)
  {
    if shuffles != [] {
      RunInHand(shuffles[..|shuffles| - 1], n, size);
      PassFacts(shuffles[|shuffles| - 1], LeftAfter(shuffles[..|shuffles| - 1], size), n, size);
    }
  }

  lemma {:induction false} FlatHas(batches: seq<seq<nat>>, k: nat, i: nat)
    requires k < |batches| && i in batches[k]
    ensures i in Joined(batches)
  {
    if k > 0 {
      FlatHas(batches[1..], k - 1, i);
    }
  }

  /** After any passes, each further pass yields full batches of distinct indices, at least one. */
  lemma EveryPassYields(shuffles: seq<seq<nat>>, n: nat, size: nat)
    requires 1 <= size < n && AllShuffles(shuffles, n) && shuffles != []
    ensures LastBatches(shuffles, size) != []
    ensures forall k :: 0 <= k < |LastBatches(shuffles, size)| ==> FullBatch(LastBatches(shuffles, size)[k], n, size)
  {
    RunInHand(shuffles[..|shuffles| - 1], n, size);
    PassFacts(shuffles[|shuffles| - 1], LeftAfter(shuffles[..|shuffles| - 1], size), n, size);
  }

  /** Fairness: no index is skipped in two passes running, and every index is in some batch of any two
      passes running. */
  lemma NoIndexMissesTwoPasses(shuffles: seq<seq<nat>>, p: seq<nat>, q: seq<nat>, n: nat, size: nat, i: nat)
    requires 1 <= size < n && AllShuffles(shuffles, n) && IsShuffle(p, n) && IsShuffle(q, n) && i < n
    ensures var before := LeftAfter(shuffles, size);
            var first := Pass(p, before, size);
            && !(i in Skipped(p, before, size) && i in Skipped(q, first.1, size))
            && (i in Joined(first.0) || i in Joined(Pass(q, first.1, size).0))
  {
    var before := LeftAfter(shuffles, size);
    var first := Pass(p, before, size);
    RunInHand(shuffles, n, size);
    PassFacts(p, before, n, size);
    PassFacts(q, first.1, n, size);
    ShuffleHasAll(p, n, i);
    KeptOrSkipped(p, before, size);
    assert i in multiset(p);
    if i in Skipped(p, before, size) {
      FlatHas(first.0, 0, i);
    } else {
      PassConserves(p, before, size);
      assert i in multiset(Kept(p, before, size));
      assert i in before + Kept(p, before, size);
      assert i in Joined(first.0) + first.1;
      if i in first.1 {
        FlatHas(Pass(q, first.1, size).0, 0, i);
      }
    }
  }

  // ---- Once per pass ----

  /** Whatever the shuffles, no pass yields an index twice. */
  ghost predicate OncePerPass(n: nat, size: nat) {
    forall shuffles: seq<seq<nat>> ::
      shuffles != [] && AllShuffles(shuffles, n) ==> NoDup(Joined(LastBatches(shuffles, size)))
  }

  lemma BatchTotal(indices: seq<nat>, current: seq<nat>, n: nat, size: nat)
    requires 1 <= size <= n && IsShuffle(indices, n) && InHand(current, n, size)
    ensures |Joined(Pass(indices, current, size).0)| == |Pass(indices, current, size).0| * size
  {
    PassFacts(indices, current, n, size);
    JoinedSize(Pass(indices, current, size).0, size);
  }

  lemma MultipleBelow(k: nat, n: nat, size: nat)
    requires size > 0
    ensures k * size <= n ==> k * size <= n - n % size
    ensures n % size == 0 && n - size < k * size <= n ==> k * size == n
  {
    var q := n / size;
    assert n == q * size + n % size && (q + 1) * size == q * size + size;
    Scale(q + 1, k, size);
    Scale(k, q, size);
    Scale(k + 1, q, size);
    assert (k + 1) * size == k * size + size;
  }

  lemma Scale(a: nat, b: nat, c: nat)
    ensures a <= b ==> a * c <= b * c
  {
  }

  /** If the batch size divides the number of items, nothing is ever left over. */
  lemma {:induction false} DividesLeavesNothing(shuffles: seq<seq<nat>>, n: nat, size: nat)
    requires 1 <= size <= n && n % size == 0 && AllShuffles(shuffles, n)
    ensures LeftAfter(shuffles, size) == []
    ensures shuffles != [] ==> Joined(LastBatches(shuffles, size)) == shuffles[|shuffles| - 1]
  {
    if shuffles != [] {
      var p := shuffles[|shuffles| - 1];
      DividesLeavesNothing(shuffles[..|shuffles| - 1], n, size);
      assert [] + p == p;
      NothingSkipped(p, [], size);
      PassConserves(p, [], size);
      PassFacts(p, [], n, size);
      BatchTotal(p, [], n, size);
      var out := Pass(p, [], size);
      assert Joined(out.0) + out.1 == p;
      MultipleBelow(|out.0|, n, size);
      assert Joined(out.0) + [] == Joined(out.0);
    }
  }

  lemma {:induction false} PassSplit(a: seq<nat>, b: seq<nat>, current: seq<nat>, size: nat)
    ensures Kept(a + b, current, size) == Kept(a, current, size) + Kept(b, Pass(a, current, size).1, size)
    decreases a
  {
    if a == [] {
      assert a + b == b;
    } else {
      var longer := current + [a[0]];
      assert (a + b)[1..] == a[1..] + b;
      if a[0] in current {
        PassSplit(a[1..], b, current, size);
      } else {
        PassSplit(a[1..], b, if |longer| == size then [] else longer, size);
      }
    }
  }

  /** The indices below `n` that are not in `s`, in order. */
  function Except(n: nat, s: seq<nat>): (out: seq<nat>)
    ensures NoDup(out) && forall x :: x in out <==> 0 <= x < n && x !in s
  {
    if n == 0 then []
    else if n - 1 in s then Except(n - 1, s)
    else Except(n - 1, s) + [n - 1]
  }

  /** A shuffle that brings what is in hand last. */
  lemma LastIsShuffle(current: seq<nat>, n: nat)
    requires NoDup(current) && Below(current, n)
    ensures IsShuffle(Except(n, current) + current, n)
  {
    var p := Except(n, current) + current;
    NoDupConcat(Except(n, current), current);
    forall k | 0 <= k < |p|
      ensures p[k] < n
    {
      assert p[k] in Except(n, current) || p[k] in current;
    }
    ElementsSize(p);
    assert Elements(p) == Upto(n) by {
      assert forall i :: 0 <= i < n ==> (i in current || i in Except(n, current));
    }
  }

  /** On that shuffle nothing is skipped. */
  lemma LastSkipsNothing(current: seq<nat>, n: nat, size: nat)
    requires 1 <= size <= n && InHand(current, n, size)
    ensures Kept(Except(n, current) + current, current, size) == Except(n, current) + current
  {
    var a := Except(n, current);
    LastIsShuffle(current, n);
    NoDupConcat(current, a);
    NothingSkipped(a, current, size);
    PassConserves(a, current, size);
    PassSplit(a, current, current, size);
    var p := Pass(a, current, size);
    SkippedWereInHandFirst(a, current, size);
    FirstBatch(a, current, n, size);
    NoDupConcat(p.1, current);
    NothingSkipped(current, p.1, size);
  }

  lemma SkippedWereInHandFirst(a: seq<nat>, current: seq<nat>, size: nat)
    requires NoDup(current + a)
    ensures Pass(a, current, size).0 != [] ==> forall i :: i in Pass(a, current, size).1 ==> i in a
  {
    NoDupTail(current, a);
    assert current + [] == current && [] + a == a;
    SkippedWereInHand(a, current, [], size);
  }

  lemma FirstBatch(a: seq<nat>, current: seq<nat>, n: nat, size: nat)
    requires 1 <= size <= n && InHand(current, n, size) && a == Except(n, current)
    requires Kept(a, current, size) == a
    ensures Pass(a, current, size).0 != [] && InHand(Pass(a, current, size).1, n, size)
  {
    LastIsShuffle(current, n);
    PassConserves(a, current, size);
    assert forall k :: 0 <= k < |a| ==> a[k] in a;
    BatchesFull(a, current, n, size);
    var p := Pass(a, current, size);
    assert |Joined(p.0)| + |p.1| == |Joined(p.0) + p.1| == |current| + |a| == n;
  }

  /** If no pass ever repeats an index, such shuffles make the leftovers grow without end. */
  lemma {:induction false} LeftoversGrow(n: nat, size: nat, k: nat) returns (shuffles: seq<seq<nat>>)
    requires 1 <= size <= n && n % size != 0 && OncePerPass(n, size)
    ensures AllShuffles(shuffles, n) && |LeftAfter(shuffles, size)| >= k
  {
    if k == 0 {
      shuffles := [];
    } else {
      var front := LeftoversGrow(n, size, k - 1);
      var current := LeftAfter(front, size);
      var p := Except(n, current) + current;
      RunInHand(front, n, size);
      LastIsShuffle(current, n);
      LastSkipsNothing(current, n, size);
      PassConserves(p, current, size);
      BatchTotal(p, current, n, size);
      shuffles := front + [p];
      assert shuffles[..|shuffles| - 1] == front;
      var out := Pass(p, current, size);
      assert NoDup(Joined(out.0)) by {
        assert LastBatches(shuffles, size) == out.0;
      }
      assert |Joined(out.0)| + |out.1| == |Joined(out.0) + out.1| == |current| + n;
      FlatBelow(p, current, n, size);
      MultipleBelow(|out.0|, n, size);
    }
  }

  lemma FlatBelow(p: seq<nat>, current: seq<nat>, n: nat, size: nat)
    requires 1 <= size <= n && IsShuffle(p, n) && InHand(current, n, size)
    requires NoDup(Joined(Pass(p, current, size).0))
    ensures |Joined(Pass(p, current, size).0)| <= n
  {
    var f := Joined(Pass(p, current, size).0);
    PassFacts(p, current, n, size);
    JoinedElements(Pass(p, current, size).0, n);
    NoDupFits(f, Upto(n));
  }

  lemma {:induction false} JoinedElements(batches: seq<seq<nat>>, n: nat)
    requires forall k :: 0 <= k < |batches| ==> Below(batches[k], n)
    ensures Below(Joined(batches), n)
  {
    if batches != [] {
      JoinedElements(batches[1..], n);
    }
  }

  /** The documented promise that each item appears at most once in a pass holds for all shuffles
      exactly when the batch size divides the number of items. */
  lemma OncePerPassIffDivides(n: nat, size: nat)
    requires 1 <= size < n
    ensures OncePerPass(n, size) <==> n % size == 0
  {
    if n % size == 0 {
      forall shuffles: seq<seq<nat>> | shuffles != [] && AllShuffles(shuffles, n)
        ensures NoDup(Joined(LastBatches(shuffles, size)))
      {
        DividesLeavesNothing(shuffles, n, size);
      }
    } else if OncePerPass(n, size) {
      var shuffles := LeftoversGrow(n, size, size);
      RunInHand(shuffles, n, size);
    }
  }

  // ---- The iterator ----

  /** The suspended generator, for a batch size below the number of items. */
  class BatchIterator {
    const n: nat
    const size: nat
    var currentBatch: seq<nat>

    constructor (n: nat, size: nat)
      requires 1 <= size < n
      ensures this.n == n && this.size == size && currentBatch == []
    {
      this.n, this.size, currentBatch := n, size, [];
    }

    /** The iteration of the outer loop for one shuffle, and the batches it yields. */
    method NextPass(indices: seq<nat>) returns (batches: seq<seq<nat>>)
      modifies this
      ensures (batches, currentBatch) == Pass(indices, old(currentBatch), size)
    {
      batches := [];
      for k := 0 to |indices|
        invariant batches + Pass(indices[k..], currentBatch, size).0 == Pass(indices, old(currentBatch), size).0
        invariant Pass(indices[k..], currentBatch, size).1 == Pass(indices, old(currentBatch), size).1
      {
        var index := indices[k];
        assert indices[k..][0] == index && indices[k..][1..] == indices[k + 1..];
        if index in currentBatch {
          continue;
        }
        currentBatch := currentBatch + [index];
        if |currentBatch| == size {
          batches := batches + [currentBatch];
          currentBatch := [];
        }
      }
      assert batches + [] == batches;
    }
  }
}
