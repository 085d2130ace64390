/** What `LlmProxyTraceToTriplet.adapt` returns, read off the spans alone. */
module ProxyExact {
  import opened Basics
  import opened Matching
  import opened Sorting
  import opened ProxyAdapter

  // ---- Which spans become calls ----

  /** Prompt and response token ids as the span's kind has them. */
  ghost predicate Bears(s: ProxySpan, prompt: seq<int>, response: seq<int>) {
    || (s.name == "raw_gen_ai_request" && s.raw == (prompt, response))
    || (s.name == "litellm_request" && s.openai == (prompt, response))
  }

  /** The span has token ids on both sides. */
  ghost predicate IsCall(s: ProxySpan) {
    || (s.name == "raw_gen_ai_request" && s.raw.0 != [] && s.raw.1 != [])
    || (s.name == "litellm_request" && s.openai.0 != [] && s.openai.1 != [])
  }

  ghost predicate SameRequest(s: ProxySpan, t: ProxySpan) {
    s.requestId.Some? && s.requestId == t.requestId
  }

  /** Call number `k` is made from the span at `at[k]`. A span with token ids on both sides is one of them
      unless an earlier one has its request id; no other span is, and no two share a request id. */
  ghost predicate CallsAt(spans: seq<ProxySpan>, at: seq<nat>) {
    && (forall k :: 0 <= k < |at| ==> at[k] < |spans| && IsCall(spans[at[k]]))
    && (forall k, l :: 0 <= k < l < |at| ==> at[k] < at[l] && !SameRequest(spans[at[k]], spans[at[l]]))
    && (forall i :: 0 <= i < |spans| && IsCall(spans[i]) ==> Handled(spans, at, i))
  }

  ghost predicate Handled(spans: seq<ProxySpan>, at: seq<nat>, i: nat)
    requires i < |spans|
  {
    exists k :: 0 <= k < |at| && at[k] <= i && (at[k] == i || SameRequest(spans[at[k]], spans[i]))
  }

  ghost predicate MadeFrom(x: Item, s: ProxySpan) {
    x.id == s.id && x.seqId == s.seqId && x.requestId == s.requestId && Bears(s, x.prompt, x.response)
  }

  ghost predicate AllMadeFrom(items: seq<Item>, spans: seq<ProxySpan>, at: seq<nat>) {
    |items| == |at| && forall k :: 0 <= k < |at| ==> at[k] < |spans| && MadeFrom(items[k], spans[at[k]])
  }

  lemma {:induction false} ItemsExact(spans: seq<ProxySpan>) returns (at: seq<nat>)
    ensures CallsAt(spans, at) && AllMadeFrom(Items(spans), spans, at)
  {
    if spans == [] {
      at := [];
    } else {
      var n := |spans| - 1;
      var front, s, before := spans[..n], spans[n], Items(spans[..n]);
      var sofar := ItemsExact(front);
      assert spans == front + [s];
      if IsItem(s, SeenIds(before)) {
        at := sofar + [n];
        assert forall k :: 0 <= k < |sofar| ==> before[k].requestId == spans[sofar[k]].requestId;
        assert forall k :: 0 <= k < |before| && before[k].requestId.Some? ==>
                 before[k].requestId.value in SeenIds(before);
        CallTaken(front, s, sofar);
      } else {
        at := sofar;
        if IsCall(s) {
          assert s.requestId.Some? && s.requestId.value in SeenIds(before);
          var k :| 0 <= k < |before| && before[k].requestId == s.requestId;
          assert SameRequest(front[sofar[k]], s);
          CallSkipped(front, s, sofar, k);
        } else {
          CallSkipped(front, s, sofar, 0);
        }
      }
    }
  }

  lemma CallTaken(front: seq<ProxySpan>, s: ProxySpan, at: seq<nat>)
    requires CallsAt(front, at) && IsCall(s) && forall k :: 0 <= k < |at| ==> !SameRequest(front[at[k]], s)
    ensures CallsAt(front + [s], at + [|front|])
  {
    var spans, more := front + [s], at + [|front|];
    assert forall k :: 0 <= k < |at| ==> more[k] == at[k] && spans[at[k]] == front[at[k]];
    forall i | 0 <= i < |spans| && IsCall(spans[i])
      ensures Handled(spans, more, i)
    {
      if i < |front| {
        assert Handled(front, at, i);
      } else {
        assert more[|at|] == i;
      }
    }
  }

  lemma CallSkipped(front: seq<ProxySpan>, s: ProxySpan, at: seq<nat>, k: nat)
    requires CallsAt(front, at)
    requires IsCall(s) ==> k < |at| && SameRequest(front[at[k]], s)
    ensures CallsAt(front + [s], at)
  {
    var spans := front + [s];
    assert forall j :: 0 <= j < |at| ==> spans[at[j]] == front[at[j]];
    forall i | 0 <= i < |spans| && IsCall(spans[i])
      ensures Handled(spans, at, i)
    {
      if i < |front| {
        assert Handled(front, at, i);
      } else {
        assert at[k] <= i;
      }
    }
  }

  // ---- Which spans are rewards ----

  /** The positions of the spans with a reward, in order. */
  ghost predicate RewardsAt(spans: seq<ProxySpan>, at: seq<nat>) {
    && (forall k :: 0 <= k < |at| ==> at[k] < |spans| && spans[at[k]].reward.Some?)
    && (forall k, l :: 0 <= k < l < |at| ==> at[k] < at[l])
    && (forall i :: 0 <= i < |spans| && spans[i].reward.Some? ==> i in at)
  }

  ghost predicate ValuesAt(spans: seq<ProxySpan>, at: seq<nat>, rewards: seq<(int, real)>) {
    |at| == |rewards| && forall k :: 0 <= k < |at| ==>
      at[k] < |spans| && rewards[k].0 == spans[at[k]].seqId && Some(rewards[k].1) == spans[at[k]].reward
  }

  lemma RewardOne(front: seq<ProxySpan>, s: ProxySpan, at: seq<nat>)
    requires RewardsAt(front, at) && s.reward.Some?
    ensures RewardsAt(front + [s], at + [|front|])
  {
    var spans, more := front + [s], at + [|front|];
    forall i | 0 <= i < |spans| && spans[i].reward.Some?
      ensures i in more
    {
      assert i < |front| ==> front[i].reward.Some?;
      assert i == |front| ==> more[|at|] == i;
    }
  }

  lemma RewardNone(front: seq<ProxySpan>, s: ProxySpan, at: seq<nat>)
    requires RewardsAt(front, at) && s.reward.None?
    ensures RewardsAt(front + [s], at)
  {
    var spans := front + [s];
    forall i | 0 <= i < |spans| && spans[i].reward.Some?
      ensures i in at
    {
      assert i < |front| && front[i].reward.Some?;
    }
  }

  lemma ValuesSnoc(front: seq<ProxySpan>, s: ProxySpan, at: seq<nat>, rewards: seq<(int, real)>)
    requires ValuesAt(front, at, rewards)
    ensures ValuesAt(front + [s], at, rewards)
    ensures s.reward.Some? ==> ValuesAt(front + [s], at + [|front|], rewards + [(s.seqId, s.reward.value)])
  {
    assert forall k :: 0 <= k < |at| ==> (front + [s])[at[k]] == front[at[k]];
  }

  lemma {:induction false} RewardsExact(spans: seq<ProxySpan>) returns (at: seq<nat>)
    ensures RewardsAt(spans, at) && ValuesAt(spans, at, RewardList(spans))
  {
    at := [];
    if spans != [] {
      var front, s := spans[..|spans| - 1], spans[|spans| - 1];
      assert spans == front + [s];
      at := RewardsExact(front);
      ValuesSnoc(front, s, at, RewardList(front));
      if s.reward.Some? {
        RewardOne(front, s, at);
        at := at + [|front|];
      } else {
        RewardNone(front, s, at);
        assert RewardList(front) + [] == RewardList(front);
      }
    }
  }

  // ---- Which call each reward goes to ----

  /** Reward number `j` goes to call number `m[j]`, the last call with a smaller sequence number that has not
      gone to an earlier reward; it goes to none only if there is no such call. */
  ghost predicate TakesLatest(calls: seq<int>, rewards: seq<int>, m: Pairs<nat>, j: nat)
    requires j < |rewards|
  {
    && (j in m ==> m[j] < |calls| && calls[m[j]] < rewards[j] && m[j] !in Used(m, j))
    && (forall l :: 0 <= l < |calls| && calls[l] < rewards[j] && (j in m ==> l > m[j]) ==> l in Used(m, j))
  }

  ghost predicate LatestFree(calls: seq<int>, rewards: seq<int>, m: Pairs<nat>) {
    && (forall j :: j in m ==> j < |rewards|)
    && (forall j :: 0 <= j < |rewards| ==> TakesLatest(calls, rewards, m, j))
  }

  function CallNumber(items: seq<Item>, id: string): (k: nat)
    ensures k <= |items|
    ensures (exists l :: 0 <= l < |items| && items[l].id == id) ==> k < |items| && items[k].id == id
  {
    if items == [] || items[0].id == id then 0 else 1 + CallNumber(items[1..], id)
  }

  function SeqsOf(items: seq<Item>): seq<int> {
    seq(|items|, k requires 0 <= k < |items| => items[k].seqId)
  }

  /** The matching by call number instead of id. */
  function ByNumber(items: seq<Item>, g: Pairs<string>): Pairs<nat> {
    map j | j in g :: CallNumber(items, g[j])
  }

  lemma NumberIs(items: seq<Item>, k: nat)
    requires DistinctItems(items) && k < |items|
    ensures CallNumber(items, items[k].id) == k
  {
    var l := CallNumber(items, items[k].id);
    assert items[l].id == items[k].id;
  }

  /** Every call the matching names is one of the calls. */
  ghost predicate Names(items: seq<Item>, g: Pairs<string>) {
    forall j :: j in g ==> CallNumber(items, g[j]) < |items| && items[CallNumber(items, g[j])].id == g[j]
  }

  lemma TakenIs(items: seq<Item>, g: Pairs<string>, j: nat, l: nat)
    requires DistinctItems(items) && Names(items, g) && l < |items|
    ensures l in Used(ByNumber(items, g), j) <==> items[l].id in Used(g, j)
  {
    NumberIs(items, l);
    var m := ByNumber(items, g);
    assert forall i :: i in g ==> m[i] == CallNumber(items, g[i]);
    if items[l].id in Used(g, j) {
      var i :| i in g && i < j && g[i] == items[l].id;
      assert m[i] == l;
    }
  }

  lemma ScanNames(items: seq<Item>, rewards: seq<int>)
    requires DistinctItems(items)
    ensures Names(items, ScanPairs(items, rewards, |rewards|))
  {
    var g := ScanPairs(items, rewards, |rewards|);
    ScanBelow(items, rewards, |rewards|);
    forall j | j in g
      ensures CallNumber(items, g[j]) < |items| && items[CallNumber(items, g[j])].id == g[j]
    {
      PickIsLatest(items, rewards, j);
    }
  }

  lemma ScanIsLatest(items: seq<Item>, rewards: seq<int>)
    requires DistinctItems(items)
    ensures LatestFree(SeqsOf(items), rewards, ByNumber(items, ScanPairs(items, rewards, |rewards|)))
  {
    ScanBelow(items, rewards, |rewards|);
    forall j | 0 <= j < |rewards|
      ensures TakesLatest(SeqsOf(items), rewards, ByNumber(items, ScanPairs(items, rewards, |rewards|)), j)
    {
      ScanTakesLatest(items, rewards, j);
    }
  }

  lemma ScanTakesLatest(items: seq<Item>, rewards: seq<int>, j: nat)
    requires DistinctItems(items) && j < |rewards|
    ensures TakesLatest(SeqsOf(items), rewards, ByNumber(items, ScanPairs(items, rewards, |rewards|)), j)
  {
    var g := ScanPairs(items, rewards, |rewards|);
    ScanNames(items, rewards);
    PickIsLatest(items, rewards, j);
    forall l | 0 <= l < |items|
      ensures l in Used(ByNumber(items, g), j) <==> items[l].id in Used(g, j)
    {
      TakenIs(items, g, j, l);
    }
  }

  lemma PickIsLatest(items: seq<Item>, rewards: seq<int>, j: nat)
    requires DistinctItems(items) && j < |rewards|
    ensures var g := ScanPairs(items, rewards, |rewards|);
            var k := if j in g then CallNumber(items, g[j]) else 0;
            && (j in g ==> k < |items| && items[k].id == g[j] && items[k].seqId < rewards[j] && g[j] !in Used(g, j))
            && forall l :: 0 <= l < |items| && items[l].seqId < rewards[j] && (j in g ==> l > k) ==>
                 items[l].id in Used(g, j)
  {
    var g := ScanPairs(items, rewards, |rewards|);
    ScanAt(items, rewards, j);
    var pick := Pick(items, rewards[j], Used(g, j));
    assert forall l :: 0 <= l < |items| ==> items[l] in items;
    if pick.Some? {
      var k :| 0 <= k < |items| && items[k].id == pick.value && Fits(items[k], rewards[j], Used(g, j))
               && forall l :: k < l < |items| ==> !Fits(items[l], rewards[j], Used(g, j));
      NumberIs(items, k);
    }
  }

  // ---- The adapter ----

  /** A triplet has the token ids and the request id of the span it is made from. */
  ghost predicate TripletsFrom(out: seq<Triplet>, spans: seq<ProxySpan>, calls: seq<nat>) {
    && |out| == |calls|
    && forall k :: 0 <= k < |out| ==>
         && calls[k] < |spans|
         && Bears(spans[calls[k]], out[k].prompt, out[k].response) && out[k].responseId == spans[calls[k]].requestId
  }

  /** A triplet has the reward that goes to its call, and none if none does. */
  ghost predicate RewardsGo(out: seq<Triplet>, spans: seq<ProxySpan>, rewards: seq<nat>, m: Pairs<nat>) {
    && (forall j :: j in m ==> j < |rewards| && rewards[j] < |spans| && m[j] < |out|
                               && out[m[j]].reward == spans[rewards[j]].reward)
    && (forall k :: 0 <= k < |out| && k !in m.Values ==> out[k].reward.None?)
  }

  function SeqsAt(spans: seq<ProxySpan>, at: seq<nat>): seq<int>
    requires forall k :: 0 <= k < |at| ==> at[k] < |spans|
  {
    seq(|at|, k requires 0 <= k < |at| => spans[at[k]].seqId)
  }

  /** Sorted by sequence number and then by start time. */
  ghost predicate InOrder(spans: seq<ProxySpan>) {
    forall i, j :: 0 <= i < j < |spans| ==>
      spans[i].seqId < spans[j].seqId || (spans[i].seqId == spans[j].seqId && spans[i].start <= spans[j].start)
  }

  lemma SortedInOrder(source: seq<ProxySpan>)
    ensures InOrder(Sorted(source)) && multiset(Sorted(source)) == multiset(source)
  {
    var spans := Sorted(source);
    Sorts(source, SpanKey);
    assert forall i, j :: 0 <= i < j < |spans| ==> LexLe(SpanKey(spans[i]), SpanKey(spans[j]));
  }

  lemma TripletsMade(source: seq<ProxySpan>, calls: seq<nat>)
    requires AllMadeFrom(Items(Sorted(source)), Sorted(source), calls)
    ensures TripletsFrom(Adapted(source), Sorted(source), calls)
  {
  }

  lemma TripletsRewarded(source: seq<ProxySpan>, rewards: seq<nat>)
    requires DistinctItems(Items(Sorted(source))) && ValuesAt(Sorted(source), rewards, RewardList(Sorted(source)))
    ensures var items, seqs := Items(Sorted(source)), SeqIds(RewardList(Sorted(source)));
            RewardsGo(Adapted(source), Sorted(source), rewards, ByNumber(items, ScanPairs(items, seqs, |seqs|)))
  {
    var items, values := Items(Sorted(source)), RewardList(Sorted(source));
    var g, got := ScanPairs(items, SeqIds(values), |values|), Assigned(items, values, |values|);
    var m, out := ByNumber(items, g), Adapted(source);
    AssignedRecordsScan(items, values, |values|);
    ScanNames(items, SeqIds(values));
    forall k | 0 <= k < |out| && k !in m.Values
      ensures out[k].reward.None?
    {
      NumberIs(items, k);
      assert forall j :: j in g ==> m[j] in m.Values && m[j] == CallNumber(items, g[j]);
      assert items[k].id !in g.Values;
    }
  }

  lemma SameSeqs(spans: seq<ProxySpan>, calls: seq<nat>, rewards: seq<nat>)
    requires AllMadeFrom(Items(spans), spans, calls) && ValuesAt(spans, rewards, RewardList(spans))
    ensures SeqsAt(spans, calls) == SeqsOf(Items(spans)) && SeqsAt(spans, rewards) == SeqIds(RewardList(spans))
  {
  }

  /** One triplet for each span that is the first of its request with token ids on both sides, in sequence
      order, with what that span has. */
  lemma AdaptedCalls(source: seq<ProxySpan>) returns (spans: seq<ProxySpan>, calls: seq<nat>)
    ensures InOrder(spans) && multiset(spans) == multiset(source)
    ensures CallsAt(spans, calls) && TripletsFrom(Adapted(source), spans, calls)
  {
    spans := Sorted(source);
    SortedInOrder(source);
    calls := ItemsExact(spans);
    TripletsMade(source, calls);
  }

  /** With different span ids: each reward, in sequence order, goes to the last call with a smaller sequence
      number that has none yet, and its triplet has exactly that reward. */
  lemma AdaptedRewards(source: seq<ProxySpan>)
    returns (spans: seq<ProxySpan>, calls: seq<nat>, rewards: seq<nat>, m: Pairs<nat>)
    requires DistinctSource(source)
    ensures InOrder(spans) && multiset(spans) == multiset(source)
    ensures CallsAt(spans, calls) && TripletsFrom(Adapted(source), spans, calls)
    ensures RewardsAt(spans, rewards) && LatestFree(SeqsAt(spans, calls), SeqsAt(spans, rewards), m)
    ensures RewardsGo(Adapted(source), spans, rewards, m)
  {
    spans := Sorted(source);
    SortedInOrder(source);
    calls := ItemsExact(spans);
    rewards := RewardsExact(spans);
    TripletsMade(source, calls);
    assert DistinctItems(Items(spans)) by {
      SortedDistinct(source);
      ItemsFollowSpans(spans);
    }
    var items, seqs := Items(spans), SeqIds(RewardList(spans));
    m := ByNumber(items, ScanPairs(items, seqs, |seqs|));
    TripletsRewarded(source, rewards);
    ScanIsLatest(items, seqs);
    SameSeqs(spans, calls, rewards);
  }
}
