/** Which nodes `find_llm_calls` takes, read off the tree alone. */
module CallsExact {
  import opened Basics
  import opened Spans
  import opened FindCalls

  // ---- Nodes with their ancestors ----

  /** `path` leads down from one of `ts`, one child at a time. */
  ghost predicate LeadsDown(ts: seq<Tree>, path: seq<Span>) {
    path != [] &&
    exists i :: 0 <= i < |ts| && ts[i].span == path[0] && (|path| == 1 || LeadsDown(ts[i].kids, path[1..]))
  }

  /** `items` are the nodes of the traversal, in its order, each with its proper ancestors from the top down. */
  ghost predicate WithAncestors(ts: seq<Tree>, above: seq<Span>, items: seq<Item>) {
    && |items| == |Preorder(ts)|
    && (forall k :: 0 <= k < |items| ==> items[k].span == Preorder(ts)[k])
    && (forall k :: 0 <= k < |items| ==>
          above <= items[k].above && LeadsDown(ts, items[k].above[|above|..] + [items[k].span]))
  }

  lemma {:induction false} FlatIsTraversal(ts: seq<Tree>, above: seq<Span>)
    ensures WithAncestors(ts, above, Flat(ts, above))
    decreases ts
  {
    if ts != [] {
      var t, x, rest := ts[0], ts[0].span, ts[1..];
      FlatIsTraversal(t.kids, above + [x]);
      FlatIsTraversal(rest, above);
      assert LeadsDown(ts, [x]);
      forall it | it in Flat(t.kids, above + [x])
        ensures above <= it.above && LeadsDown(ts, it.above[|above|..] + [it.span])
      {
        BelowFirst(ts, above, it);
      }
      forall it | it in Flat(rest, above)
        ensures LeadsDown(ts, it.above[|above|..] + [it.span])
      {
        LaterTree(ts, it.above[|above|..] + [it.span]);
      }
      assert ([] + [x]) == [x] && above[|above|..] == [];
    }
  }

  lemma {:induction false} BelowFirst(ts: seq<Tree>, above: seq<Span>, it: Item)
    requires ts != [] && above + [ts[0].span] <= it.above
    requires LeadsDown(ts[0].kids, it.above[|above| + 1..] + [it.span])
    ensures above <= it.above && LeadsDown(ts, it.above[|above|..] + [it.span])
  {
    var path := it.above[|above|..] + [it.span];
    assert it.above[|above|] == ts[0].span;
    assert path[0] == ts[0].span && path[1..] == it.above[|above| + 1..] + [it.span];
  }

  lemma {:induction false} LaterTree(ts: seq<Tree>, path: seq<Span>)
    requires ts != [] && LeadsDown(ts[1..], path)
    ensures LeadsDown(ts, path)
  {
    var i :| 0 <= i < |ts[1..]| && ts[1..][i].span == path[0] && (|path| == 1 || LeadsDown(ts[1..][i].kids, path[1..]));
    assert ts[i + 1] == ts[1..][i];
  }

  // ---- Which nodes are taken ----

  /** The label of the nearest ancestor that names an agent, if that agent is looked for; with no such ancestor
      the label the search started with. */
  ghost predicate LabelIs(above: seq<Span>, cfg: Config, start: Option<string>, named: Option<string>) {
    || (named == start && forall i :: 0 <= i < |above| ==> above[i].agentName.None?)
    || exists i :: 0 <= i < |above| && above[i].agentName.Some?
                   && (forall j :: i < j < |above| ==> above[j].agentName.None?)
                   && named == if cfg.agentMatch.None? || cfg.agentMatch.value(above[i].agentName.value)
                               then above[i].agentName else None
  }

  lemma {:induction false} NearestIs(above: seq<Span>, cfg: Config, start: Option<string>)
    ensures LabelIs(above, cfg, start, NearestLabel(above, cfg, start))
  {
    if above != [] {
      var n := |above| - 1;
      if above[n].agentName.None? {
        var front := above[..n];
        NearestIs(front, cfg, start);
        assert forall i :: 0 <= i < n ==> front[i] == above[i];
      }
    }
  }

  /** Node number `k` may be taken when those at `at` were taken before it: its name matches, it has a label, no
      excluded reward is above it, its response id is new, and without one nothing above it was taken. */
  ghost predicate MayTake(items: seq<Item>, cfg: Config, q: Query, at: seq<nat>, k: nat, named: Option<string>)
    requires k < |items| && forall n :: 0 <= n < |at| ==> at[n] < |items|
  {
    var x, above := items[k].span, items[k].above;
    && cfg.llmMatch(x.name) && LabelIs(above, cfg, q.start, named) && named.Some?
    && (q.excludeReward ==> forall i :: 0 <= i < |above| ==> above[i].reward.None?)
    && (x.responseId.Some? ==> forall n :: 0 <= n < |at| ==> items[at[n]].span.responseId != x.responseId)
    && (x.responseId.None? && q.dedup ==>
          forall n, i :: 0 <= n < |at| && 0 <= i < |above| ==> items[at[n]].span.id != above[i].id)
  }

  /** The nodes at `at`, in order, are exactly those taken among the first `m`, and `calls` has them with their
      labels. */
  ghost predicate Taken(items: seq<Item>, cfg: Config, q: Query, m: nat, at: seq<nat>, calls: seq<Call>)
    requires m <= |items|
  {
    && |calls| == |at|
    && (forall n :: 0 <= n < |at| ==> at[n] < m && calls[n].0 == items[at[n]].span)
    && (forall n, l :: 0 <= n < l < |at| ==> at[n] < at[l])
    && (forall n :: 0 <= n < |at| ==> MayTake(items, cfg, q, at[..n], at[n], Some(calls[n].1)))
    && (forall k: nat, n: nat, named :: k < m && Between(at, n, k) ==> !MayTake(items, cfg, q, at[..n], k, named))
  }

  /** Position `k` is not one of `at` and lies after exactly the first `n` of them. */
  ghost predicate Between(at: seq<nat>, n: nat, k: nat) {
    n <= |at| && (n > 0 ==> at[n - 1] < k) && (n < |at| ==> k < at[n])
  }

  // ---- The scan takes them ----

  /** What the scan has noted when the nodes at `at` have been taken. */
  ghost predicate Noted(items: seq<Item>, at: seq<nat>, f: Found)
    requires forall n :: 0 <= n < |at| ==> at[n] < |items|
  {
    && (forall id :: id in f.seen <==> exists n :: 0 <= n < |at| && items[at[n]].span.responseId == Some(id))
    && (forall id :: id in f.taken <==> exists n :: 0 <= n < |at| && items[at[n]].span.id == id)
  }

  lemma TakesIs(items: seq<Item>, cfg: Config, q: Query, at: seq<nat>, k: nat, f: Found)
    requires k < |items| && (forall n :: 0 <= n < |at| ==> at[n] < |items|) && Noted(items, at, f)
    ensures Takes(items[k], cfg, q, f) ==> MayTake(items, cfg, q, at, k, NearestLabel(items[k].above, cfg, q.start))
    ensures !Takes(items[k], cfg, q, f) ==> forall named :: !MayTake(items, cfg, q, at, k, named)
  {
    var above := items[k].above;
    NearestIs(above, cfg, q.start);
    forall named | LabelIs(above, cfg, q.start, named)
      ensures named == NearestLabel(above, cfg, q.start)
    {
      LabelUnique(above, cfg, q.start, named);
    }
  }

  lemma {:induction false} LabelUnique(above: seq<Span>, cfg: Config, start: Option<string>, named: Option<string>)
    requires LabelIs(above, cfg, start, named)
    ensures named == NearestLabel(above, cfg, start)
  {
    if above != [] {
      var n := |above| - 1;
      if above[n].agentName.None? {
        var front := above[..n];
        assert forall i :: 0 <= i < n ==> front[i] == above[i];
        LabelUnique(front, cfg, start, named);
      }
    }
  }

  lemma TakenOne(items: seq<Item>, cfg: Config, q: Query, m: nat, at: seq<nat>, calls: seq<Call>, name: string)
    requires m < |items| && Taken(items, cfg, q, m, at, calls) && MayTake(items, cfg, q, at, m, Some(name))
    ensures Taken(items, cfg, q, m + 1, at + [m], calls + [(items[m].span, name)])
  {
    var more := at + [m];
    assert forall n :: 0 <= n <= |at| ==> more[..n] == at[..n];
    assert at[..|at|] == at;
    forall k: nat, n: nat, named | k < m + 1 && Between(more, n, k)
      ensures !MayTake(items, cfg, q, more[..n], k, named)
    {
      assert n <= |at| && Between(at, n, k);
    }
  }

  lemma TakenNone(items: seq<Item>, cfg: Config, q: Query, m: nat, at: seq<nat>, calls: seq<Call>)
    requires m < |items| && Taken(items, cfg, q, m, at, calls)
    requires forall named :: !MayTake(items, cfg, q, at, m, named)
    ensures Taken(items, cfg, q, m + 1, at, calls)
  {
    assert at[..|at|] == at;
    forall k: nat, n: nat, named | k < m + 1 && Between(at, n, k)
      ensures !MayTake(items, cfg, q, at[..n], k, named)
    {
      assert k == m ==> n == |at|;
    }
  }

  lemma NotedOne(items: seq<Item>, at: seq<nat>, f: Found, m: nat, name: string)
    requires m < |items| && (forall n :: 0 <= n < |at| ==> at[n] < |items|) && Noted(items, at, f)
    ensures forall n :: 0 <= n < |at + [m]| ==> (at + [m])[n] < |items|
    ensures Noted(items, at + [m],
                  Found(f.calls + [(items[m].span, name)], FindCalls.Noted(items[m].span, true, f.seen),
                        f.taken + {items[m].span.id}))
  {
    var more, x := at + [m], items[m].span;
    assert more[|at|] == m && forall n :: 0 <= n < |at| ==> more[n] == at[n];
    forall id | id in f.seen || x.responseId == Some(id)
      ensures exists n :: 0 <= n < |more| && items[more[n]].span.responseId == Some(id)
    {
      if id in f.seen {
        var n :| 0 <= n < |at| && items[at[n]].span.responseId == Some(id);
        assert items[more[n]].span.responseId == Some(id);
      }
    }
    forall id | id in f.taken || x.id == id
      ensures exists n :: 0 <= n < |more| && items[more[n]].span.id == id
    {
      if id in f.taken {
        var n :| 0 <= n < |at| && items[at[n]].span.id == id;
        assert items[more[n]].span.id == id;
      }
    }
  }

  lemma ScanStep(items: seq<Item>, cfg: Config, q: Query, f: Found, m: nat)
    requires m < |items|
    ensures var g := Scan(items[..m], cfg, q, f);
            Scan(items[..m + 1], cfg, q, f) ==
            if !Takes(items[m], cfg, q, g) then g
            else Found(g.calls + [(items[m].span, NearestLabel(items[m].above, cfg, q.start).value)],
                       FindCalls.Noted(items[m].span, true, g.seen), g.taken + {items[m].span.id})
  {
    assert items[..m + 1] == items[..m] + [items[m]] && [items[m]][1..] == [];
    ScanAppend(items[..m], [items[m]], cfg, q, f);
  }

  lemma {:induction false} ScanTaken(items: seq<Item>, cfg: Config, q: Query, m: nat) returns (at: seq<nat>)
    requires m <= |items|
    ensures Taken(items, cfg, q, m, at, Scan(items[..m], cfg, q, Found([], {}, {})).calls)
    ensures Noted(items, at, Scan(items[..m], cfg, q, Found([], {}, {})))
  {
    at := [];
    if m > 0 {
      at := ScanTaken(items, cfg, q, m - 1);
      var f := Scan(items[..m - 1], cfg, q, Found([], {}, {}));
      ScanStep(items, cfg, q, Found([], {}, {}), m - 1);
      TakesIs(items, cfg, q, at, m - 1, f);
      if Takes(items[m - 1], cfg, q, f) {
        var name := NearestLabel(items[m - 1].above, cfg, q.start).value;
        TakenOne(items, cfg, q, m - 1, at, f.calls, name);
        NotedOne(items, at, f, m - 1, name);
        at := at + [m - 1];
      } else {
        TakenNone(items, cfg, q, m - 1, at, f.calls);
      }
    }
  }

  /** The search of a tree: `items` are its nodes with their ancestors, and the calls are those at `at`. */
  lemma FindTakes(t: Tree, cfg: Config, q: Query) returns (items: seq<Item>, at: seq<nat>)
    requires DistinctIds(Bag([t]))
    ensures WithAncestors([t], [], items)
    ensures Taken(items, cfg, q, |items|, at,
                  Collect([t], cfg, Within(q.start, if q.excludeReward then Some(false) else None,
                                           if q.dedup then Some(false) else None), {}).0)
  {
    items := Flat([t], []);
    FlatIsTraversal([t], []);
    FindIsScan(t, cfg, q);
    at := ScanTaken(items, cfg, q, |items|);
    assert items[..|items|] == items;
  }
}
