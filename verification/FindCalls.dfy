/** `TraceTree.find_llm_calls`: state passed down the tree and one set of response ids shared by the
    whole search, against a flat scan of the traversal. */
module FindCalls {
  import opened Basics
  import opened Spans

  /** The regular expressions are arbitrary tests on names. */
  datatype Config = Config(llmMatch: string -> bool, agentMatch: Option<string -> bool>)

  /** A call and the label of the agent subtree it was found in. */
  type Call = (Span, string)

  /** The state handed down to a node; `None` switches the reward or nesting check off. */
  datatype Within = Within(agent: Option<string>, reward: Option<bool>, call: Option<bool>)

  predicate IsCall(x: Span, cfg: Config, w: Within, seen: set<string>) {
    && w.agent.Some? && w.reward != Some(true)
    && cfg.llmMatch(x.name)
    && (x.responseId.None? ==> w.call != Some(true))
    && (x.responseId.Some? ==> x.responseId.value !in seen)
  }

  function Label(x: Span, cfg: Config, agent: Option<string>): Option<string> {
    if x.agentName.None? then agent
    else if cfg.agentMatch.None? || cfg.agentMatch.value(x.agentName.value) then x.agentName
    else None
  }

  function Down(x: Span, cfg: Config, w: Within, took: bool): Within {
    Within(Label(x, cfg, w.agent),
           if w.reward.Some? && x.reward.Some? then Some(true) else w.reward,
           if took && w.call.Some? then Some(true) else w.call)
  }

  function Noted(x: Span, took: bool, seen: set<string>): set<string> {
    if took && x.responseId.Some? then seen + {x.responseId.value} else seen
  }

  /** The recursive search of sibling trees: the calls found and the ids seen afterwards. */
  function Collect(ts: seq<Tree>, cfg: Config, w: Within, seen: set<string>): (seq<Call>, set<string>)
    decreases ts
  {
    if ts == [] then ([], seen)
    else
      var x := ts[0].span;
      var took := IsCall(x, cfg, w, seen);
      var below := Collect(ts[0].kids, cfg, Down(x, cfg, w, took), Noted(x, took, seen));
      var rest := Collect(ts[1..], cfg, w, below.1);
      ((if took then [(x, w.agent.value)] else []) + below.0 + rest.0, rest.1)
  }

  /** The search of one tree without a set of response ids: a call that is taken starts a set of its own,
      which the search below it shares; otherwise each subtree is searched without one. */
  function Outermost(t: Tree, cfg: Config, w: Within): seq<Call>
    decreases t, 0
  {
    var x := t.span;
    if IsCall(x, cfg, w, {}) then
      [(x, w.agent.value)] + Collect(t.kids, cfg, Down(x, cfg, w, true), Noted(x, true, {})).0
    else CollectAlone(t.kids, cfg, Down(x, cfg, w, false))
  }

  function CollectAlone(ts: seq<Tree>, cfg: Config, w: Within): seq<Call>
    decreases ts, 1
  {
    if ts == [] then [] else Outermost(ts[0], cfg, w) + CollectAlone(ts[1..], cfg, w)
  }

  /** The search with a set of response ids or without one. */
  function Search(ts: seq<Tree>, cfg: Config, w: Within, seen: Option<set<string>>): (seq<Call>, Option<set<string>>) {
    if seen.None? then (CollectAlone(ts, cfg, w), None)
    else
      var c := Collect(ts, cfg, w, seen.value);
      (c.0, Some(c.1))
  }

  function IdsIn(seen: Option<set<string>>): set<string> {
    if seen.None? then {} else seen.value
  }

  lemma CollectOne(t: Tree, cfg: Config, w: Within, seen: set<string>)
    ensures var took := IsCall(t.span, cfg, w, seen);
            var below := Collect(t.kids, cfg, Down(t.span, cfg, w, took), Noted(t.span, took, seen));
            Collect([t], cfg, w, seen) == ((if took then [(t.span, w.agent.value)] else []) + below.0, below.1)
  {
    assert [t][1..] == [];
    var took := IsCall(t.span, cfg, w, seen);
    var below := Collect(t.kids, cfg, Down(t.span, cfg, w, took), Noted(t.span, took, seen));
    NothingBefore((if took then [(t.span, w.agent.value)] else []) + below.0);
  }

  // ---- The flat scan ----

  /** A node of the traversal with its proper ancestors, outermost first. */
  datatype Item = Item(span: Span, above: seq<Span>)

  function Flat(ts: seq<Tree>, above: seq<Span>): seq<Item>
    decreases ts
  {
    if ts == [] then []
    else [Item(ts[0].span, above)] + Flat(ts[0].kids, above + [ts[0].span]) + Flat(ts[1..], above)
  }

  /** What the scan looks for: the start label and which checks are on. */
  datatype Query = Query(start: Option<string>, excludeReward: bool, dedup: bool)

  /** The label of the nearest labelled ancestor, if that agent matches; the start label if none is
      labelled. */
  function NearestLabel(above: seq<Span>, cfg: Config, start: Option<string>): Option<string> {
    if above == [] then start
    else
      var x := above[|above| - 1];
      if x.agentName.None? then NearestLabel(above[..|above| - 1], cfg, start)
      else if cfg.agentMatch.None? || cfg.agentMatch.value(x.agentName.value) then x.agentName
      else None
  }

  predicate RewardAbove(above: seq<Span>) {
    exists i :: 0 <= i < |above| && above[i].reward.Some?
  }

  predicate TakenAbove(above: seq<Span>, taken: set<string>) {
    exists i :: 0 <= i < |above| && above[i].id in taken
  }

  datatype Found = Found(calls: seq<Call>, seen: set<string>, taken: set<string>)

  /** A node is taken iff its name matches, it has a label, no excluded reward span is above it, its
      response id is new, and, if it has none, no taken node is above it. */
  predicate Takes(it: Item, cfg: Config, q: Query, f: Found) {
    && cfg.llmMatch(it.span.name)
    && NearestLabel(it.above, cfg, q.start).Some?
    && !(q.excludeReward && RewardAbove(it.above))
    && match it.span.responseId
       case Some(id) => id !in f.seen
       case None => !(q.dedup && TakenAbove(it.above, f.taken))
  }

  function Scan(items: seq<Item>, cfg: Config, q: Query, f: Found): Found {
    if items == [] then f
    else
      var it := items[0];
      Scan(items[1..], cfg, q,
           if !Takes(it, cfg, q, f) then f
           else Found(f.calls + [(it.span, NearestLabel(it.above, cfg, q.start).value)],
                      Noted(it.span, true, f.seen), f.taken + {it.span.id}))
  }

  lemma {:induction false} ScanAppend(a: seq<Item>, b: seq<Item>, cfg: Config, q: Query, f: Found)
    ensures Scan(a + b, cfg, q, f) == Scan(b, cfg, q, Scan(a, cfg, q, f))
  {
    if a == [] {
      assert a + b == b;
    } else {
      assert (a + b)[1..] == a[1..] + b;
      var it := a[0];
      var g := if !Takes(it, cfg, q, f) then f
               else Found(f.calls + [(it.span, NearestLabel(it.above, cfg, q.start).value)],
                          Noted(it.span, true, f.seen), f.taken + {it.span.id});
      ScanAppend(a[1..], b, cfg, q, g);
    }
  }

  /** What the recursion hands down below the nodes `above` when `taken` have been taken. */
  function State(above: seq<Span>, cfg: Config, q: Query, taken: set<string>): Within {
    Within(NearestLabel(above, cfg, q.start),
           if q.excludeReward then Some(RewardAbove(above)) else None,
           if q.dedup then Some(TakenAbove(above, taken)) else None)
  }

  ghost predicate Fresh(m: multiset<Span>, ids: set<string>) {
    forall x :: x in m ==> x.id !in ids
  }

  function IdSet(ss: seq<Span>): set<string> {
    set i | 0 <= i < |ss| :: ss[i].id
  }

  /** Every id new in `after` belongs to a node of `m`. */
  ghost predicate TakenFrom(m: multiset<Span>, before: set<string>, after: set<string>) {
    before <= after && forall id :: id in after && id !in before ==> HasId(m, id)
  }

  /** The state below a node is the state of the longer list of ancestors. */
  lemma DownIsState(x: Span, above: seq<Span>, cfg: Config, q: Query, taken: set<string>, took: bool)
    requires x.id !in taken && x.id !in IdSet(above)
    ensures Down(x, cfg, State(above, cfg, q, taken), took) ==
            State(above + [x], cfg, q, if took then taken + {x.id} else taken)
  {
    var longer := above + [x];
    var after := if took then taken + {x.id} else taken;
    assert longer[..|above|] == above && longer[|above|] == x;
    assert RewardAbove(longer) <==> RewardAbove(above) || x.reward.Some? by {
      assert forall i :: 0 <= i < |above| ==> longer[i] == above[i];
    }
    assert TakenAbove(longer, after) <==> TakenAbove(above, taken) || took by {
      assert forall i :: 0 <= i < |above| ==> longer[i] == above[i] && above[i].id in IdSet(above);
    }
  }

  lemma StateSame(above: seq<Span>, cfg: Config, q: Query, before: set<string>, after: set<string>)
    requires forall id :: id in IdSet(above) ==> (id in before <==> id in after)
    ensures State(above, cfg, q, before) == State(above, cfg, q, after)
  {
    assert forall i :: 0 <= i < |above| ==> above[i].id in IdSet(above);
  }

  /** The recursive search finds the calls of the flat scan, in the same order with the same labels. */
  lemma {:induction false} CollectIsScan(ts: seq<Tree>, above: seq<Span>, cfg: Config, q: Query, f: Found)
    requires DistinctIds(Bag(ts)) && Fresh(Bag(ts), f.taken) && Fresh(Bag(ts), IdSet(above))
    ensures Agree(Bag(ts), Collect(ts, cfg, State(above, cfg, q, f.taken), f.seen), f, Scan(Flat(ts, above), cfg, q, f))
    decreases ts
  {
    if ts != [] {
      var t, x, rest := ts[0], ts[0].span, ts[1..];
      var b, c := Bag(t.kids), Bag(rest);
      var f1 := Scan([Item(x, above)], cfg, q, f);
      var f2 := Scan(Flat(t.kids, above + [x]), cfg, q, f1);
      var g := Scan(Flat(rest, above), cfg, q, f2);
      FreshParts(x, b, c, f.taken, above);
      FirstItem(x, above, cfg, q, f);
      DownIsState(x, above, cfg, q, f.taken, IsCall(x, cfg, State(above, cfg, q, f.taken), f.seen));
      CollectIsScan(t.kids, above + [x], cfg, q, f1);
      FreshRest(x, b, c, f.taken, f1.taken, f2.taken);
      StateKept(multiset{x} + b, above, cfg, q, f.taken, f2.taken);
      CollectIsScan(rest, above, cfg, q, f2);
      TakenFromBoth(multiset{x} + b, c, f.taken, f2.taken, g.taken);
      AgreeHead(ts, cfg, State(above, cfg, q, f.taken), f, f1, f2, g);
      FlatHead(ts, above, cfg, q, f);
    }
  }

  lemma AgreeHead(ts: seq<Tree>, cfg: Config, w: Within, f: Found, f1: Found, f2: Found, g: Found)
    requires ts != []
    requires var took := IsCall(ts[0].span, cfg, w, f.seen);
             && f1.calls == f.calls + (if took then [(ts[0].span, w.agent.value)] else [])
             && f1.seen == Noted(ts[0].span, took, f.seen)
             && f2.calls == f1.calls + Collect(ts[0].kids, cfg, Down(ts[0].span, cfg, w, took), f1.seen).0
             && f2.seen == Collect(ts[0].kids, cfg, Down(ts[0].span, cfg, w, took), f1.seen).1
    requires g.calls == f2.calls + Collect(ts[1..], cfg, w, f2.seen).0
    requires g.seen == Collect(ts[1..], cfg, w, f2.seen).1
    ensures g.calls == f.calls + Collect(ts, cfg, w, f.seen).0 && g.seen == Collect(ts, cfg, w, f.seen).1
  {
    var x := ts[0].span;
    var took := IsCall(x, cfg, w, f.seen);
    var own: seq<Call> := if took then [(x, w.agent.value)] else [];
    var below := Collect(ts[0].kids, cfg, Down(x, cfg, w, took), Noted(x, took, f.seen));
    var rest := Collect(ts[1..], cfg, w, below.1);
    assert Collect(ts, cfg, w, f.seen) == (own + below.0 + rest.0, rest.1);
    Assoc(f.calls, own, below.0, rest.0);
  }

  lemma Assoc<T>(a: seq<T>, b: seq<T>, c: seq<T>, d: seq<T>)
    ensures a + (b + c + d) == a + b + c + d
  {
  }

  /** A search that found `c` matches a scan that went from `f` to `g` over the nodes `m`. */
  ghost predicate Agree(m: multiset<Span>, c: (seq<Call>, set<string>), f: Found, g: Found) {
    g.calls == f.calls + c.0 && g.seen == c.1 && TakenFrom(m, f.taken, g.taken)
  }

  lemma FlatHead(ts: seq<Tree>, above: seq<Span>, cfg: Config, q: Query, f: Found)
    requires ts != []
    ensures var f1 := Scan([Item(ts[0].span, above)], cfg, q, f);
            var f2 := Scan(Flat(ts[0].kids, above + [ts[0].span]), cfg, q, f1);
            Scan(Flat(ts, above), cfg, q, f) == Scan(Flat(ts[1..], above), cfg, q, f2)
  {
    var x := ts[0].span;
    var a, b, c := [Item(x, above)], Flat(ts[0].kids, above + [x]), Flat(ts[1..], above);
    assert Flat(ts, above) == a + (b + c);
    assert Scan(a + (b + c), cfg, q, f) == Scan(b + c, cfg, q, Scan(a, cfg, q, f)) by {
      ScanAppend(a, b + c, cfg, q, f);
    }
    assert Scan(b + c, cfg, q, Scan(a, cfg, q, f)) == Scan(c, cfg, q, Scan(b, cfg, q, Scan(a, cfg, q, f))) by {
      ScanAppend(b, c, cfg, q, Scan(a, cfg, q, f));
    }
  }

  lemma FreshParts(x: Span, b: multiset<Span>, c: multiset<Span>, taken: set<string>, above: seq<Span>)
    requires DistinctIds(multiset{x} + b + c)
    requires Fresh(multiset{x} + b + c, taken) && Fresh(multiset{x} + b + c, IdSet(above))
    ensures DistinctIds(b) && DistinctIds(c)
    ensures x.id !in taken && x.id !in IdSet(above)
    ensures Fresh(b, taken) && Fresh(b, taken + {x.id}) && Fresh(b, IdSet(above + [x])) && Fresh(c, IdSet(above))
  {
    DistinctSplit(multiset{x} + b, c);
    DistinctSplit(multiset{x}, b);
    assert x in multiset{x} && x in multiset{x} + b + c;
    assert forall y :: y in b || y in c ==> y in multiset{x} + b + c;
    assert IdSet(above + [x]) <= IdSet(above) + {x.id};
  }

  lemma FreshRest(x: Span, b: multiset<Span>, c: multiset<Span>,
                  before: set<string>, first: set<string>, after: set<string>)
    requires DistinctIds(multiset{x} + b + c) && Fresh(multiset{x} + b + c, before)
    requires first == before || first == before + {x.id}
    requires TakenFrom(b, first, after)
    ensures TakenFrom(multiset{x} + b, before, after) && Fresh(c, after)
  {
    DistinctSplit(multiset{x} + b, c);
    assert x in multiset{x} + b;
    assert forall y :: y in b ==> y in multiset{x} + b;
    assert forall y :: y in c ==> y in multiset{x} + b + c;
  }

  lemma StateKept(m: multiset<Span>, above: seq<Span>, cfg: Config, q: Query, before: set<string>, after: set<string>)
    requires Fresh(m, IdSet(above)) && TakenFrom(m, before, after)
    ensures State(above, cfg, q, before) == State(above, cfg, q, after)
  {
    StateSame(above, cfg, q, before, after);
  }

  lemma TakenFromBoth(a: multiset<Span>, b: multiset<Span>, before: set<string>, mid: set<string>, after: set<string>)
    requires TakenFrom(a, before, mid) && TakenFrom(b, mid, after)
    ensures TakenFrom(a + b, before, after)
  {
    assert forall x :: x in a || x in b ==> x in a + b;
  }

  lemma FirstItem(x: Span, above: seq<Span>, cfg: Config, q: Query, f: Found)
    ensures var w := State(above, cfg, q, f.taken);
            var took := IsCall(x, cfg, w, f.seen);
            Scan([Item(x, above)], cfg, q, f) ==
            Found(f.calls + (if took then [(x, w.agent.value)] else []), Noted(x, took, f.seen),
                  if took then f.taken + {x.id} else f.taken)
  {
    var it := Item(x, above);
    assert [it][1..] == [];
    assert Takes(it, cfg, q, f) <==> IsCall(x, cfg, State(above, cfg, q, f.taken), f.seen);
  }

  /** `find_llm_calls` as `to_trajectory` calls it. */
  lemma FindIsScan(t: Tree, cfg: Config, q: Query)
    requires DistinctIds(Bag([t]))
    ensures Collect([t], cfg, Within(q.start, if q.excludeReward then Some(false) else None,
                                     if q.dedup then Some(false) else None), {}).0
            == Scan(Flat([t], []), cfg, q, Found([], {}, {})).calls
  {
    assert State([], cfg, q, {}) == Within(q.start, if q.excludeReward then Some(false) else None,
                                           if q.dedup then Some(false) else None);
    CollectIsScan([t], [], cfg, q, Found([], {}, {}));
  }

  // ---- Response ids ----

  /** The response ids on nodes whose name matches. */
  ghost function MatchIds(m: multiset<Span>, cfg: Config): set<string> {
    set x | x in m && cfg.llmMatch(x.name) && x.responseId.Some? :: x.responseId.value
  }

  /** The response ids of the calls found, in order. */
  function ResponseIds(calls: seq<Call>): seq<string> {
    if calls == [] then []
    else (if calls[0].0.responseId.Some? then [calls[0].0.responseId.value] else []) + ResponseIds(calls[1..])
  }

  ghost predicate EachOnce(ids: seq<string>, s: set<string>) {
    NoDup(ids) && forall id :: id in ids <==> id in s
  }

  lemma {:induction false} ResponseIdsAppend(a: seq<Call>, b: seq<Call>)
    ensures ResponseIds(a + b) == ResponseIds(a) + ResponseIds(b)
  {
    if a == [] {
      assert a + b == b;
    } else {
      assert (a + b)[1..] == a[1..] + b;
      ResponseIdsAppend(a[1..], b);
    }
  }

  /** With every agent accepted and rewards not excluded, the search returns exactly the new response
      ids on matching names, each once, however deep their nodes are. */
  lemma {:induction false} CollectIds(ts: seq<Tree>, cfg: Config, w: Within, seen: set<string>)
    requires cfg.agentMatch.None? && w.agent.Some? && w.reward.None?
    ensures FindsNew(Bag(ts), cfg, Collect(ts, cfg, w, seen), seen)
    decreases ts
  {
    if ts != [] {
      var x := ts[0].span;
      var took := IsCall(x, cfg, w, seen);
      var noted := Noted(x, took, seen);
      var below := Collect(ts[0].kids, cfg, Down(x, cfg, w, took), noted);
      CollectIds(ts[0].kids, cfg, Down(x, cfg, w, took), noted);
      CollectIds(ts[1..], cfg, w, below.1);
      var own: seq<Call> := if took then [(x, w.agent.value)] else [];
      OwnIds(x, cfg, w, seen);
      FindsThree(multiset{x}, Bag(ts[0].kids), Bag(ts[1..]), cfg, seen, (own, noted), below,
                 Collect(ts[1..], cfg, w, below.1));
    }
  }

  /** A search over the nodes `m` that started from `seen` found exactly the new response ids. */
  ghost predicate FindsNew(m: multiset<Span>, cfg: Config, c: (seq<Call>, set<string>), seen: set<string>) {
    EachOnce(ResponseIds(c.0), MatchIds(m, cfg) - seen) && c.1 == seen + MatchIds(m, cfg)
  }

  lemma FindsThree(x: multiset<Span>, y: multiset<Span>, z: multiset<Span>, cfg: Config, seen: set<string>,
                   a: (seq<Call>, set<string>), b: (seq<Call>, set<string>), c: (seq<Call>, set<string>))
    requires FindsNew(x, cfg, a, seen) && FindsNew(y, cfg, b, a.1) && FindsNew(z, cfg, c, b.1)
    ensures FindsNew(x + y + z, cfg, (a.0 + b.0 + c.0, c.1), seen)
  {
    ThreeParts(a.0, b.0, c.0, seen, MatchIds(x, cfg), MatchIds(y, cfg), MatchIds(z, cfg));
    MatchIdsParts(x, y, z, cfg);
  }

  /** Three searches one after the other, each told what the ones before it have seen. */
  lemma ThreeParts(a: seq<Call>, b: seq<Call>, c: seq<Call>, seen: set<string>,
                   x: set<string>, y: set<string>, z: set<string>)
    requires EachOnce(ResponseIds(a), x - seen)
    requires EachOnce(ResponseIds(b), y - (seen + x))
    requires EachOnce(ResponseIds(c), z - (seen + x + y))
    ensures EachOnce(ResponseIds(a + b + c), x + y + z - seen)
  {
    ResponseIdsAppend(a + b, c);
    ResponseIdsAppend(a, b);
    NoDupConcat(ResponseIds(a), ResponseIds(b));
    NoDupConcat(ResponseIds(a) + ResponseIds(b), ResponseIds(c));
  }

  lemma OwnIds(x: Span, cfg: Config, w: Within, seen: set<string>)
    requires w.agent.Some? && w.reward.None?
    ensures var took := IsCall(x, cfg, w, seen);
            FindsNew(multiset{x}, cfg, (if took then [(x, w.agent.value)] else [], Noted(x, took, seen)), seen)
  {
    if IsCall(x, cfg, w, seen) {
      var own: seq<Call> := [(x, w.agent.value)];
      assert own[1..] == [];
      assert ResponseIds(own) == if x.responseId.Some? then [x.responseId.value] else [];
    }
    assert MatchIds(multiset{x}, cfg) ==
           if cfg.llmMatch(x.name) && x.responseId.Some? then {x.responseId.value} else {};
  }

  lemma MatchIdsParts(a: multiset<Span>, b: multiset<Span>, c: multiset<Span>, cfg: Config)
    ensures MatchIds(a + b + c, cfg) == MatchIds(a, cfg) + MatchIds(b, cfg) + MatchIds(c, cfg)
  {
    forall id | id in MatchIds(a, cfg) + MatchIds(b, cfg) + MatchIds(c, cfg)
      ensures id in MatchIds(a + b + c, cfg)
    {
      var x :| (x in a || x in b || x in c) && cfg.llmMatch(x.name) && x.responseId == Some(id);
      assert x in a + b + c;
    }
  }

  /** The response ids found in a tree, with any agent and with rewards not excluded. */
  lemma FindIds(t: Tree, cfg: Config, dedup: bool)
    requires cfg.agentMatch.None?
    ensures EachOnce(ResponseIds(Collect([t], cfg, Within(Some("*"), None, if dedup then Some(false) else None), {}).0),
                     MatchIds(Bag([t]), cfg))
  {
    CollectIds([t], cfg, Within(Some("*"), None, if dedup then Some(false) else None), {});
    assert MatchIds(Bag([t]), cfg) - {} == MatchIds(Bag([t]), cfg);
  }

  // ---- Without a set of response ids ----

  /** For each outermost node whose name matches, the response ids on matching names from there on down. */
  ghost function TopIds(ts: seq<Tree>, cfg: Config): seq<set<string>>
    decreases ts
  {
    if ts == [] then []
    else (if cfg.llmMatch(ts[0].span.name) then [MatchIds(Bag([ts[0]]), cfg)] else TopIds(ts[0].kids, cfg))
         + TopIds(ts[1..], cfg)
  }

  ghost predicate PairwiseDisjoint(sets: seq<set<string>>) {
    forall i, j :: 0 <= i < j < |sets| ==> sets[i] !! sets[j]
  }

  ghost predicate InSome(sets: seq<set<string>>, id: string) {
    exists k :: 0 <= k < |sets| && id in sets[k]
  }

  lemma InEither(x: seq<set<string>>, y: seq<set<string>>)
    ensures forall id :: InSome(x + y, id) <==> InSome(x, id) || InSome(y, id)
  {
    var all := x + y;
    assert forall k :: 0 <= k < |x| ==> all[k] == x[k];
    assert forall k :: 0 <= k < |y| ==> all[|x| + k] == y[k];
  }

  /** `ids` lists the members of the sets, without repetition exactly if the sets are disjoint. */
  ghost predicate Spells(ids: seq<string>, sets: seq<set<string>>) {
    && (forall id :: id in ids <==> InSome(sets, id))
    && (NoDup(ids) <==> PairwiseDisjoint(sets))
  }

  lemma DisjointBoth(x: seq<set<string>>, y: seq<set<string>>)
    ensures PairwiseDisjoint(x + y) <==>
            PairwiseDisjoint(x) && PairwiseDisjoint(y) && forall id :: InSome(x, id) ==> !InSome(y, id)
  {
    var all := x + y;
    assert forall k :: 0 <= k < |x| ==> all[k] == x[k];
    assert forall k :: 0 <= k < |y| ==> all[|x| + k] == y[k];
    if PairwiseDisjoint(all) {
      forall id, k, l | 0 <= k < |x| && id in x[k] && 0 <= l < |y|
        ensures id !in y[l]
      {
        assert all[k] !! all[|x| + l];
      }
    } else {
      var i, j :| 0 <= i < j < |all| && !(all[i] !! all[j]);
      var id :| id in all[i] && id in all[j];
      if i < |x| <= j {
        assert all[i] == x[i] && all[j] == y[j - |x|];
        assert InSome(x, id) && InSome(y, id);
      } else if |x| <= i {
        assert all[i] == y[i - |x|] && all[j] == y[j - |x|];
      }
    }
  }

  lemma NoDupBoth(a: seq<string>, b: seq<string>)
    ensures NoDup(a + b) <==> NoDup(a) && NoDup(b) && forall id :: id in a ==> id !in b
  {
    var all := a + b;
    assert forall i :: 0 <= i < |a| ==> all[i] == a[i];
    assert forall i :: 0 <= i < |b| ==> all[|a| + i] == b[i];
    if NoDup(all) {
      forall k, l | 0 <= k < |a| && 0 <= l < |b|
        ensures a[k] != b[l]
      {
        assert all[k] != all[|a| + l];
      }
    } else if NoDup(a) && NoDup(b) {
      var i, j :| 0 <= i < j < |all| && all[i] == all[j];
      assert i < |a| ==> all[i] in a;
    }
  }

  lemma SpellsBoth(a: seq<string>, x: seq<set<string>>, b: seq<string>, y: seq<set<string>>)
    requires Spells(a, x) && Spells(b, y)
    ensures Spells(a + b, x + y)
  {
    InEither(x, y);
    DisjointBoth(x, y);
    NoDupBoth(a, b);
  }

  lemma {:induction false} AloneSpells(ts: seq<Tree>, cfg: Config, w: Within)
    requires cfg.agentMatch.None? && w.agent.Some? && w.reward.None? && w.call != Some(true)
    ensures Spells(ResponseIds(CollectAlone(ts, cfg, w)), TopIds(ts, cfg))
    decreases ts
  {
    if ts != [] {
      var t, rest := ts[0], CollectAlone(ts[1..], cfg, w);
      var x := t.span;
      AloneSpells(ts[1..], cfg, w);
      ResponseIdsAppend(Outermost(t, cfg, w), rest);
      if cfg.llmMatch(x.name) {
        TopSpells(t, cfg, w);
        SpellsBoth(ResponseIds(Outermost(t, cfg, w)), [MatchIds(Bag([t]), cfg)],
                   ResponseIds(rest), TopIds(ts[1..], cfg));
      } else {
        AloneSpells(t.kids, cfg, Down(x, cfg, w, false));
        SpellsBoth(ResponseIds(Outermost(t, cfg, w)), TopIds(t.kids, cfg), ResponseIds(rest), TopIds(ts[1..], cfg));
      }
    }
  }

  lemma TopSpells(t: Tree, cfg: Config, w: Within)
    requires cfg.agentMatch.None? && w.agent.Some? && w.reward.None? && w.call != Some(true)
    requires cfg.llmMatch(t.span.name)
    ensures Spells(ResponseIds(Outermost(t, cfg, w)), [MatchIds(Bag([t]), cfg)])
  {
    var m := MatchIds(Bag([t]), cfg);
    CollectIds([t], cfg, w, {});
    CollectOne(t, cfg, w, {});
    assert m - {} == m;
    OneSet(ResponseIds(Outermost(t, cfg, w)), m);
  }

  lemma OneSet(ids: seq<string>, m: set<string>)
    requires EachOnce(ids, m)
    ensures Spells(ids, [m])
  {
    assert [m][0] == m;
  }

  lemma MatchIdsHead(ts: seq<Tree>, cfg: Config)
    requires ts != []
    ensures MatchIds(Bag(ts), cfg) == MatchIds(Bag([ts[0]]), cfg) + MatchIds(Bag(ts[1..]), cfg)
    ensures !cfg.llmMatch(ts[0].span.name) ==> MatchIds(Bag([ts[0]]), cfg) == MatchIds(Bag(ts[0].kids), cfg)
  {
    assert [ts[0]] + ts[1..] == ts;
    BagAppend([ts[0]], ts[1..]);
    MatchIdsBoth(Bag([ts[0]]), Bag(ts[1..]), cfg);
    OwnMatchIds(ts[0], cfg);
  }

  lemma MatchIdsBoth(a: multiset<Span>, b: multiset<Span>, cfg: Config)
    ensures MatchIds(a + b, cfg) == MatchIds(a, cfg) + MatchIds(b, cfg)
  {
    MatchIdsParts(a, b, multiset{}, cfg);
    assert a + b + multiset{} == a + b && MatchIds(multiset{}, cfg) == {};
  }

  lemma OwnMatchIds(t: Tree, cfg: Config)
    ensures !cfg.llmMatch(t.span.name) ==> MatchIds(Bag([t]), cfg) == MatchIds(Bag(t.kids), cfg)
  {
    assert [t][1..] == [] && Bag([]) == multiset{};
    assert Bag([t]) == multiset{t.span} + Bag(t.kids);
    MatchIdsBoth(multiset{t.span}, Bag(t.kids), cfg);
  }

  lemma {:induction false} TopIdsAll(ts: seq<Tree>, cfg: Config)
    ensures forall id :: InSome(TopIds(ts, cfg), id) <==> id in MatchIds(Bag(ts), cfg)
    decreases ts
  {
    if ts != [] {
      var x, kids, rest := ts[0].span, ts[0].kids, ts[1..];
      var own := if cfg.llmMatch(x.name) then [MatchIds(Bag([ts[0]]), cfg)] else TopIds(kids, cfg);
      TopIdsAll(rest, cfg);
      InEither(own, TopIds(rest, cfg));
      MatchIdsHead(ts, cfg);
      if cfg.llmMatch(x.name) {
        assert own[0] == MatchIds(Bag([ts[0]]), cfg);
      } else {
        TopIdsAll(kids, cfg);
      }
    }
  }

  /** Called without a set, with every agent accepted and rewards not excluded, the search finds each
      response id once if and only if no two outermost matching nodes have a response id in common. */
  lemma AloneOnceIff(ts: seq<Tree>, cfg: Config, w: Within)
    requires cfg.agentMatch.None? && w.agent.Some? && w.reward.None? && w.call != Some(true)
    ensures NoDup(ResponseIds(CollectAlone(ts, cfg, w))) <==> PairwiseDisjoint(TopIds(ts, cfg))
    ensures forall id :: id in ResponseIds(CollectAlone(ts, cfg, w)) <==> id in MatchIds(Bag(ts), cfg)
  {
    AloneSpells(ts, cfg, w);
    TopIdsAll(ts, cfg);
  }
}
