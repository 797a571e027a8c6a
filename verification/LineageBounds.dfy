/** What the two bounds of a lineage request do to its answer: the result cap cuts a list, and the
    reported depth is the greatest depth there is, unless a type filter is in play. */
module LineageBounds {
  import opened Ordering
  import opened Lineage

  // ---- A capped answer is the beginning of the uncapped one ----

  ghost predicate Extends(s: Search, t: Search) {
    s.result <= t.result && s.edges <= t.edges
  }

  lemma {:induction false} FollowAllGrows(q: Query, s: Search, id: string, d: nat, ws: seq<string>)
    ensures Extends(s, FollowAll(q, s, id, d, ws))
    decreases |ws|
  {
    if ws != [] && !Full(q, s) {
      FollowAllGrows(q, FollowEdge(q, s, id, d, ws[0]), id, d, ws[1..]);
    }
  }

  lemma {:induction false} OutcomeGrows(q: Query, s: Search, reached: nat)
    requires Searching(q, Reached(q.g, q.root), s, reached)
    ensures s.result <= Outcome(q, s, reached).entities && s.edges <= Outcome(q, s, reached).edges
    decreases SlackOf(q, s), |s.queue|
  {
    hide Searching, Reached, SlackOf, Faithful, FollowAll;
    if s.queue != [] && !Full(q, s) {
      ExpandSearches(q, s, reached);
      var (id, d) := s.queue[0];
      FollowAllGrows(q, s.(queue := s.queue[1..]), id, d, Sort(StringLe, Related(q.g, id)));
      hide ExpandHead, Sort;
      OutcomeGrows(q, ExpandHead(q, s), Deeper(reached, d));
    }
  }

  /** Until the smaller cap is reached the two searches do the same. */
  lemma {:induction false} FollowAllCapped(q: Query, q': Query, s: Search, id: string, d: nat, ws: seq<string>)
    requires q' == q.(maxResults := q'.maxResults) && q.maxResults <= q'.maxResults
    ensures var t, t' := FollowAll(q, s, id, d, ws), FollowAll(q', s, id, d, ws);
            Extends(t, t') && (!Full(q, t) ==> t == t')
    decreases |ws|
  {
    if ws == [] {
    } else if Full(q, s) {
      FollowAllGrows(q', s, id, d, ws);
    } else {
      var t := FollowEdge(q, s, id, d, ws[0]);
      assert t == FollowEdge(q', s, id, d, ws[0]);
      hide FollowEdge;
      FollowAllCapped(q, q', t, id, d, ws[1..]);
    }
  }

  lemma ExpandCapped(q: Query, q': Query, s: Search)
    requires q' == q.(maxResults := q'.maxResults) && q.maxResults <= q'.maxResults && s.queue != []
    ensures var t, t' := ExpandHead(q, s), ExpandHead(q', s);
            Extends(t, t') && (!Full(q, t) ==> t == t')
  {
    var (id, d) := s.queue[0];
    hide FollowAll, Sort, Related;
    FollowAllCapped(q, q', s.(queue := s.queue[1..]), id, d, Sort(StringLe, Related(q.g, id)));
  }

  lemma {:induction false} OutcomeCapped(q: Query, q': Query, s: Search, reached: nat)
    requires q' == q.(maxResults := q'.maxResults) && q.maxResults <= q'.maxResults
    requires Searching(q, Reached(q.g, q.root), s, reached) && Searching(q', Reached(q.g, q.root), s, reached)
    ensures var r, r' := Outcome(q, s, reached), Outcome(q', s, reached);
            r.entities <= r'.entities && r.edges <= r'.edges
    decreases SlackOf(q, s), |s.queue|
  {
    hide Searching, Reached, SlackOf, Faithful, ExpandHead;
    if s.queue != [] && !Full(q, s) {
      var deeper := Deeper(reached, s.queue[0].1);
      var t, t' := ExpandHead(q, s), ExpandHead(q', s);
      ExpandSearches(q, s, reached);
      ExpandSearches(q', s, reached);
      ExpandCapped(q, q', s);
      if Full(q, t) {
        OutcomeGrows(q', t', deeper);
      } else {
        OutcomeCapped(q, q', t, deeper);
      }
    } else {
      OutcomeGrows(q', s, reached);
    }
  }

  lemma SameStart(q: Query, more: nat)
    ensures Start(q) == Start(q.(maxResults := more))
  {
  }

  lemma OutcomeStart(q: Query)
    requires q.maxResults > 0
    ensures Searching(q, Reached(q.g, q.root), Start(q), 0) && LineageOf(q) == Outcome(q, Start(q), 0)
  {
    StartSearching(q);
  }

  /** A cap keeps the first entities, with their edges, of the answer under any larger cap: as many
      as it allows, or all of them. */
  lemma CapKeepsPrefix(q: Query, more: nat)
    requires 0 < q.maxResults <= more
    ensures var r, r' := LineageOf(q), LineageOf(q.(maxResults := more));
            && |r.entities| == (if |r'.entities| < q.maxResults then |r'.entities| else q.maxResults)
            && r.entities == r'.entities[..|r.entities|]
            && |r'.edges| == |r'.entities| && r.edges == r'.edges[..|r.entities|]
  {
    hide Searching, Reached, Outcome, Start, Answer, LineageOf;
    var q' := q.(maxResults := more);
    OutcomeStart(q);
    OutcomeStart(q');
    assert Start(q) == Start(q') by { SameStart(q, more); }
    OutcomeCapped(q, q', Start(q), 0);
    var r, r' := LineageOf(q), LineageOf(q');
    var answer := Answer(q.g, q.root, q.maxDepth);
    DistinctCount(r.entities, answer);
    DistinctCount(r'.entities, answer);
  }

  // ---- The reported depth ----

  /** Every entity the graph lists was asked for, as without a type filter. */
  ghost predicate AllAsked(g: Graph) {
    forall id, w :: w in Related(g, id) ==> w in g.asked
  }

  lemma NoFilterAllAsked(related: map<string, seq<string>>, types: map<string, string>)
    ensures AllAsked(RequestGraph(related, types, []))
  {
  }

  /** The queue is in order of depth and holds no outdated entry, and nothing recorded is more than
      one level ahead. */
  ghost predicate Layered(s: Search, reached: nat) {
    && (forall e :: e in s.queue ==> e.0 in s.visited && s.visited[e.0] == e.1 && reached <= e.1)
    && (forall i, j :: 0 <= i < j < |s.queue| ==> s.queue[i].1 <= s.queue[j].1)
    && (forall v :: v in s.visited ==> s.visited[v] <= reached + 1)
    && exists v :: v in s.visited && s.visited[v] == reached
  }

  lemma FollowEdgeLayered(q: Query, s: Search, id: string, d: nat, w: string)
    requires Layered(s, d) && w in q.g.asked
    ensures Layered(FollowEdge(q, s, id, d, w), d)
  {
    var t := FollowEdge(q, s, id, d, w);
    if t != s {
      assert w !in s.visited;
      RelaxQueues(q, s, id, w, d + 1);
      hide FollowEdge, Relax;
      var v :| v in s.visited && s.visited[v] == d;
      assert v in t.visited && t.visited[v] == d;
      forall i, j | 0 <= i < j < |t.queue| ensures t.queue[i].1 <= t.queue[j].1 {
        assert t.queue[i] in s.queue;
        assert j < |s.queue| ==> t.queue[j] == s.queue[j];
      }
    }
  }

  lemma {:induction false} FollowAllLayered(q: Query, s: Search, id: string, d: nat, ws: seq<string>)
    requires Layered(s, d) && forall w :: w in ws ==> w in q.g.asked
    ensures Layered(FollowAll(q, s, id, d, ws), d)
    decreases |ws|
  {
    hide Layered, FollowEdge, Full;
    if ws != [] && !Full(q, s) {
      assert ws[0] in ws;
      FollowEdgeLayered(q, s, id, d, ws[0]);
      forall w | w in ws[1..] ensures w in q.g.asked { assert w in ws; }
      FollowAllLayered(q, FollowEdge(q, s, id, d, ws[0]), id, d, ws[1..]);
    }
  }

  lemma PopLayered(s: Search, reached: nat)
    requires Layered(s, reached) && s.queue != []
    ensures Layered(s.(queue := s.queue[1..]), s.queue[0].1) && reached <= s.queue[0].1
  {
    var t := s.(queue := s.queue[1..]);
    assert s.queue[0] in s.queue;
    forall e | e in t.queue ensures e in s.queue && s.queue[0].1 <= e.1 {
      var i :| 0 <= i < |t.queue| && t.queue[i] == e;
      assert s.queue[i + 1] == e;
    }
  }

  lemma ExpandLayered(q: Query, s: Search, reached: nat)
    requires Layered(s, reached) && s.queue != [] && AllAsked(q.g)
    ensures Layered(ExpandHead(q, s), Deeper(reached, s.queue[0].1))
  {
    var (id, d) := s.queue[0];
    var ws := Sort(StringLe, Related(q.g, id));
    SameElements(ws, Related(q.g, id));
    hide Layered, FollowAll, Sort;
    PopLayered(s, reached);
    FollowAllLayered(q, s.(queue := s.queue[1..]), id, d, ws);
  }

  /** The reported depth is the depth of something recorded. */
  ghost predicate ReportsDepth(r: Lineage) {
    exists v :: v in r.depths && r.depths[v] == r.depthReached
  }

  lemma LayeredReports(q: Query, s: Search, reached: nat)
    requires Layered(s, reached)
    ensures ReportsDepth(Report(q, s, reached))
  {
  }

  lemma {:induction false} OutcomeLayered(q: Query, s: Search, reached: nat)
    requires Searching(q, Reached(q.g, q.root), s, reached) && Layered(s, reached) && AllAsked(q.g)
    ensures ReportsDepth(Outcome(q, s, reached))
    decreases SlackOf(q, s), |s.queue|
  {
    hide Searching, Reached, SlackOf, Faithful, ExpandHead, AllAsked, Layered, ReportsDepth;
    if s.queue != [] && !Full(q, s) {
      ExpandSearches(q, s, reached);
      ExpandLayered(q, s, reached);
      OutcomeLayered(q, ExpandHead(q, s), Deeper(reached, s.queue[0].1));
    } else {
      LayeredReports(q, s, reached);
    }
  }

  /** Without a filter, and whenever every listed entity was asked for, the reported depth is the
      depth of some entity; with `Faithful`, the greatest least depth of an untruncated answer. */
  lemma DepthReachedIsDepth(q: Query)
    requires q.maxResults > 0 && AllAsked(q.g)
    ensures var r := LineageOf(q);
            && ReportsDepth(r)
            && (!r.truncated ==>
                  && (exists v :: IsDepth(q.g, q.root, v, r.depthReached))
                  && forall v, d: nat :: d <= q.maxDepth && IsDepth(q.g, q.root, v, d) ==> d <= r.depthReached)
  {
    StartSearching(q);
    hide Searching, Reached, Outcome, ReachesAt;
    assert Start(q).visited[q.root] == 0;
    OutcomeLayered(q, Start(q), 0);
    var r := LineageOf(q);
    if !r.truncated {
      forall v, d: nat | d <= q.maxDepth && IsDepth(q.g, q.root, v, d) ensures d <= r.depthReached {
        DepthIsRecorded(q, v, d);
      }
    }
  }

  // ---- With a filter the reported depth can be too great ----

  /** Two ways lead from r to v: one over the asked-for a, and a longer one over x and y, which were
      not asked for and so cost nothing. */
  const DETOUR: Graph := Graph(map["r" := ["a", "x"], "a" := ["v"], "x" := ["y"], "y" := ["v"]], {"a", "v"})

  /** A query from r down the detour, with bounds that leave room for two levels and two entities. */
  predicate IsDetour(q: Query) {
    q.g == DETOUR && q.root == "r" && !q.upstream && q.maxDepth >= 2 && q.maxResults >= 3
  }

  function State(visited: map<string, nat>, queue: seq<(string, nat)>, n: nat): Search {
    if n == 0 then Search(visited, queue, [], [])
    else if n == 1 then Search(visited, queue, ["a"], [("r", "a")])
    else Search(visited, queue, ["a", "v"], [("r", "a"), ("a", "v")])
  }

  lemma DetourSorts()
    ensures Sort(StringLe, Related(DETOUR, "r")) == ["a"] + ["x"]
    ensures Sort(StringLe, Related(DETOUR, "a")) == ["v"]
    ensures Sort(StringLe, Related(DETOUR, "x")) == ["y"]
    ensures Sort(StringLe, Related(DETOUR, "y")) == ["v"]
    ensures Sort(StringLe, Related(DETOUR, "v")) == []
  {
    hide Sort, Related;
    DetourRelated();
    SortTwo();
    SortOne("v");
    SortOne("y");
    SortNothing(StringLe);
  }

  lemma DetourRelated()
    ensures Related(DETOUR, "r") == ["a"] + ["x"]
    ensures Related(DETOUR, "a") == ["v"] && Related(DETOUR, "x") == ["y"] && Related(DETOUR, "y") == ["v"]
    ensures Related(DETOUR, "v") == []
  {
    assert DETOUR.related["r"] == ["a"] + ["x"];
  }

  lemma SortOne(x: string)
    ensures Sort(StringLe, [x]) == [x]
  {
  }

  lemma SortTwo()
    ensures Sort(StringLe, ["a"] + ["x"]) == ["a"] + ["x"]
  {
    assert StringLe("a", "x");
    SortOne("x");
    hide Sort, StringLe;
    SortCons(StringLe, "a", ["x"]);
    assert Insert(StringLe, "a", ["x"]) == ["a"] + ["x"];
  }

  lemma FollowOne(q: Query, s: Search, id: string, d: nat, w: string)
    requires !Full(q, s)
    ensures FollowAll(q, s, id, d, [w]) == FollowEdge(q, s, id, d, w)
  {
    assert [w][1..] == [];
  }

  lemma FollowTwo(q: Query, s: Search, id: string, d: nat, w: string, x: string)
    requires !Full(q, s) && !Full(q, FollowEdge(q, s, id, d, w))
    ensures FollowAll(q, s, id, d, [w] + [x]) == FollowEdge(q, FollowEdge(q, s, id, d, w), id, d, x)
  {
    assert ([w] + [x])[1..] == [x];
    FollowOne(q, FollowEdge(q, s, id, d, w), id, d, x);
  }

  lemma DetourRoot(q: Query)
    requires IsDetour(q)
    ensures ExpandHead(q, Start(q))
         == State(map["r" := 0, "a" := 1, "x" := 0], [("a", 1), ("x", 0)], 1)
  {
    hide Sort, FollowAll, Related;
    DetourSorts();
    var s := State(map["r" := 0], [], 0);
    assert Start(q).queue[1..] == [];
    FollowTwo(q, s, "r", 0, "a", "x");
    assert FollowEdge(q, s, "r", 0, "a") == State(map["r" := 0, "a" := 1], [("a", 1)], 1);
  }

  lemma DetourEarly(q: Query)
    requires IsDetour(q)
    ensures ExpandHead(q, State(map["r" := 0, "a" := 1, "x" := 0], [("a", 1), ("x", 0)], 1))
         == State(map["r" := 0, "a" := 1, "x" := 0, "v" := 2], [("x", 0), ("v", 2)], 2)
    ensures ExpandHead(q, State(map["r" := 0, "a" := 1, "x" := 0, "v" := 2], [("x", 0), ("v", 2)], 2))
         == State(map["r" := 0, "a" := 1, "x" := 0, "v" := 2, "y" := 0], [("v", 2), ("y", 0)], 2)
  {
    hide Sort, FollowAll, Related;
    DetourSorts();
    var s := State(map["r" := 0, "a" := 1, "x" := 0], [("x", 0)], 1);
    assert [("a", 1), ("x", 0)][1..] == [("x", 0)];
    FollowOne(q, s, "a", 1, "v");
    var t := State(map["r" := 0, "a" := 1, "x" := 0, "v" := 2], [("v", 2)], 2);
    assert [("x", 0), ("v", 2)][1..] == [("v", 2)];
    FollowOne(q, t, "x", 0, "y");
  }

  lemma DetourLate(q: Query)
    requires IsDetour(q)
    ensures ExpandHead(q, State(map["r" := 0, "a" := 1, "x" := 0, "v" := 2, "y" := 0], [("v", 2), ("y", 0)], 2))
         == State(map["r" := 0, "a" := 1, "x" := 0, "v" := 2, "y" := 0], [("y", 0)], 2)
    ensures ExpandHead(q, State(map["r" := 0, "a" := 1, "x" := 0, "v" := 2, "y" := 0], [("y", 0)], 2))
         == State(map["r" := 0, "a" := 1, "x" := 0, "v" := 1, "y" := 0], [("v", 1)], 2)
    ensures ExpandHead(q, State(map["r" := 0, "a" := 1, "x" := 0, "v" := 1, "y" := 0], [("v", 1)], 2))
         == State(map["r" := 0, "a" := 1, "x" := 0, "v" := 1, "y" := 0], [], 2)
  {
    hide Sort, Related;
    DetourSorts();
    assert [("v", 2), ("y", 0)][1..] == [("y", 0)] && [("y", 0)][1..] == [] && [("v", 1)][1..] == [];
    var s := State(map["r" := 0, "a" := 1, "x" := 0, "v" := 2, "y" := 0], [], 2);
    FollowOne(q, s, "y", 0, "v");
    assert s.visited["v" := 1] == map["r" := 0, "a" := 1, "x" := 0, "v" := 1, "y" := 0];
  }

  /** One more expansion does not change the outcome. */
  lemma OutcomeStep(q: Query, s: Search, reached: nat, t: Search)
    requires Searching(q, Reached(q.g, q.root), s, reached) && s.queue != [] && !Full(q, s) && t == ExpandHead(q, s)
    ensures Searching(q, Reached(q.g, q.root), t, Deeper(reached, s.queue[0].1))
    ensures Outcome(q, s, reached) == Outcome(q, t, Deeper(reached, s.queue[0].1))
  {
    hide Searching, Reached, ExpandHead, Faithful;
    ExpandSearches(q, s, reached);
  }

  lemma OutcomeEnd(q: Query, s: Search, reached: nat)
    requires Searching(q, Reached(q.g, q.root), s, reached) && s.queue == []
    ensures Outcome(q, s, reached) == Report(q, s, reached)
  {
  }

  /** The entry for v at depth two is taken off the queue before the free detour is found: the
      reported depth is two, although no entity is deeper than one. */
  lemma DepthReachedCanExceed(q: Query)
    requires IsDetour(q)
    ensures var r := LineageOf(q);
            !r.truncated && r.depthReached == 2 && forall v :: v in r.depths ==> r.depths[v] <= 1
  {
    hide Searching, Reached, ExpandHead, Faithful, Outcome, LineageOf;
    OutcomeStart(q);
    DetourRoot(q);
    DetourEarly(q);
    DetourLate(q);
    var s1 := State(map["r" := 0, "a" := 1, "x" := 0], [("a", 1), ("x", 0)], 1);
    var s2 := State(map["r" := 0, "a" := 1, "x" := 0, "v" := 2], [("x", 0), ("v", 2)], 2);
    var s3 := State(map["r" := 0, "a" := 1, "x" := 0, "v" := 2, "y" := 0], [("v", 2), ("y", 0)], 2);
    var s4 := State(map["r" := 0, "a" := 1, "x" := 0, "v" := 2, "y" := 0], [("y", 0)], 2);
    var s5 := State(map["r" := 0, "a" := 1, "x" := 0, "v" := 1, "y" := 0], [("v", 1)], 2);
    var s6 := State(map["r" := 0, "a" := 1, "x" := 0, "v" := 1, "y" := 0], [], 2);
    OutcomeStep(q, Start(q), 0, s1);
    OutcomeStep(q, s1, 0, s2);
    OutcomeStep(q, s2, 1, s3);
    OutcomeStep(q, s3, 1, s4);
    OutcomeStep(q, s4, 2, s5);
    OutcomeStep(q, s5, 2, s6);
    OutcomeEnd(q, s6, 2);
  }

  // ---- The reported depth is bounded by the number of entities ----

  /** No depth in sight is greater than the number of entities reported so far. */
  ghost predicate Bounded(s: Search, reached: nat) {
    && reached <= |s.result|
    && (forall v :: v in s.result ==> v in s.visited)
    && (forall v :: v in s.visited ==> s.visited[v] <= |s.result|)
    && (forall e :: e in s.queue ==> e.1 <= |s.result|)
  }

  lemma FollowEdgeBounded(q: Query, s: Search, reached: nat, id: string, d: nat, w: string)
    requires Bounded(s, reached) && d <= |s.result|
    ensures Bounded(FollowEdge(q, s, id, d, w), reached)
    ensures |s.result| <= |FollowEdge(q, s, id, d, w).result|
  {
    RelaxQueues(q, s, id, w, d + Weight(q.g, w));
  }

  lemma {:induction false} FollowAllBounded(q: Query, s: Search, reached: nat, id: string, d: nat, ws: seq<string>)
    requires Bounded(s, reached) && d <= |s.result|
    ensures Bounded(FollowAll(q, s, id, d, ws), reached)
    decreases |ws|
  {
    hide Bounded, FollowEdge, Full;
    if ws != [] && !Full(q, s) {
      FollowEdgeBounded(q, s, reached, id, d, ws[0]);
      FollowAllBounded(q, FollowEdge(q, s, id, d, ws[0]), reached, id, d, ws[1..]);
    }
  }

  lemma ExpandBounded(q: Query, s: Search, reached: nat)
    requires Bounded(s, reached) && s.queue != []
    ensures Bounded(ExpandHead(q, s), Deeper(reached, s.queue[0].1))
  {
    var (id, d) := s.queue[0];
    assert s.queue[0] in s.queue;
    var t := s.(queue := s.queue[1..]);
    assert Bounded(t, Deeper(reached, d));
    hide Bounded, FollowAll, Sort;
    FollowAllBounded(q, t, Deeper(reached, d), id, d, Sort(StringLe, Related(q.g, id)));
  }

  lemma {:induction false} OutcomeBounded(q: Query, s: Search, reached: nat)
    requires Searching(q, Reached(q.g, q.root), s, reached) && Bounded(s, reached)
    ensures Outcome(q, s, reached).depthReached <= |Outcome(q, s, reached).entities|
    decreases SlackOf(q, s), |s.queue|
  {
    hide Searching, Reached, SlackOf, Faithful, ExpandHead;
    if s.queue != [] && !Full(q, s) {
      ExpandSearches(q, s, reached);
      ExpandBounded(q, s, reached);
      OutcomeBounded(q, ExpandHead(q, s), Deeper(reached, s.queue[0].1));
    }
  }

  /** No answer reports a depth greater than the number of its entities. */
  lemma DepthReachedWithinCount(q: Query)
    requires q.maxResults > 0
    ensures LineageOf(q).depthReached <= |LineageOf(q).entities|
  {
    hide Searching, Reached, Outcome, LineageOf, Faithful;
    OutcomeStart(q);
    OutcomeBounded(q, Start(q), 0);
  }

  // ---- When the reported depth is the greatest depth ----

  /** A whole answer reports the depth of some entity, which by `Faithful` is then the greatest. */
  ghost predicate Exact(q: Query)
    requires q.maxResults > 0
  {
    var r := LineageOf(q);
    !r.truncated ==> exists v :: IsDepth(q.g, q.root, v, r.depthReached)
  }

  lemma RootDepth(g: Graph, root: string)
    ensures IsDepth(g, root, root, 0)
  {
    assert Connects(g, root, root, [root]) && Cost(g, [root]) == 0;
  }

  lemma AskedDepth(g: Graph, root: string, v: string, d: nat)
    requires v in g.asked && v != root && ReachesAt(g, root, v, d)
    ensures d > 0
  {
    var p :| Connects(g, root, v, p) && Cost(g, p) == d;
  }

  lemma EntityDepth(q: Query, v: string)
    requires q.maxResults > 0 && !LineageOf(q).truncated && v in LineageOf(q).entities
    ensures v in LineageOf(q).depths && IsDepth(q.g, q.root, v, LineageOf(q).depths[v])
    ensures 0 < LineageOf(q).depths[v] <= LineageOf(q).depthReached
  {
    hide LineageOf, ReachesAt;
    assert v in Answer(q.g, q.root, q.maxDepth);
    AskedDepth(q.g, q.root, v, LineageOf(q).depths[v]);
  }

  /** Depths zero and one are never outdated. */
  lemma ShallowExact(q: Query)
    requires q.maxResults > 0 && LineageOf(q).depthReached <= 1
    ensures Exact(q)
  {
    hide LineageOf, IsDepth, Faithful;
    DepthReachedWithinCount(q);
    RootDepth(q.g, q.root);
    var r := LineageOf(q);
    if !r.truncated && r.depthReached == 1 {
      EntityDepth(q, r.entities[0]);
    }
  }

  lemma DetourNotExact(q: Query)
    requires IsDetour(q)
    ensures !Exact(q)
  {
    DepthReachedCanExceed(q);
    hide LineageOf, IsDepth;
    if v :| IsDepth(q.g, q.root, v, 2) {
      DepthIsRecorded(q, v, 2);
    }
  }

  /** A whole answer records every least depth within the bound. */
  lemma DepthIsRecorded(q: Query, v: string, d: nat)
    requires q.maxResults > 0 && !LineageOf(q).truncated && d <= q.maxDepth && IsDepth(q.g, q.root, v, d)
    ensures v in LineageOf(q).depths && LineageOf(q).depths[v] == d
  {
    hide LineageOf, ReachesAt;
    assert ReachesWithin(q.g, q.root, v, q.maxDepth);
    assert IsDepth(q.g, q.root, v, LineageOf(q).depths[v]);
  }

  /** Any filter at all can pick a and v and leave out x and y. */
  lemma DetourIsRequest(allowed: seq<string>)
    requires allowed != []
    ensures RequestGraph(DETOUR.related, map["a" := allowed[0], "v" := allowed[0]], allowed) == DETOUR
  {
    var types := map["a" := allowed[0], "v" := allowed[0]];
    assert TypeAllowed(types, allowed, "a") && TypeAllowed(types, allowed, "v");
    assert !TypeAllowed(types, allowed, "x") && !TypeAllowed(types, allowed, "y");
    hide TypeAllowed;
    DetourListed();
  }

  lemma DetourListed()
    ensures Listed(DETOUR.related) == {"a", "v", "x", "y"}
  {
    var related := DETOUR.related;
    assert related["r"][0] == "a" && related["r"][1] == "x" && related["a"][0] == "v" && related["x"][0] == "y";
  }

  /** With this filter and these bounds every request, on every manifest, is exact. */
  ghost predicate AlwaysExact(allowed: seq<string>, depth: nat, results: nat)
    requires results > 0
  {
    forall related, types, root, upstream ::
      Exact(Query(RequestGraph(related, types, allowed), root, upstream, depth, results))
  }

  /** The reported depth is always the greatest depth exactly when there is no filter, or the bounds
      leave room for only one level or only one entity. */
  lemma DepthReachedExactly(allowed: seq<string>, depth: nat, results: nat)
    requires results > 0
    ensures AlwaysExact(allowed, depth, results) <==> allowed == [] || depth < 2 || results < 3
  {
    hide Exact, LineageOf;
    if allowed == [] || depth < 2 || results < 3 {
      forall related, types, root, upstream
        ensures Exact(Query(RequestGraph(related, types, allowed), root, upstream, depth, results))
      {
        EasyExact(related, types, allowed, root, upstream, depth, results);
      }
    } else if AlwaysExact(allowed, depth, results) {
      DetourIsRequest(allowed);
      var types := map["a" := allowed[0], "v" := allowed[0]];
      DetourNotExact(Query(RequestGraph(DETOUR.related, types, allowed), "r", false, depth, results));
    }
  }

  lemma EasyExact(related: map<string, seq<string>>, types: map<string, string>, allowed: seq<string>,
                  root: string, upstream: bool, depth: nat, results: nat)
    requires results > 0 && (allowed == [] || depth < 2 || results < 3)
    ensures Exact(Query(RequestGraph(related, types, allowed), root, upstream, depth, results))
  {
    var q := Query(RequestGraph(related, types, allowed), root, upstream, depth, results);
    if allowed == [] {
      NoFilterAllAsked(related, types);
      DepthReachedIsDepth(q);
    } else {
      DepthReachedWithinCount(q);
      hide LineageOf;
      if !LineageOf(q).truncated {
        WholeAnswerShort(q);
        ShallowExact(q);
      }
    }
  }

  lemma WholeAnswerShort(q: Query)
    requires q.maxResults > 0 && !LineageOf(q).truncated
    ensures |LineageOf(q).entities| < q.maxResults
  {
    hide LineageOf;
    DistinctCount(LineageOf(q).entities, Answer(q.g, q.root, q.maxDepth));
  }
}
