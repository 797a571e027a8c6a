/** The bounded lineage search of `get_lineage`: a first-in-first-out traversal in
    which an entity costs one level only when its resource type was asked for, so
    an entity may be queued again when a cheaper route to it turns up. */
module Lineage {
  import opened Ordering
  import opened Text
  import opened Wrappers

  /** One direction of the dependency graph, and which of the listed entities were asked for. */
  datatype Graph = Graph(related: map<string, seq<string>>, asked: set<string>)

  /** `lineage_type_allowed`: with no filter every entity counts; an entity of unknown
      type never passes a filter. */
  predicate TypeAllowed(types: map<string, string>, allowed: seq<string>, id: string) {
    || allowed == []
    || (id in types && exists i :: 0 <= i < |allowed| && Lower(allowed[i]) == Lower(types[id]))
  }

  /** Every entity listed as a neighbour of another. */
  function Listed(related: map<string, seq<string>>): set<string> {
    set id, i | id in related && 0 <= i < |related[id]| :: related[id][i]
  }

  /** The graph a request is answered on. */
  function RequestGraph(related: map<string, seq<string>>, types: map<string, string>, allowed: seq<string>): Graph {
    Graph(related, set id | id in Listed(related) && TypeAllowed(types, allowed, id))
  }

  function Related(g: Graph, id: string): seq<string> {
    if id in g.related then g.related[id] else []
  }

  function Weight(g: Graph, id: string): nat {
    if id in g.asked then 1 else 0
  }

  // ---- What the search is meant to find, stated over paths only ----

  ghost predicate IsPath(g: Graph, p: seq<string>) {
    && |p| > 0
    && (|p| > 1 ==> p[|p| - 1] in Related(g, p[|p| - 2]) && IsPath(g, p[..|p| - 1]))
  }

  /** The number of asked-for entities on a path after its start. */
  ghost function Cost(g: Graph, p: seq<string>): nat
    requires |p| > 0
  {
    if |p| == 1 then 0 else Cost(g, p[..|p| - 1]) + Weight(g, p[|p| - 1])
  }

  ghost predicate Connects(g: Graph, root: string, v: string, p: seq<string>) {
    IsPath(g, p) && p[0] == root && p[|p| - 1] == v
  }

  ghost predicate ReachesAt(g: Graph, root: string, v: string, d: nat) {
    exists p :: Connects(g, root, v, p) && Cost(g, p) == d
  }

  ghost predicate ReachesWithin(g: Graph, root: string, v: string, d: nat) {
    exists k: nat :: k <= d && ReachesAt(g, root, v, k)
  }

  ghost predicate IsDepth(g: Graph, root: string, v: string, d: nat) {
    ReachesAt(g, root, v, d) && forall k: nat :: ReachesAt(g, root, v, k) ==> d <= k
  }

  /** Every identifier the graph mentions. */
  ghost function Universe(g: Graph, root: string): set<string> {
    {root} + Listed(g.related)
  }

  /** The full answer: asked-for entities other than the root within the depth bound. */
  ghost function Answer(g: Graph, root: string, maxDepth: nat): set<string> {
    set v | v in Universe(g, root) && v != root && v in g.asked && ReachesWithin(g, root, v, maxDepth)
  }

  /** The query as the traversal sees it, its bounds already resolved. */
  datatype Query = Query(g: Graph, root: string, upstream: bool, maxDepth: nat, maxResults: nat)

  // The invariants below speak of the reached pairs through a set that contains the root
  // at depth zero and is closed under following one edge.

  ghost function Reached(g: Graph, root: string): iset<(string, nat)> {
    iset v: string, d: nat | ReachesAt(g, root, v, d) :: (v, d)
  }

  ghost predicate ClosedUnderEdges(g: Graph, reach: iset<(string, nat)>, u: set<string>) {
    forall v, d: nat, w :: (v, d) in reach && w in Related(g, v) ==> (w, d + Weight(g, w)) in reach && w in u
  }

  lemma ReachedClosed(g: Graph, root: string)
    ensures ClosedUnderEdges(g, Reached(g, root), Universe(g, root))
    ensures (root, 0) in Reached(g, root)
  {
    assert Connects(g, root, root, [root]) && Cost(g, [root]) == 0;
    forall v, d: nat, w | (v, d) in Reached(g, root) && w in Related(g, v)
      ensures (w, d + Weight(g, w)) in Reached(g, root) && w in Universe(g, root)
    {
      var p :| Connects(g, root, v, p) && Cost(g, p) == d;
      var q := p + [w];
      assert q[..|q| - 1] == p;
      assert Connects(g, root, w, q);
      var i :| 0 <= i < |g.related[v]| && g.related[v][i] == w;
    }
  }

  lemma ReachedInUniverse(g: Graph, root: string, v: string, d: nat)
    requires ReachesAt(g, root, v, d)
    ensures v in Universe(g, root)
  {
    var p :| Connects(g, root, v, p) && Cost(g, p) == d;
    if |p| > 1 {
      var i :| 0 <= i < |g.related[p[|p| - 2]]| && g.related[p[|p| - 2]][i] == v;
    }
  }

  // ---- The search state ----

  datatype Search = Search(
    visited: map<string, nat>,
    queue: seq<(string, nat)>,
    result: seq<string>,
    edges: seq<(string, string)>)

  /** An edge is reported in dependency order whichever way the search walks. */
  function Edge(upstream: bool, from: string, to: string): (string, string) {
    if upstream then (to, from) else (from, to)
  }

  ghost predicate EdgeOf(g: Graph, upstream: bool, e: (string, string), w: string) {
    exists v :: w in Related(g, v) && e == Edge(upstream, v, w)
  }

  /** The graph lists, for each entity, what it depends on or what depends on it. */
  ghost predicate ListsDependencies(g: Graph, upstream: bool, dependsOn: (string, string) -> bool) {
    forall v, w :: w in Related(g, v) <==> if upstream then dependsOn(v, w) else dependsOn(w, v)
  }

  /** Whichever way the search walks, a reported edge runs from an entity to one that depends on
      it, and the entity it discovered is its far end. */
  lemma EdgesAreDependencies(g: Graph, upstream: bool, dependsOn: (string, string) -> bool, e: (string, string), w: string)
    requires ListsDependencies(g, upstream, dependsOn)
    ensures EdgeOf(g, upstream, e, w) <==> dependsOn(e.1, e.0) && w == if upstream then e.0 else e.1
  {
    if dependsOn(e.1, e.0) && w == if upstream then e.0 else e.1 {
      var v := if upstream then e.1 else e.0;
      assert w in Related(g, v) && e == Edge(upstream, v, w);
    }
  }

  /** Recorded and queued depths are the costs of real paths within the bound. */
  ghost predicate DepthsSound(q: Query, reach: iset<(string, nat)>, visited: map<string, nat>, queue: seq<(string, nat)>) {
    && q.root in visited && visited[q.root] == 0
    && (forall v :: v in visited ==> visited[v] <= q.maxDepth && (v, visited[v]) in reach)
    && (forall e :: e in queue ==> e in reach && e.1 <= q.maxDepth && e.0 in visited && visited[e.0] <= e.1)
  }

  /** The result lists each recorded asked-for entity once, each with the edge that found it. */
  ghost predicate ResultSound(q: Query, s: Search) {
    && Distinct(s.result)
    && (forall v :: v in s.result <==> v in s.visited && v != q.root && v in q.g.asked)
    && |s.edges| == |s.result|
    && (forall i :: 0 <= i < |s.result| ==> EdgeOf(q.g, q.upstream, s.edges[i], s.result[i]))
  }

  /** No edge from a vertex at depth `d` into `ws` could still improve a recorded depth. */
  ghost predicate Relaxed(q: Query, visited: map<string, nat>, d: nat, ws: seq<string>) {
    forall w :: w in ws && d + Weight(q.g, w) <= q.maxDepth ==> w in visited && visited[w] <= d + Weight(q.g, w)
  }

  ghost predicate Settled(q: Query, s: Search, v: string)
    requires v in s.visited
  {
    (v, s.visited[v]) in s.queue || Relaxed(q, s.visited, s.visited[v], Related(q.g, v))
  }

  /** Every recorded vertex is settled, except possibly the one being expanded. */
  ghost predicate SettledBut(q: Query, s: Search, id: string, d: nat) {
    forall v :: v in s.visited ==> Settled(q, s, v) || (v == id && s.visited[v] == d)
  }

  ghost predicate AllSettled(q: Query, s: Search) {
    forall v :: v in s.visited ==> Settled(q, s, v)
  }

  /** A recorded depth was either popped already or is still queued. */
  ghost predicate DepthsSeen(s: Search, reached: nat) {
    forall v :: v in s.visited ==> s.visited[v] <= reached || (v, s.visited[v]) in s.queue
  }

  /** The result cap is reached, and the search stops. */
  predicate Full(q: Query, s: Search) {
    |s.result| >= q.maxResults
  }

  /** The search between two queue entries. */
  ghost predicate Searching(q: Query, reach: iset<(string, nat)>, s: Search, reached: nat) {
    && DepthsSound(q, reach, s.visited, s.queue)
    && ResultSound(q, s)
    && reached <= q.maxDepth && |s.result| <= q.maxResults
    && (!Full(q, s) ==> AllSettled(q, s) && DepthsSeen(s, reached))
  }

  /** The expansion of the queue entry `(id, d)`, the edges into `done` already followed. */
  ghost predicate Expanding(q: Query, reach: iset<(string, nat)>, s: Search, reached: nat,
                            id: string, d: nat, done: seq<string>) {
    && DepthsSound(q, reach, s.visited, s.queue)
    && ResultSound(q, s)
    && d <= reached <= q.maxDepth && |s.result| <= q.maxResults
    && id in s.visited && s.visited[id] <= d
    && (!Full(q, s) ==> SettledBut(q, s, id, d) && Relaxed(q, s.visited, d, done) && DepthsSeen(s, reached))
  }

  // ---- Termination: recorded depths only ever go down ----

  ghost function DepthOr(visited: map<string, nat>, maxDepth: nat, v: string): nat {
    if v in visited then visited[v] else maxDepth + 1
  }

  ghost function Slack(visited: map<string, nat>, maxDepth: nat, u: set<string>): nat {
    if u == {} then 0
    else
      var v :| v in u;
      DepthOr(visited, maxDepth, v) + Slack(visited, maxDepth, u - {v})
  }

  lemma {:induction false} SlackDrops(visited: map<string, nat>, maxDepth: nat, u: set<string>, w: string, d: nat)
    requires d <= maxDepth && (w in visited ==> d < visited[w])
    ensures Slack(visited[w := d], maxDepth, u) <= Slack(visited, maxDepth, u)
    ensures w in u ==> Slack(visited[w := d], maxDepth, u) < Slack(visited, maxDepth, u)
  {
    if u != {} {
      var v :| v in u && Slack(visited, maxDepth, u) ==
        DepthOr(visited, maxDepth, v) + Slack(visited, maxDepth, u - {v});
      SlackPick(visited[w := d], maxDepth, u, v);
      assert DepthOr(visited[w := d], maxDepth, v) <= DepthOr(visited, maxDepth, v);
      SlackDrops(visited, maxDepth, u - {v}, w, d);
    }
  }

  /** The sum does not depend on the order in which the set is enumerated. */
  lemma {:induction false} SlackPick(visited: map<string, nat>, maxDepth: nat, u: set<string>, x: string)
    requires x in u
    ensures Slack(visited, maxDepth, u) == DepthOr(visited, maxDepth, x) + Slack(visited, maxDepth, u - {x})
  {
    var v :| v in u && Slack(visited, maxDepth, u) ==
      DepthOr(visited, maxDepth, v) + Slack(visited, maxDepth, u - {v});
    if v != x {
      SlackPick(visited, maxDepth, u - {v}, x);
      SlackPick(visited, maxDepth, u - {x}, v);
      assert u - {v} - {x} == u - {x} - {v};
    }
  }

  /** From `s` to `t` nothing was recorded, or the sum of depths went down. */
  ghost predicate Progress(q: Query, s: Search, t: Search) {
    t == s || Slack(t.visited, q.maxDepth, Universe(q.g, q.root)) < Slack(s.visited, q.maxDepth, Universe(q.g, q.root))
  }

  lemma ProgressTransitive(q: Query, s: Search, t: Search, r: Search)
    requires Progress(q, s, t) && Progress(q, t, r)
    ensures Progress(q, s, r)
  {
  }

  // ---- The search, as a function of the query ----

  /** Records a cheaper depth for `w`, queues it, and reports it if it is new and asked for. */
  function Relax(q: Query, s: Search, id: string, w: string, d: nat): Search {
    var s1 := s.(visited := s.visited[w := d], queue := s.queue + [(w, d)]);
    if w in q.g.asked && w !in s.result then
      var e := Edge(q.upstream, id, w);
      s1.(result := s.result + [w], edges := if e in s.edges then s.edges else s.edges + [e])
    else
      s1
  }

  /** Follows one edge of the entry `(id, d)`. */
  function FollowEdge(q: Query, s: Search, id: string, d: nat, w: string): Search {
    var next := d + Weight(q.g, w);
    if next <= q.maxDepth && (w !in s.visited || next < s.visited[w]) then Relax(q, s, id, w, next) else s
  }

  /** Follows edges until the result is full. */
  function FollowAll(q: Query, s: Search, id: string, d: nat, ws: seq<string>): Search
    decreases |ws|
  {
    if ws == [] || Full(q, s) then s else FollowAll(q, FollowEdge(q, s, id, d, ws[0]), id, d, ws[1..])
  }

  /** Takes the oldest queue entry and follows its edges in identifier order. */
  function ExpandHead(q: Query, s: Search): Search
    requires s.queue != []
  {
    var (id, d) := s.queue[0];
    FollowAll(q, s.(queue := s.queue[1..]), id, d, Sort(StringLe, Related(q.g, id)))
  }

  function Deeper(reached: nat, d: nat): nat {
    if d > reached then d else reached
  }

  function Start(q: Query): Search {
    Search(map[q.root := 0], [(q.root, 0)], [], [])
  }

  // ---- One relaxation ----

  lemma RelaxQueues(q: Query, s: Search, id: string, w: string, d: nat)
    ensures var t := Relax(q, s, id, w, d);
            && t.queue == s.queue + [(w, d)]
            && t.visited == s.visited[w := d]
            && (forall e :: e in t.queue <==> e in s.queue || e == (w, d))
            && |t.result| <= |s.result| + 1
  {
    assert (s.queue + [(w, d)])[|s.queue|] == (w, d);
  }

  /** The edge that discovers an entity was never reported before. */
  lemma NewEdge(q: Query, s: Search, id: string, w: string)
    requires ResultSound(q, s) && w !in s.result
    ensures Edge(q.upstream, id, w) !in s.edges
  {
    forall i | 0 <= i < |s.edges| ensures s.edges[i] != Edge(q.upstream, id, w) {
      assert EdgeOf(q.g, q.upstream, s.edges[i], s.result[i]);
    }
  }

  lemma RelaxResult(q: Query, s: Search, id: string, w: string, d: nat)
    requires ResultSound(q, s) && w in Related(q.g, id) && w != q.root
    ensures ResultSound(q, Relax(q, s, id, w, d))
  {
    var t := Relax(q, s, id, w, d);
    if w in q.g.asked && w !in s.result {
      NewEdge(q, s, id, w);
      assert EdgeOf(q.g, q.upstream, Edge(q.upstream, id, w), w);
      assert forall v :: v in t.result <==> v in s.result || v == w;
    }
  }

  lemma RelaxSettled(q: Query, s: Search, id: string, dId: nat, w: string, t: Search)
    requires SettledBut(q, s, id, dId) && id in s.visited && s.visited[id] <= dId
    requires var d := dId + Weight(q.g, w);
             && (w in s.visited ==> d < s.visited[w])
             && t.visited == s.visited[w := d]
             && (forall e :: e in t.queue <==> e in s.queue || e == (w, d))
    ensures SettledBut(q, t, id, dId)
  {
    forall v | v in t.visited ensures Settled(q, t, v) || (v == id && t.visited[v] == dId) {
      if v != w {
        assert Settled(q, s, v) || (v == id && s.visited[v] == dId);
      }
    }
  }

  lemma RelaxDepths(q: Query, reach: iset<(string, nat)>, s: Search, reached: nat, d: nat, done: seq<string>,
                    w: string, next: nat, t: Search)
    requires DepthsSound(q, reach, s.visited, s.queue)
    requires Relaxed(q, s.visited, d, done) && DepthsSeen(s, reached)
    requires next == d + Weight(q.g, w) <= q.maxDepth && (w, next) in reach && (w in s.visited ==> next < s.visited[w])
    requires t.visited == s.visited[w := next] && forall e :: e in t.queue <==> e in s.queue || e == (w, next)
    ensures DepthsSound(q, reach, t.visited, t.queue)
    ensures Relaxed(q, t.visited, d, done + [w])
    ensures DepthsSeen(t, reached)
  {
  }

  lemma ExpandRelax(q: Query, reach: iset<(string, nat)>, s: Search, reached: nat,
                    id: string, d: nat, done: seq<string>, w: string)
    requires Expanding(q, reach, s, reached, id, d, done) && !Full(q, s)
    requires w in Related(q.g, id) && (w, d + Weight(q.g, w)) in reach
    requires var next := d + Weight(q.g, w); next <= q.maxDepth && (w in s.visited ==> next < s.visited[w])
    ensures Expanding(q, reach, Relax(q, s, id, w, d + Weight(q.g, w)), reached, id, d, done + [w])
  {
    var next := d + Weight(q.g, w);
    var t := Relax(q, s, id, w, next);
    assert w != q.root;
    hide Relax, DepthsSound, ResultSound, DepthsSeen, Relaxed, SettledBut;
    RelaxQueues(q, s, id, w, next);
    RelaxResult(q, s, id, w, next);
    RelaxSettled(q, s, id, d, w, t);
    RelaxDepths(q, reach, s, reached, d, done, w, next, t);
  }

  lemma ExpandSkip(q: Query, reach: iset<(string, nat)>, s: Search, reached: nat,
                   id: string, d: nat, done: seq<string>, w: string)
    requires Expanding(q, reach, s, reached, id, d, done)
    requires var next := d + Weight(q.g, w); next > q.maxDepth || (w in s.visited && s.visited[w] <= next)
    ensures Expanding(q, reach, s, reached, id, d, done + [w])
  {
  }

  // ---- One queue entry ----

  lemma EdgeReached(g: Graph, reach: iset<(string, nat)>, u: set<string>, id: string, d: nat, w: string)
    requires ClosedUnderEdges(g, reach, u) && (id, d) in reach && w in Related(g, id)
    ensures (w, d + Weight(g, w)) in reach && w in u
  {
  }

  lemma FollowEdgeKeeps(q: Query, reach: iset<(string, nat)>, s: Search, reached: nat,
                        id: string, d: nat, done: seq<string>, w: string)
    requires Expanding(q, reach, s, reached, id, d, done) && !Full(q, s)
    requires ClosedUnderEdges(q.g, reach, Universe(q.g, q.root)) && (id, d) in reach && w in Related(q.g, id)
    ensures var t := FollowEdge(q, s, id, d, w);
            Expanding(q, reach, t, reached, id, d, done + [w]) && Progress(q, s, t)
  {
    hide Expanding, ClosedUnderEdges, Universe, Weight, Slack;
    EdgeReached(q.g, reach, Universe(q.g, q.root), id, d, w);
    var next := d + Weight(q.g, w);
    if next <= q.maxDepth && (w !in s.visited || next < s.visited[w]) {
      ExpandRelax(q, reach, s, reached, id, d, done, w);
      SlackDrops(s.visited, q.maxDepth, Universe(q.g, q.root), w, next);
      RelaxQueues(q, s, id, w, next);
    } else {
      ExpandSkip(q, reach, s, reached, id, d, done, w);
    }
  }

  lemma ExpandingFull(q: Query, reach: iset<(string, nat)>, s: Search, reached: nat,
                      id: string, d: nat, done: seq<string>, ws: seq<string>)
    requires Expanding(q, reach, s, reached, id, d, done) && Full(q, s)
    ensures Expanding(q, reach, s, reached, id, d, ws)
  {
  }

  lemma {:induction false} FollowAllKeeps(q: Query, reach: iset<(string, nat)>, s: Search, reached: nat,
                                          id: string, d: nat, done: seq<string>, ws: seq<string>)
    requires Expanding(q, reach, s, reached, id, d, done)
    requires ClosedUnderEdges(q.g, reach, Universe(q.g, q.root)) && (id, d) in reach
    requires forall w :: w in ws ==> w in Related(q.g, id)
    ensures var t := FollowAll(q, s, id, d, ws);
            Expanding(q, reach, t, reached, id, d, done + ws) && Progress(q, s, t)
    decreases |ws|
  {
    hide Expanding, ClosedUnderEdges, Universe, Related, FollowEdge, Progress, Full;
    if ws == [] {
      assert done + ws == done;
      NoProgress(q, s);
    } else if Full(q, s) {
      ExpandingFull(q, reach, s, reached, id, d, done, done + ws);
      NoProgress(q, s);
    } else {
      var w, t := ws[0], FollowEdge(q, s, id, d, ws[0]);
      FollowEdgeKeeps(q, reach, s, reached, id, d, done, w);
      FollowAllKeeps(q, reach, t, reached, id, d, done + [w], ws[1..]);
      assert done + [w] + ws[1..] == done + ws;
      ProgressTransitive(q, s, t, FollowAll(q, t, id, d, ws[1..]));
    }
  }

  lemma NoProgress(q: Query, s: Search)
    ensures Progress(q, s, s)
  {
  }

  lemma ExpandDone(q: Query, reach: iset<(string, nat)>, s: Search, reached: nat, id: string, d: nat, done: seq<string>)
    requires Expanding(q, reach, s, reached, id, d, done)
    requires forall w :: w in Related(q.g, id) ==> w in done
    ensures Searching(q, reach, s, reached)
  {
    hide DepthsSound, ResultSound, DepthsSeen;
    if !Full(q, s) {
      assert Relaxed(q, s.visited, d, Related(q.g, id));
    }
  }

  lemma ExpandStart(q: Query, reach: iset<(string, nat)>, s: Search, reached: nat)
    requires Searching(q, reach, s, reached) && s.queue != [] && !Full(q, s)
    ensures var (id, d) := s.queue[0];
            && (id, d) in reach
            && Expanding(q, reach, s.(queue := s.queue[1..]), Deeper(reached, d), id, d, [])
  {
    var (id, d) := s.queue[0];
    var t := s.(queue := s.queue[1..]);
    assert s.queue[0] in s.queue;
    assert forall e :: e in s.queue <==> e == (id, d) || e in t.queue;
    forall v | v in t.visited ensures Settled(q, t, v) || (v == id && t.visited[v] == d) {
      assert Settled(q, s, v);
    }
  }

  /** Expanding the oldest entry keeps the search invariant, and either lowers the sum of the
      recorded depths or only takes the entry off the queue. */
  lemma ExpandKeeps(q: Query, reach: iset<(string, nat)>, s: Search, reached: nat)
    requires Searching(q, reach, s, reached) && s.queue != [] && !Full(q, s)
    requires ClosedUnderEdges(q.g, reach, Universe(q.g, q.root))
    ensures Searching(q, reach, ExpandHead(q, s), Deeper(reached, s.queue[0].1))
    ensures Progress(q, s.(queue := s.queue[1..]), ExpandHead(q, s))
  {
    hide Searching, Expanding, ClosedUnderEdges, Universe, Progress, FollowAll, Related, Sort, StringLe;
    var (id, d) := s.queue[0];
    var t, ws := s.(queue := s.queue[1..]), Sort(StringLe, Related(q.g, id));
    ExpandStart(q, reach, s, reached);
    SameElements(ws, Related(q.g, id));
    FollowAllKeeps(q, reach, t, Deeper(reached, d), id, d, [], ws);
    assert [] + ws == ws;
    ExpandDone(q, reach, FollowAll(q, t, id, d, ws), Deeper(reached, d), id, d, ws);
  }

  // ---- The whole search ----

  /** What one call reports. */
  datatype Lineage = Lineage(
    entities: seq<string>,
    edges: seq<(string, string)>,
    depths: map<string, nat>,
    depthReached: nat,
    truncated: bool)

  /** With an empty queue and everything settled, every path is accounted for. */
  lemma {:induction false} PathCovered(q: Query, s: Search, p: seq<string>)
    requires q.root in s.visited && s.visited[q.root] == 0
    requires s.queue == [] && AllSettled(q, s)
    requires IsPath(q.g, p) && p[0] == q.root && Cost(q.g, p) <= q.maxDepth
    ensures p[|p| - 1] in s.visited && s.visited[p[|p| - 1]] <= Cost(q.g, p)
  {
    if |p| > 1 {
      PathCovered(q, s, p[..|p| - 1]);
      assert Settled(q, s, p[|p| - 2]);
    }
  }

  lemma SearchComplete(q: Query, s: Search)
    requires DepthsSound(q, Reached(q.g, q.root), s.visited, s.queue)
    requires s.queue == [] && AllSettled(q, s)
    ensures forall v :: v in s.visited <==> ReachesWithin(q.g, q.root, v, q.maxDepth)
    ensures forall v :: v in s.visited ==> IsDepth(q.g, q.root, v, s.visited[v])
  {
    forall v, k: nat | ReachesAt(q.g, q.root, v, k) && k <= q.maxDepth ensures v in s.visited && s.visited[v] <= k {
      var p :| Connects(q.g, q.root, v, p) && Cost(q.g, p) == k;
      PathCovered(q, s, p);
    }
  }

  /** What a reported lineage promises, in terms of paths alone: it lists asked-for entities
      within the bound, each once and with an edge that leads to it; it is marked truncated
      exactly when the whole answer fills the result cap; and when it is not, it is the whole
      answer with the least depth of every entity reached. */
  ghost predicate Faithful(q: Query, r: Lineage) {
    var answer := Answer(q.g, q.root, q.maxDepth);
    && Distinct(r.entities)
    && (forall v :: v in r.entities ==> v in answer)
    && (r.truncated <==> |answer| >= q.maxResults)
    && |r.edges| == |r.entities|
    && (forall i :: 0 <= i < |r.entities| ==> EdgeOf(q.g, q.upstream, r.edges[i], r.entities[i]))
    && r.depthReached <= q.maxDepth
    && (if r.truncated then |r.entities| == q.maxResults
        else && (forall v :: v in answer ==> v in r.entities)
             && (forall v :: v in r.depths <==> ReachesWithin(q.g, q.root, v, q.maxDepth))
             && (forall v :: v in r.depths ==> IsDepth(q.g, q.root, v, r.depths[v]))
             && (forall v :: v in r.depths ==> r.depths[v] <= r.depthReached))
  }

  function Report(q: Query, s: Search, reached: nat): Lineage {
    Lineage(s.result, s.edges, s.visited, reached, Full(q, s))
  }

  lemma SearchFaithful(q: Query, s: Search, reached: nat)
    requires Searching(q, Reached(q.g, q.root), s, reached) && (s.queue == [] || Full(q, s))
    ensures Faithful(q, Report(q, s, reached))
  {
    var answer := Answer(q.g, q.root, q.maxDepth);
    forall v | v in s.result ensures v in answer {
      ReachedInUniverse(q.g, q.root, v, s.visited[v]);
    }
    if !Full(q, s) {
      SearchComplete(q, s);
      assert forall v :: v in answer ==> v in s.result;
    }
    DistinctCount(s.result, answer);
  }

  ghost function SlackOf(q: Query, s: Search): nat {
    Slack(s.visited, q.maxDepth, Universe(q.g, q.root))
  }

  lemma ExpandSearches(q: Query, s: Search, reached: nat)
    requires Searching(q, Reached(q.g, q.root), s, reached) && s.queue != [] && !Full(q, s)
    ensures Searching(q, Reached(q.g, q.root), ExpandHead(q, s), Deeper(reached, s.queue[0].1))
    ensures SlackOf(q, ExpandHead(q, s)) < SlackOf(q, s)
         || (SlackOf(q, ExpandHead(q, s)) == SlackOf(q, s) && |ExpandHead(q, s).queue| < |s.queue|)
  {
    hide Searching, ExpandHead, Reached, Universe, Slack, Full;
    ReachedClosed(q.g, q.root);
    ExpandKeeps(q, Reached(q.g, q.root), s, reached);
  }

  /** What the search reports from a given state on; it ends on every graph, cyclic or not. */
  ghost function Outcome(q: Query, s: Search, reached: nat): (r: Lineage)
    requires Searching(q, Reached(q.g, q.root), s, reached)
    ensures Faithful(q, r)
    decreases SlackOf(q, s), |s.queue|
  {
    if s.queue == [] || Full(q, s) then
      SearchFaithful(q, s, reached);
      Report(q, s, reached)
    else
      ExpandSearches(q, s, reached);
      Outcome(q, ExpandHead(q, s), Deeper(reached, s.queue[0].1))
  }

  lemma StartSearching(q: Query)
    requires q.maxResults > 0
    ensures Searching(q, Reached(q.g, q.root), Start(q), 0)
  {
    ReachedClosed(q.g, q.root);
    assert [(q.root, 0)][0] == (q.root, 0);
  }

  /** The whole answer to a query, its order and its cut included. */
  ghost function LineageOf(q: Query): (r: Lineage)
    requires q.maxResults > 0
    ensures Faithful(q, r)
  {
    StartSearching(q);
    Outcome(q, Start(q), 0)
  }

  // ---- The search as the source runs it ----

  lemma FollowAllStep(q: Query, s: Search, id: string, d: nat, ws: seq<string>, k: nat)
    requires k <= |ws|
    ensures FollowAll(q, s, id, d, ws[k..]) ==
      if k == |ws| || Full(q, s) then s else FollowAll(q, FollowEdge(q, s, id, d, ws[k]), id, d, ws[k + 1..])
  {
    if k < |ws| {
      assert ws[k..][1..] == ws[k + 1..];
    }
    hide FollowEdge;
  }

  lemma RelaxFills(q: Query, s: Search, id: string, w: string, d: nat)
    requires !Full(q, s)
    ensures Full(q, Relax(q, s, id, w, d)) <==>
      w in q.g.asked && w !in s.result && |Relax(q, s, id, w, d).result| >= q.maxResults
  {
  }

  /** Takes the oldest queue entry and relaxes its edges one after the other, stopping as soon as
      a new entity fills the result. */
  method Expand(q: Query, s0: Search) returns (s: Search, truncated: bool)
    requires s0.queue != [] && !Full(q, s0)
    ensures s == ExpandHead(q, s0) && truncated == Full(q, s)
  {
    hide Sort, StringLe, Related, FollowAll, Relax;
    var (id, d) := s0.queue[0];
    s, truncated := s0.(queue := s0.queue[1..]), false;
    var ws := Sort(StringLe, Related(q.g, id));
    var k := 0;
    assert ws[0..] == ws;
    ghost var done := ExpandHead(q, s0);
    hide ExpandHead;
    while k < |ws| && !truncated
      invariant 0 <= k <= |ws|
      invariant FollowAll(q, s, id, d, ws[k..]) == done
      invariant truncated == Full(q, s)
    {
      var w := ws[k];
      FollowAllStep(q, s, id, d, ws, k);
      var next := d + Weight(q.g, w);
      RelaxFills(q, s, id, w, next);
      if next <= q.maxDepth && (w !in s.visited || next < s.visited[w]) {
        var isNew := w in q.g.asked && w !in s.result;
        s := Relax(q, s, id, w, next);
        if isNew && |s.result| >= q.maxResults {
          truncated := true;
        }
      }
      k := k + 1;
    }
    FollowAllStep(q, s, id, d, ws, k);
  }

  /** `get_lineage` once the root and the direction are resolved: both bounds come from the
      configuration, a depth of zero is refused, and at least one result is allowed. */
  method GetLineage(related: map<string, seq<string>>, types: map<string, string>, allowed: seq<string>,
                    root: string, upstream: bool, depth: Option<nat>, configuredDepth: nat, configuredResults: nat)
    returns (r: Option<Lineage>)
    ensures r.None? <==> configuredDepth == 0 || depth == Some(0)
    ensures r.Some? ==>
      var q := Query(RequestGraph(related, types, allowed), root, upstream,
                     Least(depth, configuredDepth), AtLeastOne(configuredResults));
      r.value == LineageOf(q) && Faithful(q, r.value)
    ensures r.Some? ==>
      MeetsRequest(related, types, allowed, root, depth, configuredDepth, configuredResults, r.value)
  {
    hide MeetsRequest, Searching, Faithful, ExpandHead, Reached, RequestGraph, SlackOf;
    var q := Query(RequestGraph(related, types, allowed), root, upstream,
                   Least(depth, configuredDepth), AtLeastOne(configuredResults));
    if q.maxDepth == 0 {
      return None;
    }
    var s, reached, truncated := Start(q), 0, false;
    StartSearching(q);
    while s.queue != [] && !truncated
      invariant Searching(q, Reached(q.g, q.root), s, reached)
      invariant Outcome(q, s, reached) == LineageOf(q)
      invariant truncated == Full(q, s)
      decreases SlackOf(q, s), |s.queue|
    {
      ExpandSearches(q, s, reached);
      reached := Deeper(reached, s.queue[0].1);
      s, truncated := Expand(q, s);
    }
    r := Some(Lineage(s.result, s.edges, s.visited, reached, truncated));
    AnswerMeetsRequest(related, types, allowed, root, upstream, depth, configuredDepth, configuredResults, r.value);
  }

  /** The answer in terms of the request itself: only entities of the allowed types other than the
      root, within the configured depth and within the requested one; all of them unless it is
      truncated; and truncated exactly when it is as long as the configuration, or else one, allows. */
  ghost predicate MeetsRequest(related: map<string, seq<string>>, types: map<string, string>, allowed: seq<string>,
                               root: string, depth: Option<nat>, configuredDepth: nat, configuredResults: nat, r: Lineage) {
    var g := RequestGraph(related, types, allowed);
    && (forall v :: v in r.entities ==> Wanted(g, types, allowed, root, depth, configuredDepth, v))
    && (!r.truncated ==> forall v :: Wanted(g, types, allowed, root, depth, configuredDepth, v) ==> v in r.entities)
    && (configuredResults > 0 ==> |r.entities| <= configuredResults && (r.truncated <==> |r.entities| == configuredResults))
    && (configuredResults == 0 ==> |r.entities| <= 1 && (r.truncated <==> |r.entities| == 1))
  }

  ghost predicate Wanted(g: Graph, types: map<string, string>, allowed: seq<string>,
                         root: string, depth: Option<nat>, configuredDepth: nat, v: string) {
    && v != root && TypeAllowed(types, allowed, v)
    && ReachesWithin(g, root, v, configuredDepth)
    && (depth.Some? ==> ReachesWithin(g, root, v, depth.value))
  }

  lemma WantedIsAnswer(related: map<string, seq<string>>, types: map<string, string>, allowed: seq<string>,
                       root: string, depth: Option<nat>, configuredDepth: nat, v: string)
    ensures var g := RequestGraph(related, types, allowed);
            v in Answer(g, root, Least(depth, configuredDepth)) <==> Wanted(g, types, allowed, root, depth, configuredDepth, v)
  {
    hide TypeAllowed, ReachesAt;
    var g := RequestGraph(related, types, allowed);
    if Wanted(g, types, allowed, root, depth, configuredDepth, v) {
      var k: nat :| k <= Least(depth, configuredDepth) && ReachesAt(g, root, v, k);
      ReachedInUniverse(g, root, v, k);
    }
  }

  lemma AnswerMeetsRequest(related: map<string, seq<string>>, types: map<string, string>, allowed: seq<string>,
                           root: string, upstream: bool, depth: Option<nat>, configuredDepth: nat, configuredResults: nat,
                           r: Lineage)
    requires Faithful(Query(RequestGraph(related, types, allowed), root, upstream,
                            Least(depth, configuredDepth), AtLeastOne(configuredResults)), r)
    ensures MeetsRequest(related, types, allowed, root, depth, configuredDepth, configuredResults, r)
  {
    hide Wanted, RequestGraph, Answer, Least;
    var g := RequestGraph(related, types, allowed);
    var answer := Answer(g, root, Least(depth, configuredDepth));
    forall v ensures v in answer <==> Wanted(g, types, allowed, root, depth, configuredDepth, v) {
      WantedIsAnswer(related, types, allowed, root, depth, configuredDepth, v);
    }
    DistinctCount(r.entities, answer);
  }

  function Least(depth: Option<nat>, configured: nat): nat {
    if depth.Some? && depth.value < configured then depth.value else configured
  }

  function AtLeastOne(n: nat): nat {
    if n < 1 then 1 else n
  }
}
