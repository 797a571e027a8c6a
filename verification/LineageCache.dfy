/** The cache of lineage answers. Its key is a line of text, so the question is which requests
    share one, and when a cached answer is the answer to the request it is served for. */
module LineageCache {
  import opened Wrappers
  import opened Ordering
  import opened Text
  import opened Lineage
  import D = Decimal

  datatype Detail = Compact | Standard | Full

  datatype Ask = Ask(root: string, upstream: bool, depth: nat, maxResults: nat, detail: Detail, types: seq<string>)

  /** A request with its root and its bounds resolved; a depth of zero has been refused. */
  type Request = r: Ask | r.depth > 0 && r.maxResults > 0 witness Ask("", true, 1, 1, Compact, [])

  function Direction(upstream: bool): string {
    if upstream then "upstream" else "downstream"
  }

  function DetailName(d: Detail): string {
    match d
    case Compact => "compact"
    case Standard => "standard"
    case Full => "full"
  }

  function TypesText(types: seq<string>): string {
    Join(Sort(StringLe, types), ",")
  }

  /** Everything in the key but the root and the types. */
  function Scalars(r: Request): string {
    Direction(r.upstream) + "|" + (D.ToDecimal(r.depth) + "|" + (D.ToDecimal(r.maxResults) + "|" + DetailName(r.detail)))
  }

  /** `lineage_cache_key`. */
  function CacheKey(r: Request): string {
    r.root + "|" + Scalars(r) + "|" + TypesText(r.types)
  }

  // ---- What a request is answered with ----

  /** The loaded manifest: its entities, both directions of the dependency graph, and the types. */
  datatype Manifest = Manifest(
    entities: set<string>,
    parents: map<string, seq<string>>,
    children: map<string, seq<string>>,
    types: map<string, string>)

  /** The response repeats the root, the direction and the depth, and renders the lineage at the
      requested level of detail. */
  datatype Response = Response(root: string, upstream: bool, depth: nat, detail: Detail, lineage: Lineage)

  function QueryOf(m: Manifest, r: Request): Query {
    Query(RequestGraph(if r.upstream then m.parents else m.children, m.types, r.types),
          r.root, r.upstream, r.depth, r.maxResults)
  }

  /** A manifest whose parents list what each entity depends on and whose children list what depends
      on it is searched along its dependencies, in the direction asked for. */
  lemma QueryListsDependencies(m: Manifest, r: Request, dependsOn: (string, string) -> bool)
    requires forall v, w :: w in Related(Graph(m.parents, {}), v) <==> dependsOn(v, w)
    requires forall v, w :: w in Related(Graph(m.children, {}), v) <==> dependsOn(w, v)
    ensures ListsDependencies(QueryOf(m, r).g, r.upstream, dependsOn)
    ensures QueryOf(m, r).upstream == r.upstream
  {
    forall v, w ensures w in Related(QueryOf(m, r).g, v) <==> if r.upstream then dependsOn(v, w) else dependsOn(w, v) {
      if r.upstream {
        assert Related(QueryOf(m, r).g, v) == Related(Graph(m.parents, {}), v);
      } else {
        assert Related(QueryOf(m, r).g, v) == Related(Graph(m.children, {}), v);
      }
    }
  }

  ghost function Respond(m: Manifest, r: Request): Response {
    Response(r.root, r.upstream, r.depth, r.detail, LineageOf(QueryOf(m, r)))
  }

  predicate SameScalars(a: Request, b: Request) {
    a.root == b.root && a.upstream == b.upstream && a.depth == b.depth && a.maxResults == b.maxResults && a.detail == b.detail
  }

  /** Two requests ask the same: no assignment of types tells their filters apart. */
  ghost predicate SameQuestion(a: Request, b: Request) {
    && SameScalars(a, b)
    && forall types: map<string, string>, id :: TypeAllowed(types, a.types, id) == TypeAllowed(types, b.types, id)
  }

  /** Requests that ask the same are answered with the same response, entity by entity and cut
      included, on every manifest. */
  lemma SameQuestionSameResponse(m: Manifest, a: Request, b: Request)
    requires SameQuestion(a, b)
    ensures Respond(m, a) == Respond(m, b)
  {
    var related := if a.upstream then m.parents else m.children;
    assert RequestGraph(related, m.types, a.types) == RequestGraph(related, m.types, b.types);
  }

  // ---- Which filters are the same ----

  predicate Covers(a: seq<string>, b: seq<string>) {
    forall i :: 0 <= i < |a| ==> Occurs(a[i], b)
  }

  predicate Occurs(t: string, b: seq<string>) {
    exists j :: 0 <= j < |b| && Lower(b[j]) == Lower(t)
  }

  /** Both filter or neither does, and they name the same types but for their case. */
  predicate SameFilter(a: seq<string>, b: seq<string>) {
    (a == [] <==> b == []) && Covers(a, b) && Covers(b, a)
  }

  lemma AllowedOccurs(types: map<string, string>, allowed: seq<string>, id: string)
    ensures TypeAllowed(types, allowed, id) <==> allowed == [] || (id in types && Occurs(types[id], allowed))
  {
  }

  lemma OccursBoth(a: seq<string>, b: seq<string>, t: string)
    requires Covers(a, b) && Occurs(t, a)
    ensures Occurs(t, b)
  {
    var i :| 0 <= i < |a| && Lower(a[i]) == Lower(t);
    assert Occurs(a[i], b);
  }

  lemma AllowedCovers(a: seq<string>, b: seq<string>)
    requires b != [] && forall types: map<string, string>, id :: TypeAllowed(types, a, id) ==> TypeAllowed(types, b, id)
    ensures a != [] && Covers(a, b)
  {
    hide Occurs, TypeAllowed;
    var none: map<string, string> := map[];
    AllowedOccurs(none, a, "x");
    AllowedOccurs(none, b, "x");
    assert TypeAllowed(none, a, "x") ==> TypeAllowed(none, b, "x");
    forall i | 0 <= i < |a| ensures Occurs(a[i], b) {
      var types: map<string, string> := map["x" := a[i]];
      AllowedOccurs(types, a, "x");
      AllowedOccurs(types, b, "x");
      OccursSelf(a, i);
      assert TypeAllowed(types, a, "x") ==> TypeAllowed(types, b, "x");
    }
  }

  lemma OccursSelf(a: seq<string>, i: nat)
    requires i < |a|
    ensures Occurs(a[i], a)
  {
  }

  lemma FilterAllows(a: seq<string>, b: seq<string>, types: map<string, string>, id: string)
    requires SameFilter(a, b)
    ensures TypeAllowed(types, a, id) == TypeAllowed(types, b, id)
  {
    AllowedOccurs(types, a, id);
    AllowedOccurs(types, b, id);
    hide TypeAllowed, Occurs;
    if id in types && Occurs(types[id], a) {
      OccursBoth(a, b, types[id]);
    }
    if id in types && Occurs(types[id], b) {
      OccursBoth(b, a, types[id]);
    }
  }

  /** Two requests ask the same exactly when they agree in everything but the types, and the types
      are the same filter. */
  lemma SameQuestionExactly(a: Request, b: Request)
    ensures SameQuestion(a, b) <==> SameScalars(a, b) && SameFilter(a.types, b.types)
  {
    hide TypeAllowed, Covers;
    if SameQuestion(a, b) {
      if b.types != [] {
        AllowedCovers(a.types, b.types);
      }
      if a.types != [] {
        AllowedCovers(b.types, a.types);
      }
      NothingCovers();
    }
    if SameScalars(a, b) && SameFilter(a.types, b.types) {
      forall types: map<string, string>, id ensures TypeAllowed(types, a.types, id) == TypeAllowed(types, b.types, id) {
        FilterAllows(a.types, b.types, types, id);
      }
    }
  }

  lemma NothingCovers()
    ensures Covers([], [])
  {
  }

  // ---- Which requests share a key ----

  /** What is left of a list of types once it is joined by commas and split again. */
  function Pieces(types: seq<string>): seq<string> {
    if types == [] then [""]
    else if |types| == 1 then Split(types[0], ',')
    else Split(types[0], ',') + Pieces(types[1..])
  }

  lemma {:induction false} SplitAppend(a: string, b: string)
    ensures Split(a + "," + b, ',') == Split(a, ',') + Split(b, ',')
  {
    hide Split;
    if a == [] {
      SplitWhole(a, ',');
      SplitHead(a, ',', b);
    } else {
      SplitAppend(a[1..], b);
      assert a + "," + b == [a[0]] + (a[1..] + "," + b);
      SplitOfCons(a[0], a[1..] + "," + b);
      assert a == [a[0]] + a[1..];
      SplitOfCons(a[0], a[1..]);
      PiecesAppend(a[0], Split(a[1..], ','), Split(b, ','));
    }
  }

  lemma PiecesAppend(c: char, x: seq<string>, y: seq<string>)
    requires x != []
    ensures [[]] + (x + y) == ([[]] + x) + y
    ensures [[c] + (x + y)[0]] + (x + y)[1..] == ([[c] + x[0]] + x[1..]) + y
  {
  }

  lemma SplitOfCons(c: char, s: string)
    ensures Split([c] + s, ',') == if c == ',' then [[]] + Split(s, ',') else [[c] + Split(s, ',')[0]] + Split(s, ',')[1..]
  {
    assert ([c] + s)[1..] == s;
  }

  lemma {:induction false} SplitOfJoin(types: seq<string>)
    ensures Split(Join(types, ","), ',') == Pieces(types)
  {
    if |types| > 1 {
      SplitAppend(types[0], Join(types[1..], ","));
      SplitOfJoin(types[1..]);
    }
  }

  lemma TypesTextAgree(a: seq<string>, b: seq<string>)
    ensures TypesText(a) == TypesText(b) <==> Pieces(Sort(StringLe, a)) == Pieces(Sort(StringLe, b))
  {
    SplitOfJoin(Sort(StringLe, a));
    SplitOfJoin(Sort(StringLe, b));
    JoinSplit(TypesText(a), ',');
    JoinSplit(TypesText(b), ',');
  }

  lemma NoBars(n: nat, d: Detail, upstream: bool)
    ensures '|' !in D.ToDecimal(n) && '|' !in DetailName(d) && '|' !in Direction(upstream)
  {
    D.DecimalDigits(n);
  }

  lemma NumbersAgree(m: nat, n: nat)
    requires D.ToDecimal(m) == D.ToDecimal(n)
    ensures m == n
  {
    D.DecimalValue(m);
    D.DecimalValue(n);
  }

  lemma NamesAgree(a: Request, b: Request)
    ensures Direction(a.upstream) == Direction(b.upstream) <==> a.upstream == b.upstream
    ensures DetailName(a.detail) == DetailName(b.detail) <==> a.detail == b.detail
  {
    assert |Direction(a.upstream)| == if a.upstream then 8 else 10;
    assert |Direction(b.upstream)| == if b.upstream then 8 else 10;
    assert |DetailName(a.detail)| == (match a.detail case Compact => 7 case Standard => 8 case Full => 4);
    assert |DetailName(b.detail)| == (match b.detail case Compact => 7 case Standard => 8 case Full => 4);
  }

  lemma ScalarsAgree(a: Request, b: Request)
    requires Scalars(a) == Scalars(b)
    ensures a.upstream == b.upstream && a.depth == b.depth && a.maxResults == b.maxResults && a.detail == b.detail
  {
    hide D.ToDecimal, DetailName, Direction;
    NoBars(a.depth, a.detail, a.upstream);
    NoBars(b.depth, b.detail, b.upstream);
    NoBars(a.maxResults, a.detail, a.upstream);
    NoBars(b.maxResults, b.detail, b.upstream);
    var a3, b3 := D.ToDecimal(a.maxResults) + "|" + DetailName(a.detail), D.ToDecimal(b.maxResults) + "|" + DetailName(b.detail);
    var a2, b2 := D.ToDecimal(a.depth) + "|" + a3, D.ToDecimal(b.depth) + "|" + b3;
    SplitAtFirst(Direction(a.upstream), '|', a2, Direction(b.upstream), b2);
    SplitAtFirst(D.ToDecimal(a.depth), '|', a3, D.ToDecimal(b.depth), b3);
    SplitAtFirst(D.ToDecimal(a.maxResults), '|', DetailName(a.detail), D.ToDecimal(b.maxResults), DetailName(b.detail));
    NumbersAgree(a.depth, b.depth);
    NumbersAgree(a.maxResults, b.maxResults);
    NamesAgree(a, b);
  }

  /** What follows the root in a key determines all scalars and the text of the types. */
  lemma TailsAgree(a: Request, b: Request, x: string, y: string)
    requires Scalars(a) + "|" + x == Scalars(b) + "|" + y
    ensures Scalars(a) == Scalars(b) && x == y
  {
    hide D.ToDecimal, DetailName, Direction;
    NoBars(a.depth, a.detail, a.upstream);
    NoBars(b.depth, b.detail, b.upstream);
    NoBars(a.maxResults, a.detail, a.upstream);
    NoBars(b.maxResults, b.detail, b.upstream);
    var a4, b4 := DetailName(a.detail) + "|" + x, DetailName(b.detail) + "|" + y;
    var a3, b3 := D.ToDecimal(a.maxResults) + "|" + a4, D.ToDecimal(b.maxResults) + "|" + b4;
    var a2, b2 := D.ToDecimal(a.depth) + "|" + a3, D.ToDecimal(b.depth) + "|" + b3;
    assert Scalars(a) + "|" + x == Direction(a.upstream) + "|" + a2;
    assert Scalars(b) + "|" + y == Direction(b.upstream) + "|" + b2;
    SplitAtFirst(Direction(a.upstream), '|', a2, Direction(b.upstream), b2);
    SplitAtFirst(D.ToDecimal(a.depth), '|', a3, D.ToDecimal(b.depth), b3);
    SplitAtFirst(D.ToDecimal(a.maxResults), '|', a4, D.ToDecimal(b.maxResults), b4);
    SplitAtFirst(DetailName(a.detail), '|', x, DetailName(b.detail), y);
  }

  /** The root of `b` goes on, where that of `a` ends, with the scalars of `a` and a rest `p`; and the
      types of `a` begin with that rest and go on with the scalars and the types of `b`. */
  ghost predicate ShiftedBy(a: Request, b: Request, p: string) {
    && b.root == a.root + "|" + Scalars(a) + p
    && "|" + TypesText(a.types) == p + "|" + Scalars(b) + "|" + TypesText(b.types)
  }

  ghost predicate Shifted(a: Request, b: Request) {
    exists p: string :: ShiftedBy(a, b, p)
  }

  lemma ShiftedShare(a: Request, b: Request)
    requires Shifted(a, b)
    ensures CacheKey(a) == CacheKey(b) && |a.root| < |b.root|
  {
    hide Scalars, TypesText;
    var p: string :| ShiftedBy(a, b, p);
    var x, y := TypesText(a.types), TypesText(b.types);
    assert CacheKey(a) == a.root + "|" + Scalars(a) + ("|" + x);
    assert CacheKey(b) == a.root + "|" + Scalars(a) + (p + "|" + Scalars(b) + "|" + y);
  }

  lemma {:induction false} FirstSplits(s: string, c: char)
    requires c in s
    ensures First(s, c) < |s| && c !in s[..First(s, c)] && s[First(s, c)] == c
  {
    if s[0] != c {
      FirstSplits(s[1..], c);
      assert s[..First(s, c)] == [s[0]] + s[1..][..First(s[1..], c)];
    }
  }

  /** A field without a bar at the start of a text is all of `r`, or `r` goes on behind it. */
  lemma Peel(f: string, x: string, r: string, z: string) returns (rest: Option<string>)
    requires f + "|" + x == r + "|" + z && '|' !in f
    ensures rest.None? ==> r == f && x == z
    ensures rest.Some? ==> r == f + "|" + rest.value && x == rest.value + "|" + z
  {
    if '|' !in r {
      SplitAtFirst(f, '|', x, r, z);
      rest := None;
    } else {
      FirstSplits(r, '|');
      var k := First(r, '|');
      var head, t := r[..k], r[k + 1..];
      assert r == head + "|" + t;
      assert r + "|" + z == head + "|" + (t + "|" + z);
      SplitAtFirst(f, '|', x, head, t + "|" + z);
      rest := Some(t);
    }
  }

  /** What follows a number or a level of detail never begins with a direction. */
  lemma NumberIsNoDirection(n: nat, upstream: bool, x: string, y: string)
    ensures D.ToDecimal(n) + "|" + x != Direction(upstream) + "|" + y
  {
    D.DecimalDigits(n);
    assert (D.ToDecimal(n) + "|" + x)[0] == D.ToDecimal(n)[0];
    assert (Direction(upstream) + "|" + y)[0] == if upstream then 'u' else 'd';
  }

  lemma DetailIsNoDirection(d: Detail, upstream: bool, x: string, y: string)
    ensures DetailName(d) + "|" + x != Direction(upstream) + "|" + y
  {
    assert (DetailName(d) + "|" + x)[0] == (match d case Compact => 'c' case Standard => 's' case Full => 'f');
    assert (Direction(upstream) + "|" + y)[0] == if upstream then 'u' else 'd';
  }

  /** A root that goes on behind another one goes on with all scalars of that request. */
  lemma RootHoldsScalars(a: Request, b: Request, r: string, x: string, y: string) returns (p: string)
    requires Scalars(a) + "|" + x == r + "|" + (Scalars(b) + "|" + y)
    ensures r == Scalars(a) + p && "|" + x == p + "|" + (Scalars(b) + "|" + y)
  {
    hide D.ToDecimal, DetailName, Direction;
    var z := Scalars(b) + "|" + y;
    var f1, f2, f3, f4 := Direction(a.upstream), D.ToDecimal(a.depth), D.ToDecimal(a.maxResults), DetailName(a.detail);
    var x3 := f4 + "|" + x;
    var x2 := f3 + "|" + x3;
    var x1 := f2 + "|" + x2;
    assert Scalars(a) + "|" + x == f1 + "|" + x1;
    var zb := D.ToDecimal(b.depth) + "|" + (D.ToDecimal(b.maxResults) + "|" + (DetailName(b.detail) + "|" + y));
    assert z == Direction(b.upstream) + "|" + zb;
    NoBars(a.depth, a.detail, a.upstream);
    NoBars(a.maxResults, a.detail, a.upstream);
    NumberIsNoDirection(a.depth, b.upstream, x2, zb);
    NumberIsNoDirection(a.maxResults, b.upstream, x3, zb);
    DetailIsNoDirection(a.detail, b.upstream, x, zb);
    assert Scalars(a) == f1 + "|" + (f2 + "|" + (f3 + "|" + f4));
    hide Scalars;
    p := PeelFour(f1, f2, f3, f4, x, r, z);
  }

  lemma PeelFour(f1: string, f2: string, f3: string, f4: string, x: string, r: string, z: string) returns (p: string)
    requires '|' !in f1 && '|' !in f2 && '|' !in f3 && '|' !in f4
    requires f1 + "|" + (f2 + "|" + (f3 + "|" + (f4 + "|" + x))) == r + "|" + z
    requires f2 + "|" + (f3 + "|" + (f4 + "|" + x)) != z && f3 + "|" + (f4 + "|" + x) != z && f4 + "|" + x != z
    ensures r == f1 + "|" + (f2 + "|" + (f3 + "|" + f4)) + p && "|" + x == p + "|" + z
  {
    var r1 := Peel(f1, f2 + "|" + (f3 + "|" + (f4 + "|" + x)), r, z);
    var r2 := Peel(f2, f3 + "|" + (f4 + "|" + x), r1.value, z);
    var r3 := Peel(f3, f4 + "|" + x, r2.value, z);
    var r4 := Peel(f4, x, r3.value, z);
    p := if r4.Some? then "|" + r4.value else "";
    assert r3.value == f4 + p;
  }

  lemma LongerRootShifted(a: Request, b: Request)
    requires CacheKey(a) == CacheKey(b) && a.root != b.root && |a.root| <= |b.root|
    ensures Shifted(a, b)
  {
    hide Scalars, TypesText;
    var k, m, n := CacheKey(a), |a.root|, |b.root|;
    var x, y := TypesText(a.types), TypesText(b.types);
    assert k == a.root + "|" + (Scalars(a) + "|" + x) && k == b.root + "|" + (Scalars(b) + "|" + y);
    assert a.root == k[..m] && b.root == k[..n];
    var r := b.root[m + 1..];
    assert b.root == a.root + "|" + r;
    assert k[m + 1..] == Scalars(a) + "|" + x;
    assert k[m + 1..] == r + "|" + (Scalars(b) + "|" + y);
    var p := RootHoldsScalars(a, b, r, x, y);
    assert b.root == a.root + "|" + Scalars(a) + p;
    assert ShiftedBy(a, b, p);
  }

  lemma SameRootParts(a: Request, b: Request)
    requires CacheKey(a) == CacheKey(b) && a.root == b.root
    ensures Scalars(a) == Scalars(b) && TypesText(a.types) == TypesText(b.types)
  {
    hide Scalars, TypesText;
    var x, y := TypesText(a.types), TypesText(b.types);
    var s, t := Scalars(a) + "|" + x, Scalars(b) + "|" + y;
    assert CacheKey(a) == a.root + "|" + s && CacheKey(b) == b.root + "|" + t;
    assert s == (a.root + "|" + s)[|a.root| + 1..] && t == (b.root + "|" + t)[|b.root| + 1..];
    TailsAgree(a, b, x, y);
  }

  ghost predicate SamePieces(a: Request, b: Request) {
    SameScalars(a, b) && Pieces(Sort(StringLe, a.types)) == Pieces(Sort(StringLe, b.types))
  }

  lemma SamePiecesShare(a: Request, b: Request)
    ensures SamePieces(a, b) <==> a.root == b.root && CacheKey(a) == CacheKey(b)
  {
    TypesTextAgree(a.types, b.types);
    hide TypesText, Pieces, D.ToDecimal, DetailName, Direction;
    if a.root == b.root && CacheKey(a) == CacheKey(b) {
      SameRootParts(a, b);
      ScalarsAgree(a, b);
    }
  }

  /** Two requests share a key exactly when they agree in everything but the types and their sorted
      types, joined and split at commas, are the same pieces, or one is the other shifted. */
  lemma KeysAgree(a: Request, b: Request)
    ensures CacheKey(a) == CacheKey(b) <==> SamePieces(a, b) || Shifted(a, b) || Shifted(b, a)
  {
    hide CacheKey, SamePieces, Shifted;
    SamePiecesShare(a, b);
    if Shifted(a, b) {
      ShiftedShare(a, b);
    }
    if Shifted(b, a) {
      ShiftedShare(b, a);
    }
    if CacheKey(a) == CacheKey(b) && a.root != b.root {
      if |a.root| <= |b.root| {
        LongerRootShifted(a, b);
      } else {
        LongerRootShifted(b, a);
      }
    }
  }

  lemma {:induction false} JoinHolds(parts: seq<string>, c: char)
    requires c != ',' && forall i :: 0 <= i < |parts| ==> c !in parts[i]
    ensures c !in Join(parts, ",")
  {
    if |parts| > 1 {
      JoinHolds(parts[1..], c);
    }
  }

  ghost predicate NoBarIn(types: seq<string>) {
    forall t :: t in types ==> '|' !in t
  }

  lemma TextHasNoBar(types: seq<string>)
    requires NoBarIn(types)
    ensures '|' !in TypesText(types)
  {
    var sorted := Sort(StringLe, types);
    SameElements(sorted, types);
    forall i | 0 <= i < |sorted| ensures '|' !in sorted[i] {
      assert sorted[i] in types;
    }
    JoinHolds(sorted, '|');
  }

  /** Shifting needs a bar in the one root and a bar in the other's types. */
  lemma ShiftNeedsBars(a: Request, b: Request)
    requires Shifted(a, b)
    ensures '|' in b.root && !NoBarIn(a.types)
  {
    hide TypesText, Scalars, NoBarIn;
    var p: string :| ShiftedBy(a, b, p);
    assert b.root[|a.root|] == '|';
    var x, tail := TypesText(a.types), Scalars(b) + "|" + TypesText(b.types);
    assert "|" + x == p + "|" + tail;
    ScalarsHoldBar(b);
    var k :| 0 <= k < |Scalars(b)| && Scalars(b)[k] == '|';
    assert (p + "|" + tail)[|p| + 1 + k] == '|';
    assert x[|p| + k] == '|';
    if NoBarIn(a.types) {
      TextHasNoBar(a.types);
    }
  }

  lemma ScalarsHoldBar(r: Request)
    ensures '|' in Scalars(r)
  {
    assert Scalars(r)[|Direction(r.upstream)|] == '|';
  }

  // ---- The cache over whole runs ----

  /** A response is stored when it has been computed, served when its key is found, and dropped
      whenever the cache sees fit; other requests may come between a miss and its store. */
  datatype Event = Store(r: Request) | Serve(r: Request, shown: Response) | Drop(key: string)

  /** A request is refused before anything else unless its root is an entity of the manifest. */
  ghost predicate Step(m: Manifest, s: map<string, Response>, e: Event, t: map<string, Response>) {
    match e
    case Store(r) => r.root in m.entities && t == s[CacheKey(r) := Respond(m, r)]
    case Serve(r, shown) => r.root in m.entities && CacheKey(r) in s && shown == s[CacheKey(r)] && t == s
    case Drop(key) => t == s - {key}
  }

  ghost predicate IsRun(m: Manifest, states: seq<map<string, Response>>, events: seq<Event>) {
    && |states| == |events| + 1 && states[0] == map[]
    && forall i, j :: 0 <= i < j == i + 1 < |states| ==> Step(m, states[i], events[i], states[j])
  }

  /** Only requests of `p` are made. */
  ghost predicate Over(p: iset<Request>, events: seq<Event>) {
    forall i :: 0 <= i < |events| ==> events[i].Drop? || events[i].r in p
  }

  ghost predicate Fresh(m: Manifest, events: seq<Event>) {
    forall i :: 0 <= i < |events| && events[i].Serve? ==> events[i].shown == Respond(m, events[i].r)
  }

  /** On every manifest, every run of requests of `p` serves what a fresh computation would give. */
  ghost predicate AlwaysFresh(p: iset<Request>) {
    forall m, states, events :: IsRun(m, states, events) && Over(p, events) ==> Fresh(m, events)
  }

  /** Everything in the cache answers some request of `p` with that key. */
  ghost predicate CacheOk(m: Manifest, p: iset<Request>, s: map<string, Response>) {
    forall k :: k in s ==> exists r: Request :: r in p && CacheKey(r) == k && s[k] == Respond(m, r)
  }

  lemma {:induction false} RunCacheOk(m: Manifest, p: iset<Request>, states: seq<map<string, Response>>, events: seq<Event>, i: nat)
    requires IsRun(m, states, events) && Over(p, events) && i < |states|
    ensures CacheOk(m, p, states[i])
  {
    hide CacheKey, Respond;
    if i > 0 {
      RunCacheOk(m, p, states, events, i - 1);
      assert Step(m, states[i - 1], events[i - 1], states[i]);
    }
  }

  /** Any two requests of `p` that share a key ask the same. */
  ghost predicate KeysFaithful(p: iset<Request>) {
    forall a, b :: a in p && b in p && CacheKey(a) == CacheKey(b) ==> a.root == b.root && SameFilter(a.types, b.types)
  }

  lemma SharedKeySameQuestion(a: Request, b: Request)
    requires CacheKey(a) == CacheKey(b) && a.root == b.root && SameFilter(a.types, b.types)
    ensures SameQuestion(a, b)
  {
    hide CacheKey, SameFilter, SameQuestion;
    SamePiecesShare(a, b);
    SameQuestionExactly(a, b);
  }

  lemma FaithfulKeysFresh(p: iset<Request>)
    requires KeysFaithful(p)
    ensures AlwaysFresh(p)
  {
    hide CacheKey, SameFilter, SameQuestion, Respond;
    forall m: Manifest, states: seq<map<string, Response>>, events: seq<Event> | IsRun(m, states, events) && Over(p, events)
      ensures Fresh(m, events)
    {
      forall i | 0 <= i < |events| && events[i].Serve? ensures events[i].shown == Respond(m, events[i].r) {
        var r := events[i].r;
        RunCacheOk(m, p, states, events, i);
        assert Step(m, states[i], events[i], states[i + 1]);
        var q: Request :| q in p && CacheKey(q) == CacheKey(r) && states[i][CacheKey(r)] == Respond(m, q);
        SharedKeySameQuestion(q, r);
        SameQuestionSameResponse(m, q, r);
      }
    }
  }

  // ---- A filter that differs shows on some manifest ----

  /** One entity `id` next to the root. */
  function Pair(root: string, id: string, types: map<string, string>): Manifest {
    Manifest({root, id}, map[root := [id]], map[root := [id]], types)
  }

  lemma PairGraph(r: Request, id: string, types: map<string, string>)
    ensures var g := QueryOf(Pair(r.root, id, types), r).g;
            && g.related == map[r.root := [id]]
            && g.asked == if TypeAllowed(types, r.types, id) then {id} else {}
  {
    hide TypeAllowed;
    var related := map[r.root := [id]];
    assert Listed(related) == {id} by {
      assert related[r.root][0] == id;
    }
  }

  lemma PairAnswer(r: Request, id: string, types: map<string, string>)
    requires id != r.root
    ensures Respond(Pair(r.root, id, types), r).lineage.entities == [] <==> !TypeAllowed(types, r.types, id)
  {
    hide TypeAllowed, LineageOf, QueryOf, ReachesAt;
    PairGraph(r, id, types);
    var q := QueryOf(Pair(r.root, id, types), r);
    QueryScalars(Pair(r.root, id, types), r);
    var answer, entities := Answer(q.g, q.root, q.maxDepth), LineageOf(q).entities;
    if TypeAllowed(types, r.types, id) {
      PairReached(q.g, r.root, id);
      assert ReachesWithin(q.g, q.root, id, q.maxDepth);
      assert id in answer;
    } else {
      assert answer == {};
      DistinctCount(entities, answer);
    }
  }

  lemma QueryScalars(m: Manifest, r: Request)
    ensures var q := QueryOf(m, r); q.root == r.root && q.maxDepth == r.depth && q.maxResults == r.maxResults
  {
  }

  lemma PairReached(g: Graph, root: string, id: string)
    requires g.related == map[root := [id]] && g.asked == {id} && id != root
    ensures ReachesAt(g, root, id, 1) && id in Universe(g, root)
  {
    var p := [root, id];
    assert p[..1] == [root];
    assert Related(g, root)[0] == id;
    assert Connects(g, root, id, p) && Cost(g, p) == 1;
    ReachedInUniverse(g, root, id, 1);
  }

  lemma UncoveredShows(a: Request, b: Request) returns (m: Manifest)
    requires a.root == b.root && a.types != [] && b.types != [] && !Covers(a.types, b.types)
    ensures Respond(m, a) != Respond(m, b) && a.root in m.entities && b.root in m.entities
  {
    hide TypeAllowed, Respond, Occurs;
    var i :| 0 <= i < |a.types| && !Occurs(a.types[i], b.types);
    var id := a.root + "x";
    var types: map<string, string> := map[id := a.types[i]];
    m := Pair(a.root, id, types);
    OccursSelf(a.types, i);
    AllowedOccurs(types, a.types, id);
    AllowedOccurs(types, b.types, id);
    PairAnswer(a, id, types);
    PairAnswer(b, id, types);
  }

  lemma NoFilterShows(a: Request, b: Request) returns (m: Manifest)
    requires a.root == b.root && a.types == [] && b.types != []
    ensures Respond(m, a) != Respond(m, b) && a.root in m.entities && b.root in m.entities
  {
    hide TypeAllowed, Respond;
    var id, types: map<string, string> := a.root + "x", map[];
    m := Pair(a.root, id, types);
    AllowedOccurs(types, a.types, id);
    AllowedOccurs(types, b.types, id);
    PairAnswer(a, id, types);
    PairAnswer(b, id, types);
  }

  /** Requests with different roots or filters are answered differently on some manifest that knows
      both roots. */
  lemma DifferenceShows(a: Request, b: Request) returns (m: Manifest)
    requires a.root != b.root || !SameFilter(a.types, b.types)
    ensures Respond(m, a) != Respond(m, b) && a.root in m.entities && b.root in m.entities
  {
    hide Covers;
    if a.root != b.root {
      m := Manifest({a.root, b.root}, map[], map[], map[]);
      hide LineageOf;
    } else {
      hide Respond;
      if a.types == [] || b.types == [] {
        NothingCovers();
        if a.types == [] {
          m := NoFilterShows(a, b);
        } else {
          m := NoFilterShows(b, a);
        }
      } else if !Covers(a.types, b.types) {
        m := UncoveredShows(a, b);
      } else {
        m := UncoveredShows(b, a);
      }
    }
  }

  /** Storing the answer to one request and serving it for another. */
  lemma SharedKeyServes(m: Manifest, p: iset<Request>, a: Request, b: Request)
    requires AlwaysFresh(p) && a in p && b in p && CacheKey(a) == CacheKey(b)
    requires a.root in m.entities && b.root in m.entities
    ensures Respond(m, a) == Respond(m, b)
  {
    hide CacheKey, Respond;
    var shown := Respond(m, a);
    var none: map<string, Response> := map[];
    var full := none[CacheKey(a) := shown];
    var states, events := [none, full, full], [Store(a), Serve(b, shown)];
    assert Step(m, none, events[0], full) && Step(m, full, events[1], full);
    assert IsRun(m, states, events) && Over(p, events);
    assert events[1].shown == Respond(m, b);
  }

  lemma FreshKeysFaithful(p: iset<Request>)
    requires AlwaysFresh(p)
    ensures KeysFaithful(p)
  {
    hide CacheKey, SameFilter, Respond, AlwaysFresh;
    forall a, b | a in p && b in p && CacheKey(a) == CacheKey(b) ensures a.root == b.root && SameFilter(a.types, b.types) {
      if a.root != b.root || !SameFilter(a.types, b.types) {
        var m := DifferenceShows(a, b);
        SharedKeyServes(m, p, a, b);
      }
    }
  }

  /** A set of requests is always served fresh answers exactly when any two of them that share a
      key have the same root and the same filter. */
  lemma FreshExactly(p: iset<Request>)
    ensures AlwaysFresh(p) <==> KeysFaithful(p)
  {
    hide AlwaysFresh, KeysFaithful;
    if AlwaysFresh(p) {
      FreshKeysFaithful(p);
    }
    if KeysFaithful(p) {
      FaithfulKeysFresh(p);
    }
  }

  /** In terms of the requests themselves: exactly when none is another one shifted, and types that
      give the same pieces at commas are the same filter. */
  lemma FreshByPieces(p: iset<Request>)
    ensures AlwaysFresh(p) <==>
      && (forall a, b :: a in p && b in p ==> !Shifted(a, b))
      && (forall a, b :: a in p && b in p && SamePieces(a, b) ==> SameFilter(a.types, b.types))
  {
    hide AlwaysFresh, CacheKey, SameFilter, SamePieces, Shifted;
    FreshExactly(p);
    forall a, b | a in p && b in p
      ensures CacheKey(a) == CacheKey(b) <==> SamePieces(a, b) || Shifted(a, b) || Shifted(b, a)
      ensures SamePieces(a, b) ==> a.root == b.root
      ensures Shifted(a, b) ==> a.root != b.root
    {
      KeysAgree(a, b);
      SamePiecesShare(a, b);
      if Shifted(a, b) {
        ShiftedShare(a, b);
      }
    }
  }

  // ---- Plain types ----

  /** No type is empty or holds a comma. */
  ghost predicate Plain(types: seq<string>) {
    forall t :: t in types ==> t != [] && ',' !in t
  }

  lemma {:induction false} PlainPieces(types: seq<string>)
    requires types != [] && forall t :: t in types ==> t != [] && ',' !in t
    ensures Pieces(types) == types
  {
    SplitWhole(types[0], ',');
    if |types| > 1 {
      assert forall t :: t in types[1..] ==> t in types;
      PlainPieces(types[1..]);
    }
  }

  lemma SortedPieces(types: seq<string>)
    requires forall t :: t in types ==> t != [] && ',' !in t
    ensures Pieces(Sort(StringLe, types)) == if types == [] then [""] else Sort(StringLe, types)
    ensures [""] != Sort(StringLe, types)
  {
    var sorted := Sort(StringLe, types);
    SameElements(sorted, types);
    if types != [] {
      PlainPieces(sorted);
      assert sorted[0] in types;
    }
  }

  /** Plain types give the same pieces exactly when they are the same up to order. */
  lemma PlainKeysAgree(a: Request, b: Request)
    requires Plain(a.types) && Plain(b.types)
    ensures CacheKey(a) == CacheKey(b) <==>
      (SameScalars(a, b) && multiset(a.types) == multiset(b.types)) || Shifted(a, b) || Shifted(b, a)
  {
    hide CacheKey, Shifted;
    KeysAgree(a, b);
    SortedPieces(a.types);
    SortedPieces(b.types);
    StringLeIsTotalOrder();
    SortCanonical(StringLe, a.types, b.types);
  }

  lemma SameTypesSameFilter(a: seq<string>, b: seq<string>)
    requires multiset(a) == multiset(b)
    ensures SameFilter(a, b)
  {
    assert |multiset(a)| == |a| && |multiset(b)| == |b|;
    SameElements(a, b);
    forall i | 0 <= i < |a| ensures Occurs(a[i], b) {
      assert a[i] in b;
    }
    forall i | 0 <= i < |b| ensures Occurs(b[i], a) {
      assert b[i] in a;
    }
  }

  /** Requests with plain types are always served fresh answers exactly when none is another one
      shifted, for which some root must hold a bar and some type as well. */
  lemma PlainServedFresh(p: iset<Request>)
    requires forall r :: r in p ==> Plain(r.types)
    ensures AlwaysFresh(p) <==> forall a, b :: a in p && b in p ==> !Shifted(a, b)
    ensures (forall r :: r in p ==> '|' !in r.root) || (forall r :: r in p ==> NoBarIn(r.types)) ==> AlwaysFresh(p)
  {
    hide AlwaysFresh, SameFilter, NoBarIn, Plain, SamePieces, Shifted;
    FreshByPieces(p);
    forall a, b | a in p && b in p && SamePieces(a, b) ensures SameFilter(a.types, b.types) {
      PlainSamePieces(a, b);
      SameTypesSameFilter(a.types, b.types);
    }
    forall a, b | a in p && b in p && Shifted(a, b) ensures '|' in b.root && !NoBarIn(a.types) {
      ShiftNeedsBars(a, b);
    }
  }

  lemma PlainSamePieces(a: Request, b: Request)
    requires Plain(a.types) && Plain(b.types) && SamePieces(a, b)
    ensures multiset(a.types) == multiset(b.types)
  {
    SortedPieces(a.types);
    SortedPieces(b.types);
    StringLeIsTotalOrder();
    SortCanonical(StringLe, a.types, b.types);
  }

  // ---- Requests that are answered wrongly ----

  /** Two requests that share a key and ask different things are, on some manifest, served each
      other's answers. */
  lemma CollisionServedStale(a: Request, b: Request)
    requires CacheKey(a) == CacheKey(b) && !SameQuestion(a, b)
    ensures !AlwaysFresh(iset{a, b})
  {
    hide AlwaysFresh, CacheKey, SameFilter, SameQuestion;
    FreshExactly(iset{a, b});
    if a.root == b.root && SameFilter(a.types, b.types) {
      SharedKeySameQuestion(a, b);
    }
    assert a in iset{a, b} && b in iset{a, b};
  }

  lemma SameTextsCollide(a: Request, b: Request)
    requires SameScalars(a, b) && TypesText(a.types) == TypesText(b.types)
    ensures CacheKey(a) == CacheKey(b)
  {
  }

  /** An empty type shares the key of no filter at all, which asks for more. */
  lemma BlankTypeCollides(r: Request)
    ensures var a: Request, b: Request := r.(types := []), r.(types := [""]);
            CacheKey(a) == CacheKey(b) && !SameQuestion(a, b) && !AlwaysFresh(iset{a, b})
  {
    var a: Request, b: Request := r.(types := []), r.(types := [""]);
    assert Sort(StringLe, [""]) == [""];
    assert TypesText([]) == TypesText([""]);
    hide TypesText, CacheKey, SameQuestion, AlwaysFresh;
    SameTextsCollide(a, b);
    SameQuestionExactly(a, b);
    CollisionServedStale(a, b);
  }

  lemma CommaText()
    ensures TypesText(["model,seed"]) == TypesText(["model", "seed"])
  {
    var one, two := ["model,seed"], ["model", "seed"];
    assert Sort(StringLe, one) == one;
    TwoSorted();
    hide Sort;
    assert two[1..] == ["seed"];
    assert Join(two, ",") == "model" + "," + "seed" == "model,seed" == Join(one, ",");
  }

  lemma TwoSorted()
    ensures Sort(StringLe, ["model", "seed"]) == ["model", "seed"]
  {
    assert StringLe("model", "seed");
    assert Sort(StringLe, ["seed"]) == ["seed"];
    assert ["model", "seed"] == ["model"] + ["seed"];
    hide Sort, StringLe;
    SortCons(StringLe, "model", ["seed"]);
  }

  /** A type with a comma can share the key of two types. */
  lemma CommaTypeCollides(r: Request)
    ensures var a: Request, b: Request := r.(types := ["model,seed"]), r.(types := ["model", "seed"]);
            CacheKey(a) == CacheKey(b) && !SameQuestion(a, b) && !AlwaysFresh(iset{a, b})
  {
    hide TypesText, CacheKey, SameQuestion, AlwaysFresh;
    CommaText();
    var a: Request, b: Request := r.(types := ["model,seed"]), r.(types := ["model", "seed"]);
    SameTextsCollide(a, b);
    SameQuestionExactly(a, b);
    assert |Lower(b.types[0])| == 5 && |Lower(a.types[0])| == 10;
    assert !Occurs(b.types[0], a.types);
    CollisionServedStale(a, b);
  }

  /** A bar in a root and bars in a type can make up for each other, whatever else is asked. */
  lemma BarCollides(r: Request, s: Request, t: string, z: string)
    ensures var a: Request := r.(types := [t + "|" + Scalars(s) + "|" + z]);
            var b: Request := s.(root := r.root + "|" + Scalars(r) + "|" + t, types := [z]);
            CacheKey(a) == CacheKey(b) && !SameQuestion(a, b) && !AlwaysFresh(iset{a, b})
  {
    var a: Request := r.(types := [t + "|" + Scalars(s) + "|" + z]);
    var b: Request := s.(root := r.root + "|" + Scalars(r) + "|" + t, types := [z]);
    hide *;
    SameScalarsText(a, r);
    SameScalarsText(b, s);
    OneTypeText(a.types[0]);
    OneTypeText(z);
    BarShifts(a, b, t);
    DifferentRoots(a, b);
    CollisionServedStale(a, b);
  }

  lemma BarShifts(a: Request, b: Request, t: string)
    requires b.root == a.root + "|" + Scalars(a) + "|" + t
    requires TypesText(a.types) == t + "|" + Scalars(b) + "|" + TypesText(b.types)
    ensures CacheKey(a) == CacheKey(b) && a.root != b.root
  {
    hide Scalars, TypesText, CacheKey;
    var p := "|" + t;
    assert b.root == a.root + "|" + Scalars(a) + p;
    assert "|" + (t + "|" + Scalars(b) + "|" + TypesText(b.types)) == p + "|" + Scalars(b) + "|" + TypesText(b.types);
    assert ShiftedBy(a, b, p);
    ShiftedShare(a, b);
  }

  lemma DifferentRoots(a: Request, b: Request)
    requires a.root != b.root
    ensures !SameQuestion(a, b)
  {
  }

  lemma SameScalarsText(a: Request, b: Request)
    requires a.upstream == b.upstream && a.depth == b.depth && a.maxResults == b.maxResults && a.detail == b.detail
    ensures Scalars(a) == Scalars(b)
  {
  }

  lemma OneTypeText(t: string)
    ensures TypesText([t]) == t
  {
  }
}
