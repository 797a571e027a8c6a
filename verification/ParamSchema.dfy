/** The parameter names a tool accepts: the property names a JSON schema allows, found by
    walking local references and the three combinators. */
module ParamSchema {
  import opened Wrappers
  import opened Ordering
  import opened Text
  import opened JsonPointer
  import J = Json

  /** `resolve_local_schema_ref`. */
  function ResolveLocalRef(root: J.Value, reference: string): Option<J.Value> {
    if reference != [] && reference[0] == '#' then Pointer(root, reference[1..]) else None
  }

  function Reference(schema: J.Value): Option<string> {
    match J.Get(schema, "$ref")
    case Some(Str(s)) => Some(s)
    case _ => None
  }

  function ItemsOf(schema: J.Value, keyword: string): seq<J.Value> {
    match J.Get(schema, keyword)
    case Some(Arr(items)) => items
    case _ => []
  }

  const KEYWORDS: seq<string> := ["allOf", "anyOf", "oneOf"]

  /** The property names a schema object declares itself; a reference hides them. */
  function OwnKeys(schema: J.Value): set<string> {
    if Reference(schema).Some? then {}
    else
      match J.Get(schema, "properties")
      case Some(Obj(fields)) => fields.Keys
      case _ => {}
  }

  function Combined(schema: J.Value, keywords: seq<string>): seq<J.Value> {
    if keywords == [] then []
    else Combined(schema, keywords[..|keywords| - 1]) + ItemsOf(schema, keywords[|keywords| - 1])
  }

  /** The schemas a schema leads to: the target of its reference, which hides everything
      else, or the members of its combinators. */
  function Next(root: J.Value, schema: J.Value): seq<J.Value> {
    match Reference(schema)
    case Some(reference) =>
      (match ResolveLocalRef(root, reference)
       case Some(target) => [target]
       case None => [])
    case None => Combined(schema, KEYWORDS)
  }

  /** What a schema leads to: with a reference only its target, and without one every member of
      allOf, anyOf and oneOf. */
  lemma NextExactly(root: J.Value, schema: J.Value, w: J.Value)
    ensures Reference(schema).Some? ==>
      (w in Next(root, schema) <==> ResolveLocalRef(root, Reference(schema).value) == Some(w))
    ensures Reference(schema).None? ==>
      (w in Next(root, schema) <==> w in ItemsOf(schema, "allOf") || w in ItemsOf(schema, "anyOf") || w in ItemsOf(schema, "oneOf"))
  {
    hide ItemsOf, ResolveLocalRef, Reference;
    var three: seq<string> := ["allOf", "anyOf", "oneOf"];
    assert KEYWORDS == three;
    CombinedPush(schema, [], "allOf");
    CombinedPush(schema, ["allOf"], "anyOf");
    CombinedPush(schema, ["allOf", "anyOf"], "oneOf");
    assert [] + ["allOf"] == ["allOf"] && ["allOf"] + ["anyOf"] == ["allOf", "anyOf"];
    assert ["allOf", "anyOf"] + ["oneOf"] == three;
  }

  lemma CombinedPush(schema: J.Value, keywords: seq<string>, keyword: string)
    ensures Combined(schema, keywords + [keyword]) == Combined(schema, keywords) + ItemsOf(schema, keyword)
    ensures Combined(schema, []) == []
  {
    assert (keywords + [keyword])[..|keywords|] == keywords;
  }

  // ---- What the walk should find, stated over chains of schemas ----

  ghost predicate IsChain(root: J.Value, p: seq<J.Value>) {
    |p| > 0 && (|p| > 1 ==> p[1] in Next(root, p[0]) && IsChain(root, p[1..]))
  }

  ghost predicate Leads(root: J.Value, from: J.Value, to: J.Value) {
    exists p :: IsChain(root, p) && p[0] == from && p[|p| - 1] == to
  }

  /** A schema leads back to itself. */
  ghost predicate OnCycle(root: J.Value, v: J.Value) {
    exists p :: |p| > 1 && IsChain(root, p) && p[0] == v && p[|p| - 1] == v
  }

  ghost predicate Allows(root: J.Value, schema: J.Value, key: string) {
    exists v :: Leads(root, schema, v) && key in OwnKeys(v)
  }

  // ---- The walk ----

  /** `collect_schema_properties` with a bound on the depth of the recursion. */
  function Walk(root: J.Value, schema: J.Value, fuel: nat): Option<set<string>>
    decreases fuel
  {
    if fuel == 0 then None
    else
      var next, rest: nat := Next(root, schema), fuel - 1;
      if forall w | w in next :: Walk(root, w, rest).Some?
      then Some(OwnKeys(schema) + set w, k | w in next && k in Walk(root, w, rest).value :: k)
      else None
  }

  lemma LeadsStep(root: J.Value, v: J.Value, w: J.Value, x: J.Value)
    requires w in Next(root, v) && Leads(root, w, x)
    ensures Leads(root, v, x)
  {
    hide Next;
    var p :| IsChain(root, p) && p[0] == w && p[|p| - 1] == x;
    assert ([v] + p)[1..] == p;
    assert IsChain(root, [v] + p);
  }

  lemma LeadsCases(root: J.Value, v: J.Value, x: J.Value)
    requires Leads(root, v, x)
    ensures v == x || exists w :: w in Next(root, v) && Leads(root, w, x)
  {
    hide Next;
    var p :| IsChain(root, p) && p[0] == v && p[|p| - 1] == x;
    if |p| > 1 {
      assert p[1..][|p[1..]| - 1] == x;
      assert p[1] in Next(root, v) && Leads(root, p[1], x);
    }
  }

  lemma LeadsSelf(root: J.Value, v: J.Value)
    ensures Leads(root, v, v)
  {
    assert IsChain(root, [v]) && [v][0] == v && [v][|[v]| - 1] == v;
  }

  lemma AllowsUnfolds(root: J.Value, schema: J.Value, key: string)
    ensures Allows(root, schema, key) <==>
      key in OwnKeys(schema) || exists w :: w in Next(root, schema) && Allows(root, w, key)
  {
    hide Next, OwnKeys, Leads;
    if Allows(root, schema, key) {
      var v :| Leads(root, schema, v) && key in OwnKeys(v);
      LeadsCases(root, schema, v);
    }
    if key in OwnKeys(schema) {
      LeadsSelf(root, schema);
    }
    forall w | w in Next(root, schema) && Allows(root, w, key) ensures Allows(root, schema, key) {
      var v :| Leads(root, w, v) && key in OwnKeys(v);
      LeadsStep(root, schema, w, v);
    }
  }

  /** A walk that ends has found exactly the property names of the schemas reached. */
  lemma {:induction false} WalkFindsAllowed(root: J.Value, schema: J.Value, fuel: nat, key: string)
    requires Walk(root, schema, fuel).Some?
    ensures key in Walk(root, schema, fuel).value <==> Allows(root, schema, key)
    decreases fuel
  {
    AllowsUnfolds(root, schema, key);
    hide Allows, Next, OwnKeys;
    forall w | w in Next(root, schema)
      ensures key in Walk(root, w, fuel - 1).value <==> Allows(root, w, key)
    {
      WalkFindsAllowed(root, w, fuel - 1, key);
    }
  }

  // ---- When the walk ends ----

  ghost predicate ChainsWithin(root: J.Value, v: J.Value, n: nat) {
    forall p :: IsChain(root, p) && p[0] == v ==> |p| <= n
  }

  lemma ChainsUnfold(root: J.Value, v: J.Value, n: nat)
    requires n > 0
    ensures ChainsWithin(root, v, n) <==> forall w :: w in Next(root, v) ==> ChainsWithin(root, w, n - 1)
  {
    hide Next;
    if ChainsWithin(root, v, n) {
      forall w, p | w in Next(root, v) && IsChain(root, p) && p[0] == w ensures |p| <= n - 1 {
        assert ([v] + p)[1..] == p;
        assert IsChain(root, [v] + p);
      }
    }
    if forall w :: w in Next(root, v) ==> ChainsWithin(root, w, n - 1) {
      forall p | IsChain(root, p) && p[0] == v ensures |p| <= n {
        if |p| > 1 {
          assert ChainsWithin(root, p[1], n - 1);
          assert p[1..][0] == p[1];
        }
      }
    }
  }

  lemma ChainsNotEmpty(root: J.Value, v: J.Value)
    ensures !ChainsWithin(root, v, 0)
  {
    assert IsChain(root, [v]);
  }

  /** The recursion of the walk is as deep as the longest chain. */
  lemma {:induction false} WalkDepth(root: J.Value, schema: J.Value, fuel: nat)
    ensures Walk(root, schema, fuel).Some? <==> ChainsWithin(root, schema, fuel)
    decreases fuel
  {
    hide ChainsWithin, Next, OwnKeys;
    if fuel == 0 {
      ChainsNotEmpty(root, schema);
    } else {
      ChainsUnfold(root, schema, fuel);
      forall w | w in Next(root, schema)
        ensures Walk(root, w, fuel - 1).Some? <==> ChainsWithin(root, w, fuel - 1)
      {
        WalkDepth(root, w, fuel - 1);
      }
    }
  }

  /** All values inside a document, itself included. */
  function Parts(v: J.Value): set<J.Value> {
    {v} + match v
          case Arr(items) => set i, x | 0 <= i < |items| && x in Parts(items[i]) :: x
          case Obj(fields) => set k, x | k in fields && x in Parts(fields[k]) :: x
          case _ => {}
  }

  lemma {:induction false} PartsOfParts(v: J.Value, w: J.Value, x: J.Value)
    requires w in Parts(v) && x in Parts(w)
    ensures x in Parts(v)
    decreases v
  {
    if w != v {
      match v
      case Arr(items) =>
        var i :| 0 <= i < |items| && w in Parts(items[i]);
        PartsOfParts(items[i], w, x);
      case Obj(fields) =>
        var k :| k in fields && w in Parts(fields[k]);
        PartsOfParts(fields[k], w, x);
    }
  }

  lemma PartSelf(v: J.Value)
    ensures v in Parts(v)
  {
  }

  lemma {:induction false} FollowIsPart(v: J.Value, tokens: seq<string>)
    requires Follow(v, tokens).Some?
    ensures Follow(v, tokens).value in Parts(v)
    decreases |tokens|
  {
    if tokens == [] {
      PartSelf(v);
    } else {
      var c := Child(v, tokens[0]).value;
      PartSelf(c);
      assert c in Parts(v);
      FollowIsPart(c, tokens[1..]);
      PartsOfParts(v, c, Follow(c, tokens[1..]).value);
    }
  }

  /** Every value inside a document has a place. */
  lemma {:induction false} PartHasPlace(v: J.Value, w: J.Value) returns (steps: seq<Step>)
    requires w in Parts(v)
    ensures Down(v, steps) == Some(w)
    decreases v
  {
    if w == v {
      steps := [];
    } else {
      match v
      case Arr(items) =>
        var i :| 0 <= i < |items| && w in Parts(items[i]);
        var rest := PartHasPlace(items[i], w);
        steps := [Item(i)] + rest;
        assert steps[1..] == rest;
      case Obj(fields) =>
        var k :| k in fields && w in Parts(fields[k]);
        var rest := PartHasPlace(fields[k], w);
        steps := [Member(k)] + rest;
        assert steps[1..] == rest;
    }
  }

  /** Local references resolve to exactly the values inside the document. */
  lemma ReferencesReachAllParts(root: J.Value, w: J.Value)
    ensures w in Parts(root) <==> exists reference :: ResolveLocalRef(root, reference) == Some(w)
  {
    hide Parts;
    if w in Parts(root) {
      var steps := PartHasPlace(root, w);
      PointerRoundTrip(root, steps);
      var reference := "#" + PrintPointer(steps);
      assert reference[1..] == PrintPointer(steps);
      hide Pointer, Down;
      assert ResolveLocalRef(root, reference) == Some(w);
    }
    forall reference | ResolveLocalRef(root, reference) == Some(w) ensures w in Parts(root) {
      var pointer := reference[1..];
      if pointer == [] {
        PartSelf(root);
      } else {
        FollowIsPart(root, UnescapeAll(Split(pointer[1..], '/')));
      }
    }
  }

  lemma {:induction false} CombinedArePart(schema: J.Value, keywords: seq<string>, w: J.Value)
    requires w in Combined(schema, keywords)
    ensures w in Parts(schema)
  {
    var last := keywords[|keywords| - 1];
    if w in ItemsOf(schema, last) {
      var arr := schema.fields[last];
      var i :| 0 <= i < |arr.items| && arr.items[i] == w;
      PartSelf(w);
      assert w in Parts(arr);
      PartSelf(arr);
      assert arr in Parts(schema);
      PartsOfParts(schema, arr, w);
    } else {
      CombinedArePart(schema, keywords[..|keywords| - 1], w);
    }
  }

  lemma NextIsPart(root: J.Value, schema: J.Value, w: J.Value)
    requires schema in Parts(root) && w in Next(root, schema)
    ensures w in Parts(root)
  {
    if Reference(schema).Some? {
      var pointer := Reference(schema).value[1..];
      if pointer == [] {
        PartSelf(root);
      } else {
        FollowIsPart(root, UnescapeAll(Split(pointer[1..], '/')));
      }
    } else {
      CombinedArePart(schema, KEYWORDS, w);
      PartsOfParts(root, schema, w);
    }
  }

  lemma {:induction false} ChainInParts(root: J.Value, p: seq<J.Value>, i: nat)
    requires IsChain(root, p) && p[0] in Parts(root) && i < |p|
    ensures p[i] in Parts(root)
    decreases |p|
  {
    hide Next, Parts;
    if i > 0 {
      NextIsPart(root, p[0], p[1]);
      ChainInParts(root, p[1..], i - 1);
    }
  }

  lemma {:induction false} ChainDrop(root: J.Value, p: seq<J.Value>, i: nat)
    requires IsChain(root, p) && i < |p|
    ensures IsChain(root, p[i..])
    decreases i
  {
    hide Next;
    if i == 0 {
      assert p[0..] == p;
    } else {
      ChainDrop(root, p[1..], i - 1);
      assert p[1..][i - 1..] == p[i..];
    }
  }

  lemma {:induction false} ChainTake(root: J.Value, p: seq<J.Value>, n: nat)
    requires IsChain(root, p) && 0 < n <= |p|
    ensures IsChain(root, p[..n])
    decreases n
  {
    hide Next;
    if n > 1 {
      ChainTake(root, p[1..], n - 1);
      assert p[1..][..n - 1] == p[..n][1..];
    }
  }

  lemma {:induction false} ChainConcat(root: J.Value, a: seq<J.Value>, b: seq<J.Value>)
    requires IsChain(root, a) && IsChain(root, b) && a[|a| - 1] == b[0]
    ensures IsChain(root, a + b[1..])
    decreases |a|
  {
    hide Next;
    if |a| == 1 {
      assert a + b[1..] == b;
    } else {
      ChainConcat(root, a[1..], b);
      assert (a + b[1..])[1..] == a[1..] + b[1..];
    }
  }

  /** A cycle gives chains of any length. */
  lemma {:induction false} CycleRepeats(root: J.Value, c: seq<J.Value>, n: nat) returns (p: seq<J.Value>)
    requires IsChain(root, c) && |c| > 1 && c[0] == c[|c| - 1]
    ensures IsChain(root, p) && p[0] == c[0] && p[|p| - 1] == c[0] && |p| > n
  {
    hide Next, IsChain;
    if n == 0 {
      p := c;
    } else {
      var q := CycleRepeats(root, c, n - 1);
      ChainConcat(root, q, c);
      p := q + c[1..];
    }
  }

  lemma RepeatGivesCycle(root: J.Value, p: seq<J.Value>, i: nat, j: nat)
    requires IsChain(root, p) && i < j < |p| && p[i] == p[j]
    ensures Leads(root, p[0], p[i]) && OnCycle(root, p[i])
  {
    hide *;
    ChainTake(root, p, i + 1);
    ChainTake(root, p, j + 1);
    ChainDrop(root, p[..j + 1], i);
    ChainLeads(root, p[..i + 1]);
    ChainCycles(root, p[..j + 1][i..]);
  }

  lemma ChainLeads(root: J.Value, p: seq<J.Value>)
    requires p != [] && IsChain(root, p)
    ensures Leads(root, p[0], p[|p| - 1])
  {
  }

  lemma ChainCycles(root: J.Value, p: seq<J.Value>)
    requires |p| > 1 && IsChain(root, p) && p[0] == p[|p| - 1]
    ensures OnCycle(root, p[0])
  {
  }

  /** Without a cycle in reach, a chain visits no schema twice. */
  lemma AcyclicChainShort(root: J.Value, p: seq<J.Value>)
    requires IsChain(root, p) && p[0] == root && forall v :: Leads(root, root, v) ==> !OnCycle(root, v)
    ensures |p| <= |Parts(root)|
  {
    hide Next, Leads, OnCycle, Parts;
    forall i, j | 0 <= i < j < |p| ensures p[i] != p[j] {
      if p[i] == p[j] {
        RepeatGivesCycle(root, p, i, j);
      }
    }
    PartSelf(root);
    forall v | v in p ensures v in Parts(root) {
      var i :| 0 <= i < |p| && p[i] == v;
      ChainInParts(root, p, i);
    }
    hide IsChain;
    DistinctCount(p, Parts(root));
  }

  lemma CycleBreaksBound(root: J.Value, v: J.Value, fuel: nat)
    requires Leads(root, root, v) && OnCycle(root, v)
    ensures !ChainsWithin(root, root, fuel)
  {
    hide Next;
    var p :| IsChain(root, p) && p[0] == root && p[|p| - 1] == v;
    var c :| |c| > 1 && IsChain(root, c) && c[0] == v && c[|c| - 1] == v;
    var q := CycleRepeats(root, c, fuel);
    ChainConcat(root, p, q);
    assert (p + q[1..])[0] == root;
  }

  /** The walk of a schema ends exactly when no schema it reaches refers back to itself. */
  lemma WalkEndsIffAcyclic(root: J.Value)
    ensures (exists fuel: nat :: Walk(root, root, fuel).Some?)
       <==> (forall v :: Leads(root, root, v) ==> !OnCycle(root, v))
  {
    hide Next, Parts, Walk, Leads, OnCycle;
    if fuel: nat :| Walk(root, root, fuel).Some? {
      WalkDepth(root, root, fuel);
      hide ChainsWithin;
      forall v | Leads(root, root, v) ensures !OnCycle(root, v) {
        if OnCycle(root, v) {
          CycleBreaksBound(root, v, fuel);
        }
      }
    }
    if forall v :: Leads(root, root, v) ==> !OnCycle(root, v) {
      var fuel := |Parts(root)|;
      forall p | IsChain(root, p) && p[0] == root ensures |p| <= fuel {
        AcyclicChainShort(root, p);
      }
      WalkDepth(root, root, fuel);
    }
  }

  /** A schema that refers to itself: its walk never ends. */
  lemma SelfReferenceNeverEnds(fuel: nat)
    ensures var root := J.Obj(map["$ref" := J.Str("#")]);
            && Leads(root, root, root) && OnCycle(root, root)
            && Walk(root, root, fuel) == None
  {
    var root := J.Obj(map["$ref" := J.Str("#")]);
    SelfReference(root);
    assert IsChain(root, [root, root]) by {
      assert [root, root][1..] == [root];
    }
    LeadsSelf(root, root);
    ChainCycles(root, [root, root]);
    hide Next, Walk, Leads, OnCycle;
    CycleBreaksBound(root, root, fuel);
    WalkDepth(root, root, fuel);
  }

  lemma SelfReference(root: J.Value)
    requires root == J.Obj(map["$ref" := J.Str("#")])
    ensures Next(root, root) == [root]
  {
    assert "#"[1..] == "";
    assert Reference(root) == Some("#");
  }

  // ---- The walk as the source performs it ----

  lemma WalkUnfolds(root: J.Value, schema: J.Value, fuel: nat)
    requires Walk(root, schema, fuel).Some?
    ensures fuel > 0
    ensures forall w :: w in Next(root, schema) ==> Walk(root, w, fuel - 1).Some?
    ensures Walk(root, schema, fuel).value == OwnKeys(schema) + Found(root, Next(root, schema), fuel - 1)
  {
    hide Next, OwnKeys;
  }

  /** `collect_schema_properties`; `fuel` is any bound under which the walk ends. */
  method CollectSchemaProperties(schema: J.Value, root: J.Value, keys0: set<string>, ghost fuel: nat)
    returns (keys: set<string>)
    requires Walk(root, schema, fuel).Some?
    ensures keys == keys0 + Walk(root, schema, fuel).value
    decreases fuel, 0
  {
    hide Walk, Found, Combined, ResolveLocalRef, Reference, Next;
    WalkOfReference(root, schema, fuel);
    WalkOfCombinators(root, schema, fuel);
    keys := keys0;
    if !schema.Obj? {
      return;
    }
    match Reference(schema)
    case Some(reference) =>
      match ResolveLocalRef(root, reference) {
        case Some(target) => keys := CollectSchemaProperties(target, root, keys, fuel - 1);
        case None =>
      }
    case None =>
      match J.Get(schema, "properties") {
        case Some(Obj(fields)) => keys := keys + fields.Keys;
        case _ =>
      }
      keys := CollectCombined(schema, root, keys, fuel - 1);
  }

  lemma WalkOfReference(root: J.Value, schema: J.Value, fuel: nat)
    requires Walk(root, schema, fuel).Some?
    ensures fuel > 0
    ensures Reference(schema).Some? ==>
      match ResolveLocalRef(root, Reference(schema).value)
      case Some(target) =>
        && Walk(root, target, fuel - 1).Some?
        && Walk(root, schema, fuel).value == Walk(root, target, fuel - 1).value
      case None => Walk(root, schema, fuel).value == {}
  {
    WalkUnfolds(root, schema, fuel);
    hide Walk, Found, ResolveLocalRef;
    FoundNothing(root, fuel - 1);
    if Reference(schema).Some? {
      match ResolveLocalRef(root, Reference(schema).value)
      case Some(target) =>
        FoundPush(root, [], target, fuel - 1);
        assert [] + [target] == [target];
      case None =>
    }
  }

  lemma WalkOfCombinators(root: J.Value, schema: J.Value, fuel: nat)
    requires Walk(root, schema, fuel).Some?
    ensures fuel > 0
    ensures Reference(schema).None? ==>
      && (forall w :: w in Combined(schema, KEYWORDS) ==> Walk(root, w, fuel - 1).Some?)
      && Walk(root, schema, fuel).value == OwnKeys(schema) + Found(root, Combined(schema, KEYWORDS), fuel - 1)
    ensures !schema.Obj? ==> Walk(root, schema, fuel).value == {}
  {
    WalkUnfolds(root, schema, fuel);
    hide Walk, Found, Combined;
    if !schema.Obj? {
      NoCombined(schema, KEYWORDS);
      FoundNothing(root, fuel - 1);
    }
  }

  /** The loops over the combinators and their members. */
  method CollectCombined(schema: J.Value, root: J.Value, keys0: set<string>, ghost fuel: nat) returns (keys: set<string>)
    requires forall w :: w in Combined(schema, KEYWORDS) ==> Walk(root, w, fuel).Some?
    ensures keys == keys0 + Found(root, Combined(schema, KEYWORDS), fuel)
    decreases fuel, 2
  {
    hide Walk, ItemsOf, Found;
    keys := keys0;
    FoundNothing(root, fuel);
    var k := 0;
    assert KEYWORDS[..0] == [];
    while k < |KEYWORDS|
      invariant 0 <= k <= |KEYWORDS|
      invariant keys == keys0 + Found(root, Combined(schema, KEYWORDS[..k]), fuel)
    {
      var items := ItemsOf(schema, KEYWORDS[k]);
      assert KEYWORDS[..k + 1][..k] == KEYWORDS[..k];
      ghost var done := Combined(schema, KEYWORDS[..k]);
      assert Combined(schema, KEYWORDS[..k + 1]) == done + items;
      CombinedGrows(schema, k + 1);
      forall w | w in items ensures Walk(root, w, fuel).Some? {
        assert w in done + items;
      }
      keys := CollectEach(items, root, keys, fuel);
      FoundConcat(root, done, items, fuel);
      k := k + 1;
    }
    assert KEYWORDS[..k] == KEYWORDS;
  }

  method CollectEach(items: seq<J.Value>, root: J.Value, keys0: set<string>, ghost fuel: nat) returns (keys: set<string>)
    requires forall w :: w in items ==> Walk(root, w, fuel).Some?
    ensures keys == keys0 + Found(root, items, fuel)
    decreases fuel, 1
  {
    hide Walk, Found;
    keys := keys0;
    FoundNothing(root, fuel);
    var i := 0;
    while i < |items|
      invariant 0 <= i <= |items|
      invariant keys == keys0 + Found(root, items[..i], fuel)
    {
      keys := CollectSchemaProperties(items[i], root, keys, fuel);
      assert items[..i + 1] == items[..i] + [items[i]];
      FoundPush(root, items[..i], items[i], fuel);
      i := i + 1;
    }
    assert items[..i] == items;
  }

  /** The names found below a list of schemas. */
  ghost function Found(root: J.Value, schemas: seq<J.Value>, fuel: nat): set<string> {
    set w, k | w in schemas && Walk(root, w, fuel).Some? && k in Walk(root, w, fuel).value :: k
  }

  lemma FoundPush(root: J.Value, schemas: seq<J.Value>, w: J.Value, fuel: nat)
    requires Walk(root, w, fuel).Some?
    ensures Found(root, schemas + [w], fuel) == Found(root, schemas, fuel) + Walk(root, w, fuel).value
  {
    assert forall v :: v in schemas + [w] <==> v in schemas || v == w;
  }

  lemma FoundNothing(root: J.Value, fuel: nat)
    ensures Found(root, [], fuel) == {}
  {
  }

  lemma FoundConcat(root: J.Value, a: seq<J.Value>, b: seq<J.Value>, fuel: nat)
    ensures Found(root, a + b, fuel) == Found(root, a, fuel) + Found(root, b, fuel)
  {
    hide Walk;
    assert forall v :: v in a + b <==> v in a || v in b;
  }

  lemma {:induction false} NoCombined(schema: J.Value, keywords: seq<string>)
    requires !schema.Obj?
    ensures Combined(schema, keywords) == []
  {
    if keywords != [] {
      NoCombined(schema, keywords[..|keywords| - 1]);
    }
  }

  lemma {:induction false} CombinedGrows(schema: J.Value, k: nat)
    requires k <= |KEYWORDS|
    ensures forall w :: w in Combined(schema, KEYWORDS[..k]) ==> w in Combined(schema, KEYWORDS)
    decreases |KEYWORDS| - k
  {
    if k == |KEYWORDS| {
      assert KEYWORDS[..k] == KEYWORDS;
    } else {
      CombinedGrows(schema, k + 1);
      assert KEYWORDS[..k + 1][..k] == KEYWORDS[..k];
    }
  }

  // ---- Validation ----

  /** `serde_param_aliases`. */
  function Aliases(tool: string): set<string> {
    if tool == "get_entity" then {"unique_id"}
    else if tool == "validate_nova_meta" then {"path"}
    else if tool == "execute_sql" then {"sql"}
    else {}
  }

  /** Three tools take one parameter under a second name, and no other tool does. */
  lemma AliasesOfTools(tool: string, key: string)
    ensures key in Aliases(tool) <==>
      (tool == "get_entity" && key == "unique_id") || (tool == "validate_nova_meta" && key == "path") || (tool == "execute_sql" && key == "sql")
  {
    assert |"get_entity"| == 10 && |"validate_nova_meta"| == 18 && |"execute_sql"| == 11;
  }

  ghost predicate Supported(tool: string, schema: J.Value, key: string) {
    Allows(schema, schema, key) || key in Aliases(tool)
  }

  /** `supported_param_keys`. */
  method SupportedParamKeys(tool: string, schema: J.Value) returns (supported: set<string>)
    requires forall v :: Leads(schema, schema, v) ==> !OnCycle(schema, v)
    ensures forall k :: k in supported <==> Supported(tool, schema, k)
  {
    WalkEndsIffAcyclic(schema);
    hide Walk, Allows, Leads, OnCycle;
    ghost var fuel: nat :| Walk(schema, schema, fuel).Some?;
    var keys := CollectSchemaProperties(schema, schema, {}, fuel);
    forall k ensures k in keys <==> Allows(schema, schema, k) {
      WalkFindsAllowed(schema, schema, fuel, k);
    }
    supported := keys + Aliases(tool);
  }

  /** `validate_known_param_keys`; `order` lists the parameter names, which the map keeps
      sorted. Parameters pass exactly when every name is supported, and otherwise the least
      unsupported name is reported. */
  method ValidateKnownParamKeys(tool: string, schema: J.Value, params: J.Value, order: seq<string>)
    returns (r: Result<(), string>)
    requires params.Obj? && params.fields != map[] ==> forall v :: Leads(schema, schema, v) ==> !OnCycle(schema, v)
    requires params.Obj? ==> IsSorted(StringLe, order) && forall k :: k in order <==> k in params.fields
    ensures r.Ok? <==> params.Obj? ==> forall k :: k in params.fields ==> Supported(tool, schema, k)
    ensures r.Err? ==> r.error in params.fields && !Supported(tool, schema, r.error)
    ensures r.Err? ==> forall k :: k in params.fields && !Supported(tool, schema, k) ==> StringLe(r.error, k)
  {
    hide Leads, OnCycle, Supported, StringLe;
    if !params.Obj? || params.fields == map[] {
      return Ok(());
    }
    var supported := SupportedParamKeys(tool, schema);
    var i := 0;
    while i < |order|
      invariant 0 <= i <= |order|
      invariant forall j :: 0 <= j < i ==> Supported(tool, schema, order[j])
    {
      if order[i] !in supported {
        assert order[i] in params.fields;
        StringLeIsTotalOrder();
        forall k | k in params.fields && !Supported(tool, schema, k) ensures StringLe(order[i], k) {
          var j :| 0 <= j < |order| && order[j] == k;
        }
        return Err(order[i]);
      }
      i := i + 1;
    }
    forall k | k in params.fields ensures Supported(tool, schema, k) {
      assert k in order;
    }
    r := Ok(());
  }
}
