/** The triage summary of a metadata audit: per-persona histograms, the lowest-scoring
    entities, and per-category totals, all gathered in one pass over entities and personas.
    A counter map is a multiset here. */
module AuditTriage {
  import opened Wrappers
  import opened Ordering
  import D = Decimal
  import opened Text

  datatype Category = Category(score: Option<nat>, weight: real)

  datatype Recommendation = Recommendation(field: Option<string>, category: Option<string>, impact: Option<nat>)

  datatype PersonaScore = PersonaScore(
    overall: nat,
    grade: string,
    categories: map<string, Category>,
    recommendations: seq<Recommendation>)

  datatype Entity = Entity(id: string, personas: map<string, PersonaScore>)

  datatype Candidate = Candidate(persona: string, id: string, score: nat, grade: string)

  datatype Aggregate = Aggregate(total: nat, count: nat, gap: nat, weighted: real)

  /** What is gathered about one recommended field. */
  datatype FieldAggregate = FieldAggregate(category: Option<string>, count: nat, impact: nat)

  type Buckets = map<string, multiset<string>>

  type Categories = map<(string, string), Aggregate>

  type Fields = map<string, FieldAggregate>

  datatype Triage = Triage(scores: Buckets, grades: Buckets, candidates: seq<Candidate>, categories: Categories, fields: Fields)

  function ScoreBucket(score: nat): string {
    if 90 <= score <= 100 then "90-100"
    else if 80 <= score <= 89 then "80-89"
    else if 70 <= score <= 79 then "70-79"
    else if 60 <= score <= 69 then "60-69"
    else "0-59"
  }

  /** The bucket's name spells a range that holds the score. */
  ghost predicate NamesRange(bucket: string, score: nat) {
    exists low: nat, high: nat :: IsRange(bucket, low, high) && low <= score <= high
  }

  ghost predicate IsRange(bucket: string, low: nat, high: nat) {
    bucket == D.ToDecimal(low) + "-" + D.ToDecimal(high)
  }

  lemma RangeNames()
    ensures IsRange("90-100", 90, 100) && IsRange("80-89", 80, 89) && IsRange("70-79", 70, 79)
    ensures IsRange("60-69", 60, 69) && IsRange("0-59", 0, 59)
  {
    assert D.ToDecimal(10) == "10" && D.ToDecimal(100) == "100";
    assert D.ToDecimal(90) == "90" && D.ToDecimal(80) == "80" && D.ToDecimal(89) == "89";
    assert D.ToDecimal(70) == "70" && D.ToDecimal(79) == "79" && D.ToDecimal(60) == "60";
    assert D.ToDecimal(69) == "69" && D.ToDecimal(0) == "0" && D.ToDecimal(59) == "59";
  }

  lemma RangeUnique(bucket: string, low: nat, high: nat, l: nat, h: nat)
    requires IsRange(bucket, low, high) && IsRange(bucket, l, h)
    ensures low == l && high == h
  {
    D.DecimalDigits(low);
    D.DecimalDigits(l);
    SplitAtFirst(D.ToDecimal(low), '-', D.ToDecimal(high), D.ToDecimal(l), D.ToDecimal(h));
    D.DecimalValue(low);
    D.DecimalValue(high);
    D.DecimalValue(l);
    D.DecimalValue(h);
  }

  /** A score lies in the range its bucket is named after exactly when it is at most one hundred;
      anything above is counted with the lowest scores. */
  lemma BucketHoldsScore(score: nat)
    ensures NamesRange(ScoreBucket(score), score) <==> score <= 100
  {
    RangeNames();
    hide IsRange;
    if score > 100 {
      forall low: nat, high: nat | IsRange(ScoreBucket(score), low, high) ensures high < score {
        RangeUnique("0-59", low, high, 0, 59);
      }
    }
  }

  // ---- The pairs that are looked at ----

  datatype Pair = Pair(entity: Entity, persona: string)

  function PairsOf(e: Entity, personas: seq<string>): (r: seq<Pair>)
    ensures forall i :: 0 <= i < |r| ==> r[i].persona in r[i].entity.personas
  {
    if personas == [] then []
    else
      var last := personas[|personas| - 1];
      PairsOf(e, personas[..|personas| - 1]) + (if last in e.personas then [Pair(e, last)] else [])
  }

  /** Every scored (entity, persona) combination, entity by entity, with the repetitions of
      the persona list. */
  function Pairs(entities: seq<Entity>, personas: seq<string>): (r: seq<Pair>)
    ensures forall i :: 0 <= i < |r| ==> r[i].persona in r[i].entity.personas
  {
    if entities == [] then []
    else Pairs(entities[..|entities| - 1], personas) + PairsOf(entities[|entities| - 1], personas)
  }

  // ---- One step of the pass ----

  function Bump(b: Buckets, persona: string, bucket: string): Buckets {
    b[persona := (if persona in b then b[persona] else multiset{}) + multiset{bucket}]
  }

  function Gap(score: nat): nat {
    if score < 100 then 100 - score else 0
  }

  function Add(a: Aggregate, score: nat, weight: real): Aggregate {
    Aggregate(a.total + score, a.count + 1, a.gap + Gap(score), a.weighted + Gap(score) as real * weight)
  }

  const EMPTY: Aggregate := Aggregate(0, 0, 0, 0.0)

  function At(c: Categories, key: (string, string)): Aggregate {
    if key in c then c[key] else EMPTY
  }

  /** The category of a key that one pair contributes to. */
  predicate Contributes(key: (string, string), persona: string, details: map<string, Category>) {
    key.0 == persona && key.1 in details && details[key.1].score.Some?
  }

  function Ingested(c: Categories, persona: string, details: map<string, Category>, key: (string, string)): Aggregate {
    if Contributes(key, persona, details)
    then Add(At(c, key), details[key.1].score.value, details[key.1].weight)
    else At(c, key)
  }

  /** `ingest_audit_categories`, one category after the other in the order the map lists them. */
  method IngestCategories(c0: Categories, persona: string, details: map<string, Category>, order: seq<string>)
    returns (c: Categories)
    requires Distinct(order) && forall k :: k in order <==> k in details
    ensures forall key :: At(c, key) == Ingested(c0, persona, details, key)
    ensures forall key :: key in c <==> key in c0 || Contributes(key, persona, details)
  {
    hide Add;
    c := c0;
    var i := 0;
    while i < |order|
      invariant 0 <= i <= |order|
      invariant forall key: (string, string) :: key.1 in order[..i] ==> At(c, key) == Ingested(c0, persona, details, key)
      invariant forall key: (string, string) :: key.1 !in order[..i] ==> At(c, key) == At(c0, key)
      invariant forall key :: key in c <==> key in c0 || (key.1 in order[..i] && Contributes(key, persona, details))
    {
      var category := order[i];
      assert order[..i + 1] == order[..i] + [category];
      assert category !in order[..i];
      match details[category].score {
        case None =>
        case Some(score) =>
          c := c[(persona, category) := Add(At(c, (persona, category)), score, details[category].weight)];
      }
      i := i + 1;
    }
    assert order[..i] == order;
  }

  // ---- Recommended fields ----

  const NO_FIELD: FieldAggregate := FieldAggregate(None, 0, 0)

  function FieldAt(f: Fields, field: string): FieldAggregate {
    if field in f then f[field] else NO_FIELD
  }

  function FieldOf(r: Recommendation): string {
    if r.field.Some? then r.field.value else "metadata"
  }

  function ImpactOf(r: Recommendation): nat {
    if r.impact.Some? then r.impact.value else 0
  }

  /** One more recommendation; the first category that is given stays. */
  function Touch(a: FieldAggregate, r: Recommendation): FieldAggregate {
    FieldAggregate(if a.category.Some? then a.category else r.category, a.count + 1, a.impact + ImpactOf(r))
  }

  /** The recommendations about one field, added to what is already known of it. */
  function Fed(a: FieldAggregate, recs: seq<Recommendation>, field: string): FieldAggregate {
    if recs == [] then a
    else
      var before, last := Fed(a, recs[..|recs| - 1], field), recs[|recs| - 1];
      if FieldOf(last) == field then Touch(before, last) else before
  }

  lemma {:induction false} FedConcat(a: FieldAggregate, x: seq<Recommendation>, y: seq<Recommendation>, field: string)
    ensures Fed(a, x + y, field) == Fed(Fed(a, x, field), y, field)
  {
    if y == [] {
      assert x + y == x;
    } else {
      FedConcat(a, x, y[..|y| - 1], field);
      assert (x + y)[..|x + y| - 1] == x + y[..|y| - 1];
    }
  }

  /** The recommendations about one field, in order. */
  function About(recs: seq<Recommendation>, field: string): seq<Recommendation> {
    if recs == [] then []
    else (if FieldOf(recs[0]) == field then [recs[0]] else []) + About(recs[1..], field)
  }

  function Impact(recs: seq<Recommendation>): nat {
    if recs == [] then 0 else ImpactOf(recs[0]) + Impact(recs[1..])
  }

  function FirstCategory(recs: seq<Recommendation>): Option<string> {
    if recs == [] then None
    else if recs[0].category.Some? then recs[0].category
    else FirstCategory(recs[1..])
  }

  /** What is known of a field is how often it was recommended, the sum of the impacts, and the
      first category given for it. */
  lemma {:induction false} FieldTotals(a: FieldAggregate, recs: seq<Recommendation>, field: string)
    ensures var about := About(recs, field);
            Fed(a, recs, field) == FieldAggregate(if a.category.Some? then a.category else FirstCategory(about),
                                                  a.count + |about|, a.impact + Impact(about))
    decreases |recs|
  {
    hide Fed;
    if recs == [] {
      FedNothing(a, field);
    } else {
      var r, rest := recs[0], recs[1..];
      assert recs == [r] + rest;
      FedCons(a, r, rest, field);
      if FieldOf(r) == field {
        FieldTotals(Touch(a, r), rest, field);
        assert About(recs, field)[1..] == About(rest, field);
      } else {
        FieldTotals(a, rest, field);
        assert About(recs, field) == About(rest, field);
      }
    }
  }

  lemma FedNothing(a: FieldAggregate, field: string)
    ensures Fed(a, [], field) == a
  {
  }

  lemma FedCons(a: FieldAggregate, r: Recommendation, rest: seq<Recommendation>, field: string)
    ensures Fed(a, [r] + rest, field) == Fed(if FieldOf(r) == field then Touch(a, r) else a, rest, field)
  {
    FedConcat(a, [r], rest, field);
    assert [r][..0] == [];
  }

  /** A recommendation that names no field is about "metadata", and one without an impact adds none. */
  lemma UnnamedRecommendation(category: Option<string>, impact: Option<nat>)
    ensures FieldOf(Recommendation(None, category, impact)) == "metadata"
    ensures ImpactOf(Recommendation(None, category, None)) == 0
  {
  }

  /** `ingest_audit_recommendations`. */
  method IngestRecommendations(f0: Fields, recs: seq<Recommendation>) returns (f: Fields)
    ensures forall field :: FieldAt(f, field) == Fed(FieldAt(f0, field), recs, field)
    ensures forall field :: field in f <==> field in f0 || About(recs, field) != []
  {
    f := f0;
    var i := 0;
    hide Touch;
    while i < |recs|
      invariant 0 <= i <= |recs|
      invariant forall field :: FieldAt(f, field) == Fed(FieldAt(f0, field), recs[..i], field)
      invariant forall field :: field in f <==> field in f0 || Mentions(recs[..i], field)
    {
      assert recs[..i + 1][..i] == recs[..i];
      var field := FieldOf(recs[i]);
      MentionsPush(recs, i);
      hide Mentions;
      f := f[field := Touch(FieldAt(f, field), recs[i])];
      i := i + 1;
    }
    assert recs[..i] == recs;
    forall field ensures Mentions(recs, field) <==> About(recs, field) != [] {
      MentionsAbout(recs, field);
    }
  }

  predicate Mentions(recs: seq<Recommendation>, field: string) {
    exists i :: 0 <= i < |recs| && FieldOf(recs[i]) == field
  }

  lemma MentionsPush(recs: seq<Recommendation>, i: nat)
    requires i < |recs|
    ensures forall field :: Mentions(recs[..i + 1], field) <==> Mentions(recs[..i], field) || FieldOf(recs[i]) == field
  {
    forall field ensures Mentions(recs[..i + 1], field) <==> Mentions(recs[..i], field) || FieldOf(recs[i]) == field {
      var next := recs[..i + 1];
      assert next[i] == recs[i] && next == recs[..i] + [recs[i]];
      if Mentions(recs[..i], field) {
        var k :| 0 <= k < i && FieldOf(recs[..i][k]) == field;
        assert next[k] == recs[..i][k];
      }
    }
  }

  lemma {:induction false} MentionsAbout(recs: seq<Recommendation>, field: string)
    ensures Mentions(recs, field) <==> About(recs, field) != []
  {
    if recs != [] {
      var rest := recs[1..];
      MentionsAbout(rest, field);
      if Mentions(rest, field) {
        var k :| 0 <= k < |rest| && FieldOf(rest[k]) == field;
        assert FieldOf(recs[k + 1]) == field;
      }
      if Mentions(recs, field) {
        var k :| 0 <= k < |recs| && FieldOf(recs[k]) == field;
        assert k > 0 ==> FieldOf(rest[k - 1]) == field;
      }
    }
  }

  // ---- What the pass should produce ----

  function CandidateOf(p: Pair): Candidate
    requires p.persona in p.entity.personas
  {
    var s := p.entity.personas[p.persona];
    Candidate(p.persona, p.entity.id, s.overall, s.grade)
  }

  ghost predicate AllPairs(pairs: seq<Pair>) {
    forall i :: 0 <= i < |pairs| ==> pairs[i].persona in pairs[i].entity.personas
  }

  function ScoreTag(c: Candidate): string {
    ScoreBucket(c.score)
  }

  function GradeTag(c: Candidate): string {
    c.grade
  }

  /** The buckets one persona was counted in. */
  ghost function BagOf(pairs: seq<Pair>, persona: string, tag: Candidate -> string): multiset<string>
    requires AllPairs(pairs)
  {
    if pairs == [] then multiset{}
    else
      var last := pairs[|pairs| - 1];
      BagOf(pairs[..|pairs| - 1], persona, tag)
      + (if last.persona == persona then multiset{tag(CandidateOf(last))} else multiset{})
  }

  ghost function ScoreBag(pairs: seq<Pair>, persona: string): multiset<string>
    requires AllPairs(pairs)
  {
    BagOf(pairs, persona, ScoreTag)
  }

  ghost function GradeBag(pairs: seq<Pair>, persona: string): multiset<string>
    requires AllPairs(pairs)
  {
    BagOf(pairs, persona, GradeTag)
  }

  /** The scores and weights a persona's category collected. */
  ghost function CategoryScores(pairs: seq<Pair>, key: (string, string)): seq<(nat, real)>
    requires AllPairs(pairs)
  {
    if pairs == [] then []
    else
      var last := pairs[|pairs| - 1];
      var details := last.entity.personas[last.persona].categories;
      CategoryScores(pairs[..|pairs| - 1], key)
      + (if Contributes(key, last.persona, details) then [(details[key.1].score.value, details[key.1].weight)] else [])
  }

  ghost function Summary(scores: seq<(nat, real)>): Aggregate {
    if scores == [] then EMPTY
    else Add(Summary(scores[..|scores| - 1]), scores[|scores| - 1].0, scores[|scores| - 1].1)
  }

  /** All recommendations made for the pairs, in order. */
  ghost function RecsOf(pairs: seq<Pair>): seq<Recommendation>
    requires AllPairs(pairs)
  {
    if pairs == [] then []
    else
      var last := pairs[|pairs| - 1];
      RecsOf(pairs[..|pairs| - 1]) + last.entity.personas[last.persona].recommendations
  }

  /** For every field its count, impact and category over exactly these pairs. */
  ghost predicate FieldsSummarise(f: Fields, pairs: seq<Pair>)
    requires AllPairs(pairs)
  {
    forall field :: FieldAt(f, field) == Fed(NO_FIELD, RecsOf(pairs), field) && (field in f <==> FieldAt(f, field).count > 0)
  }

  lemma FieldsPush(f: Fields, pairs: seq<Pair>, p: Pair, g: Fields)
    requires AllPairs(pairs) && FieldsSummarise(f, pairs) && p.persona in p.entity.personas
    requires var recs := p.entity.personas[p.persona].recommendations;
             && (forall field :: FieldAt(g, field) == Fed(FieldAt(f, field), recs, field))
             && (forall field :: field in g <==> field in f || About(recs, field) != [])
    ensures AllPairs(pairs + [p]) && FieldsSummarise(g, pairs + [p])
  {
    var all, recs := pairs + [p], p.entity.personas[p.persona].recommendations;
    assert all[..|pairs|] == pairs && all[|pairs|] == p;
    assert RecsOf(all) == RecsOf(pairs) + recs;
    hide RecsOf, Fed, About;
    forall field ensures FieldAt(g, field) == Fed(NO_FIELD, RecsOf(all), field) && (field in g <==> FieldAt(g, field).count > 0) {
      FedConcat(NO_FIELD, RecsOf(pairs), recs, field);
      FieldTotals(FieldAt(f, field), recs, field);
    }
  }

  /** The histograms, candidates and totals of exactly these pairs. */
  ghost predicate Summarises(t: Triage, pairs: seq<Pair>)
    requires AllPairs(pairs)
  {
    && (forall p :: Bag(t.scores, p) == ScoreBag(pairs, p))
    && (forall p :: Bag(t.grades, p) == GradeBag(pairs, p))
    && |t.candidates| == |pairs| && (forall i :: 0 <= i < |pairs| ==> t.candidates[i] == CandidateOf(pairs[i]))
    && (forall key :: At(t.categories, key) == Summary(CategoryScores(pairs, key)))
    && (forall key :: key in t.categories <==> CategoryScores(pairs, key) != [])
    && FieldsSummarise(t.fields, pairs)
  }

  function Bag(b: Buckets, persona: string): multiset<string> {
    if persona in b then b[persona] else multiset{}
  }

  lemma SummarisesPush(t: Triage, pairs: seq<Pair>, p: Pair, c: Categories, f: Fields)
    requires AllPairs(pairs) && Summarises(t, pairs) && p.persona in p.entity.personas
    requires AllPairs(pairs + [p]) && FieldsSummarise(f, pairs + [p])
    requires var details := p.entity.personas[p.persona].categories;
             && (forall key :: At(c, key) == Ingested(t.categories, p.persona, details, key))
             && (forall key :: key in c <==> key in t.categories || Contributes(key, p.persona, details))
    ensures AllPairs(pairs + [p])
    ensures var s := p.entity.personas[p.persona];
            Summarises(Triage(Bump(t.scores, p.persona, ScoreBucket(s.overall)), Bump(t.grades, p.persona, s.grade),
                              t.candidates + [CandidateOf(p)], c, f), pairs + [p])
  {
    hide FieldsSummarise, ScoreBucket, Add, Summary, CategoryScores, ScoreBag, GradeBag, Bump, CandidateOf, Contributes;
    var all := pairs + [p];
    assert AllPairs(all);
    forall key
      ensures At(c, key) == Summary(CategoryScores(all, key))
      ensures key in c <==> CategoryScores(all, key) != []
    {
      CategoryScoresPush(pairs, p, key);
    }
    forall persona
      ensures Bag(Bump(t.scores, p.persona, ScoreBucket(p.entity.personas[p.persona].overall)), persona) == ScoreBag(all, persona)
      ensures Bag(Bump(t.grades, p.persona, p.entity.personas[p.persona].grade), persona) == GradeBag(all, persona)
    {
      BagsPush(t, pairs, p, persona);
    }
  }

  lemma BagsPush(t: Triage, pairs: seq<Pair>, p: Pair, persona: string)
    requires AllPairs(pairs) && p.persona in p.entity.personas
    requires Bag(t.scores, persona) == ScoreBag(pairs, persona) && Bag(t.grades, persona) == GradeBag(pairs, persona)
    ensures AllPairs(pairs + [p])
    ensures var s := p.entity.personas[p.persona];
            && Bag(Bump(t.scores, p.persona, ScoreBucket(s.overall)), persona) == ScoreBag(pairs + [p], persona)
            && Bag(Bump(t.grades, p.persona, s.grade), persona) == GradeBag(pairs + [p], persona)
  {
    hide ScoreBucket, Bump, BagOf;
    BagPush(t.scores, pairs, p, persona, ScoreTag);
    BagPush(t.grades, pairs, p, persona, GradeTag);
  }

  lemma BagPush(b: Buckets, pairs: seq<Pair>, p: Pair, persona: string, tag: Candidate -> string)
    requires AllPairs(pairs) && p.persona in p.entity.personas
    requires Bag(b, persona) == BagOf(pairs, persona, tag)
    ensures AllPairs(pairs + [p])
    ensures Bag(Bump(b, p.persona, tag(CandidateOf(p))), persona) == BagOf(pairs + [p], persona, tag)
  {
    var all := pairs + [p];
    assert all[..|all| - 1] == pairs && all[|all| - 1] == p;
  }

  lemma CategoryScoresPush(pairs: seq<Pair>, p: Pair, key: (string, string))
    requires AllPairs(pairs) && p.persona in p.entity.personas
    ensures AllPairs(pairs + [p])
    ensures var details := p.entity.personas[p.persona].categories;
            var before, after := CategoryScores(pairs, key), CategoryScores(pairs + [p], key);
            if Contributes(key, p.persona, details)
            then after != [] && Summary(after) == Add(Summary(before), details[key.1].score.value, details[key.1].weight)
            else after == before
  {
    hide Add;
    var all := pairs + [p];
    assert all[..|pairs|] == pairs && all[|pairs|] == p;
    var before, after := CategoryScores(pairs, key), CategoryScores(all, key);
    if Contributes(key, p.persona, p.entity.personas[p.persona].categories) {
      assert after[..|after| - 1] == before;
    }
  }

  /** The body of the two loops: one scored pair. */
  method VisitPair(t: Triage, ghost before: seq<Pair>, e: Entity, persona: string, list: map<string, Category> -> seq<string>)
    returns (r: Triage)
    requires persona in e.personas && AllPairs(before) && Summarises(t, before)
    requires forall m: map<string, Category> :: Distinct(list(m)) && forall k :: k in list(m) <==> k in m
    ensures AllPairs(before + [Pair(e, persona)]) && Summarises(r, before + [Pair(e, persona)])
  {
    hide Summarises, FieldsSummarise, ScoreBucket, CandidateOf, Bump, At, Ingested, Contributes, FieldAt, Fed, About;
    var s := e.personas[persona];
    var c := IngestCategories(t.categories, persona, s.categories, list(s.categories));
    var f := IngestRecommendations(t.fields, s.recommendations);
    SummarisesFields(t, before);
    FieldsPush(t.fields, before, Pair(e, persona), f);
    SummarisesPush(t, before, Pair(e, persona), c, f);
    r := Triage(Bump(t.scores, persona, ScoreBucket(s.overall)), Bump(t.grades, persona, s.grade),
                t.candidates + [CandidateOf(Pair(e, persona))], c, f);
  }

  lemma PairsOfStep(e: Entity, personas: seq<string>, j: nat)
    requires j < |personas|
    ensures PairsOf(e, personas[..j + 1])
         == PairsOf(e, personas[..j]) + (if personas[j] in e.personas then [Pair(e, personas[j])] else [])
  {
    assert personas[..j + 1][..j] == personas[..j];
  }

  lemma PairsStep(entities: seq<Entity>, personas: seq<string>, i: nat)
    requires i < |entities|
    ensures Pairs(entities[..i + 1], personas) == Pairs(entities[..i], personas) + PairsOf(entities[i], personas)
    ensures Pairs(entities[..i], personas) + PairsOf(entities[i], personas[..0]) == Pairs(entities[..i], personas)
  {
    assert entities[..i + 1][..i] == entities[..i];
  }

  lemma PairsAll(entities: seq<Entity>, personas: seq<string>)
    ensures AllPairs(Pairs(entities, personas))
  {
  }

  /** `build_audit_triage_summary` up to the choice of what to show; `list` is the order in
      which a category map is iterated. */
  method BuildTriage(entities: seq<Entity>, personas: seq<string>, list: map<string, Category> -> seq<string>)
    returns (t: Triage)
    requires forall m: map<string, Category> :: Distinct(list(m)) && forall k :: k in list(m) <==> k in m
    ensures AllPairs(Pairs(entities, personas)) && Summarises(t, Pairs(entities, personas))
  {
    hide Summarises, AllPairs, Pairs, PairsOf;
    t := Triage(map[], map[], [], map[], map[]);
    NothingSummarised();
    PairsAll([], personas);
    PairsNothing(personas);
    var i := 0;
    assert entities[..0] == [];
    while i < |entities|
      invariant 0 <= i <= |entities|
      invariant AllPairs(Pairs(entities[..i], personas)) && Summarises(t, Pairs(entities[..i], personas))
    {
      var e := entities[i];
      ghost var done := Pairs(entities[..i], personas);
      PairsStep(entities, personas, i);
      var j := 0;
      while j < |personas|
        invariant 0 <= j <= |personas|
        invariant AllPairs(done + PairsOf(e, personas[..j])) && Summarises(t, done + PairsOf(e, personas[..j]))
      {
        ghost var before := done + PairsOf(e, personas[..j]);
        PairsOfStep(e, personas, j);
        if personas[j] in e.personas {
          t := VisitPair(t, before, e, personas[j], list);
          assert done + PairsOf(e, personas[..j + 1]) == before + [Pair(e, personas[j])];
        } else {
          assert done + PairsOf(e, personas[..j + 1]) == before;
        }
        j := j + 1;
      }
      assert personas[..j] == personas;
      i := i + 1;
    }
    assert entities[..i] == entities;
  }

  lemma PairsNothing(personas: seq<string>)
    ensures Pairs([], personas) == []
  {
  }

  lemma NothingSummarised()
    ensures Summarises(Triage(map[], map[], [], map[], map[]), [])
  {
  }

  lemma SummarisesFields(t: Triage, pairs: seq<Pair>)
    requires AllPairs(pairs) && Summarises(t, pairs)
    ensures FieldsSummarise(t.fields, pairs)
  {
  }

  /** In every triage summary a field appears exactly when something recommends it, with how often
      that is, the sum of the impacts and the first category given. */
  lemma FieldsReported(t: Triage, pairs: seq<Pair>, field: string)
    requires AllPairs(pairs) && Summarises(t, pairs)
    ensures var about := About(RecsOf(pairs), field);
            && (field in t.fields <==> about != [])
            && (field in t.fields ==> t.fields[field] == FieldAggregate(FirstCategory(about), |about|, Impact(about)))
  {
    SummarisesFields(t, pairs);
    hide Summarises, RecsOf, Fed;
    FieldTotals(NO_FIELD, RecsOf(pairs), field);
    assert FieldAt(t.fields, field) == Fed(NO_FIELD, RecsOf(pairs), field);
  }

  // ---- Totals ----

  function CountPersona(pairs: seq<Pair>, persona: string): nat {
    if pairs == [] then 0
    else CountPersona(pairs[..|pairs| - 1], persona) + (if pairs[|pairs| - 1].persona == persona then 1 else 0)
  }

  /** The number of entities scored for a persona. */
  function CountScored(entities: seq<Entity>, persona: string): nat {
    if entities == [] then 0
    else CountScored(entities[..|entities| - 1], persona) + (if persona in entities[|entities| - 1].personas then 1 else 0)
  }

  lemma {:induction false} CountPersonaConcat(a: seq<Pair>, b: seq<Pair>, persona: string)
    ensures CountPersona(a + b, persona) == CountPersona(a, persona) + CountPersona(b, persona)
  {
    if b == [] {
      assert a + b == a;
    } else {
      CountPersonaConcat(a, b[..|b| - 1], persona);
      assert (a + b)[..|a + b| - 1] == a + b[..|b| - 1];
    }
  }

  lemma {:induction false} PairsOfCount(e: Entity, personas: seq<string>, persona: string)
    ensures CountPersona(PairsOf(e, personas), persona) == if persona in e.personas then multiset(personas)[persona] else 0
  {
    hide *;
    if personas == [] {
      PairsOfNone(e, persona);
    } else {
      var init, last := personas[..|personas| - 1], personas[|personas| - 1];
      PairsOfCount(e, init, persona);
      PairsOfPush(e, init, last, persona);
      assert personas == init + [last];
      assert multiset(personas) == multiset(init) + multiset{last};
    }
  }

  lemma PairsOfNone(e: Entity, persona: string)
    ensures CountPersona(PairsOf(e, []), persona) == 0
  {
  }

  lemma PairsOfPush(e: Entity, init: seq<string>, last: string, persona: string)
    ensures CountPersona(PairsOf(e, init + [last]), persona)
         == CountPersona(PairsOf(e, init), persona) + if last in e.personas && last == persona then 1 else 0
  {
    assert (init + [last])[..|init|] == init;
    var before := PairsOf(e, init);
    if last in e.personas {
      assert (before + [Pair(e, last)])[..|before|] == before;
    } else {
      assert before + [] == before;
    }
  }

  /** A persona is looked at once per entity scored for it and per occurrence in the list. */
  lemma {:induction false} PairsCount(entities: seq<Entity>, personas: seq<string>, persona: string)
    ensures CountPersona(Pairs(entities, personas), persona) == CountScored(entities, persona) * multiset(personas)[persona]
  {
    hide *;
    if entities == [] {
      PairsNone(personas, persona);
    } else {
      var init, e := entities[..|entities| - 1], entities[|entities| - 1];
      PairsUnfold(entities, personas, persona);
      PairsCount(init, personas, persona);
      PairsOfCount(e, personas, persona);
      CountPersonaConcat(Pairs(init, personas), PairsOf(e, personas), persona);
      OneMore(CountScored(init, persona), multiset(personas)[persona]);
    }
  }

  lemma PairsNone(personas: seq<string>, persona: string)
    ensures CountPersona(Pairs([], personas), persona) == 0 && CountScored([], persona) == 0
  {
  }

  lemma PairsUnfold(entities: seq<Entity>, personas: seq<string>, persona: string)
    requires entities != []
    ensures var init, e := entities[..|entities| - 1], entities[|entities| - 1];
            && Pairs(entities, personas) == Pairs(init, personas) + PairsOf(e, personas)
            && CountScored(entities, persona) == CountScored(init, persona) + if persona in e.personas then 1 else 0
  {
  }

  lemma OneMore(n: nat, m: nat)
    ensures (n + 1) * m == n * m + m
  {
  }

  lemma {:induction false} BagSizes(pairs: seq<Pair>, persona: string, tag: Candidate -> string)
    requires AllPairs(pairs)
    ensures |BagOf(pairs, persona, tag)| == CountPersona(pairs, persona)
  {
    if pairs != [] {
      BagSizes(pairs[..|pairs| - 1], persona, tag);
    }
  }

  /** In every triage summary a persona's score buckets and its grade buckets both add up to the
      number of entities scored for it times its multiplicity in the persona list. */
  lemma BucketTotals(t: Triage, entities: seq<Entity>, personas: seq<string>, persona: string)
    requires Summarises(t, Pairs(entities, personas))
    ensures |Bag(t.scores, persona)| == CountScored(entities, persona) * multiset(personas)[persona]
    ensures |Bag(t.grades, persona)| == CountScored(entities, persona) * multiset(personas)[persona]
  {
    BagSizes(Pairs(entities, personas), persona, ScoreTag);
    BagSizes(Pairs(entities, personas), persona, GradeTag);
    PairsCount(entities, personas, persona);
  }

  ghost predicate WithinHundred(scores: seq<(nat, real)>) {
    forall i :: 0 <= i < |scores| ==> scores[i].0 <= 100
  }

  lemma {:induction false} SummaryBalances(scores: seq<(nat, real)>)
    ensures var a := Summary(scores);
            && a.count == |scores|
            && a.total + a.gap >= 100 * a.count
            && (a.total + a.gap == 100 * a.count <==> WithinHundred(scores))
  {
    if scores != [] {
      SummaryBalances(scores[..|scores| - 1]);
    }
  }

  /** The missing points of each score times its weight, summed. */
  ghost function WeightedGaps(scores: seq<(nat, real)>): real {
    if scores == [] then 0.0
    else
      var (score, weight) := scores[|scores| - 1];
      WeightedGaps(scores[..|scores| - 1]) + (if score < 100 then (100 - score) as real * weight else 0.0)
  }

  lemma {:induction false} WeightedIsSum(scores: seq<(nat, real)>)
    ensures Summary(scores).weighted == WeightedGaps(scores)
  {
    if scores != [] {
      WeightedIsSum(scores[..|scores| - 1]);
    }
  }

  /** `average_u64`. */
  function Average(total: nat, count: nat): nat {
    if count == 0 then 0 else if total / count > 100 then 100 else total / count
  }

  /** For every category, points scored and points missing balance exactly when no score is above
      one hundred, and the reported average is the floor of the mean exactly when that floor is at
      most one hundred, as it is then. */
  lemma CategoryBalances(t: Triage, pairs: seq<Pair>, key: (string, string))
    requires AllPairs(pairs) && Summarises(t, pairs) && key in t.categories
    ensures var a := t.categories[key];
            && a.count > 0
            && (a.total + a.gap == 100 * a.count <==> WithinHundred(CategoryScores(pairs, key)))
            && (IsFloorOfMean(Average(a.total, a.count), a.total, a.count) <==> a.total < 101 * a.count)
            && (WithinHundred(CategoryScores(pairs, key)) ==> a.total < 101 * a.count)
            && (a.total >= 101 * a.count ==> Average(a.total, a.count) == 100)
            && a.weighted == WeightedGaps(CategoryScores(pairs, key))
  {
    var scores := CategoryScores(pairs, key);
    SummaryBalances(scores);
    var a := t.categories[key];
    assert a == At(t.categories, key);
    WeightedIsSum(scores);
    hide WeightedGaps, Summary, CategoryScores;
    FloorOfMean(a.total, a.count);
  }

  predicate IsFloorOfMean(avg: nat, total: nat, count: nat) {
    avg * count <= total < (avg + 1) * count
  }

  lemma FloorOfMean(total: nat, count: nat)
    requires count > 0
    ensures IsFloorOfMean(Average(total, count), total, count) <==> total < 101 * count
    ensures total >= 101 * count ==> Average(total, count) == 100
  {
    var q := total / count;
    DivBounds(total, count);
    if q > 100 {
      TimesMonotone(101, q, count);
    } else {
      TimesMonotone(q + 1, 101, count);
    }
  }

  lemma DivBounds(total: nat, count: nat)
    requires count > 0
    ensures total / count * count <= total < (total / count + 1) * count
  {
    OneMore(total / count, count);
  }

  lemma TimesMonotone(a: nat, b: nat, c: nat)
    requires a <= b
    ensures a * c <= b * c
  {
  }

  // ---- The lowest-scoring entities ----

  /** The order of the source: persona, then score, then identifier. */
  predicate CandidateLe(a: Candidate, b: Candidate) {
    if a.persona != b.persona then StringLe(a.persona, b.persona)
    else if a.score != b.score then a.score < b.score
    else StringLe(a.id, b.id)
  }

  lemma CandidateLeIsPreorder()
    ensures IsTotalPreorder(CandidateLe)
  {
    StringLeIsTotalOrder();
    hide StringLe;
    forall x, y ensures CandidateLe(x, y) || CandidateLe(y, x) {}
    forall x, y, z | CandidateLe(x, y) && CandidateLe(y, z) ensures CandidateLe(x, z) {}
  }

  function OfPersona(s: seq<Candidate>, persona: string): seq<Candidate> {
    if s == [] then []
    else OfPersona(s[..|s| - 1], persona) + (if s[|s| - 1].persona == persona then [s[|s| - 1]] else [])
  }

  function Take5(s: seq<Candidate>): seq<Candidate> {
    if |s| <= 5 then s else s[..5]
  }

  lemma {:induction false} OfPersonaConcat(a: seq<Candidate>, b: seq<Candidate>, persona: string)
    ensures OfPersona(a + b, persona) == OfPersona(a, persona) + OfPersona(b, persona)
  {
    if b == [] {
      assert a + b == a;
    } else {
      OfPersonaConcat(a, b[..|b| - 1], persona);
      assert (a + b)[..|a + b| - 1] == a + b[..|b| - 1];
    }
  }

  lemma {:induction false} OfPersonaMember(s: seq<Candidate>, persona: string, x: Candidate)
    requires x in OfPersona(s, persona)
    ensures x in s && x.persona == persona
  {
    if x in OfPersona(s[..|s| - 1], persona) {
      OfPersonaMember(s[..|s| - 1], persona, x);
    }
  }

  lemma OfPersonaEmpty(persona: string)
    ensures OfPersona([], persona) == []
  {
  }

  lemma OfPersonaHead(x: Candidate, s: seq<Candidate>, persona: string)
    ensures OfPersona([x] + s, persona) == (if x.persona == persona then [x] else []) + OfPersona(s, persona)
  {
    OfPersonaConcat([x], s, persona);
    assert [x][..0] == [];
  }

  lemma {:induction false} InsertOfPersona(x: Candidate, s: seq<Candidate>, persona: string)
    requires IsTotalPreorder(CandidateLe) && IsSorted(CandidateLe, s)
    ensures OfPersona(Insert(CandidateLe, x, s), persona) ==
            if x.persona == persona then Insert(CandidateLe, x, OfPersona(s, persona)) else OfPersona(s, persona)
  {
    hide CandidateLe, OfPersona;
    OfPersonaEmpty(persona);
    if s == [] {
      OfPersonaHead(x, [], persona);
      assert [x] + [] == [x];
    } else if CandidateLe(x, s[0]) {
      OfPersonaHead(x, s, persona);
      var f := OfPersona(s, persona);
      if f != [] {
        OfPersonaMember(s, persona, f[0]);
        assert CandidateLe(s[0], f[0]) by {
          var i :| 0 <= i < |s| && s[i] == f[0];
        }
      }
    } else {
      var rest := s[1..];
      InsertOfPersona(x, rest, persona);
      OfPersonaHead(s[0], Insert(CandidateLe, x, rest), persona);
      OfPersonaHead(s[0], rest, persona);
      assert [s[0]] + rest == s;
      var f := OfPersona(rest, persona);
      assert ([s[0]] + f)[1..] == f && [] + f == f;
    }
  }

  /** Selecting a persona commutes with the stable sort. */
  lemma {:induction false} SortOfPersona(s: seq<Candidate>, persona: string)
    requires IsTotalPreorder(CandidateLe)
    ensures OfPersona(Sort(CandidateLe, s), persona) == Sort(CandidateLe, OfPersona(s, persona))
  {
    hide *;
    if s == [] {
      OfPersonaEmpty(persona);
      SortNothing(CandidateLe);
    } else {
      var x, rest := s[0], s[1..];
      var chosen := OfPersona(rest, persona);
      SortOfPersona(rest, persona);
      SortSorted(CandidateLe, rest);
      InsertOfPersona(x, Sort(CandidateLe, rest), persona);
      OfPersonaHead(x, rest, persona);
      assert [x] + rest == s;
      SortCons(CandidateLe, x, rest);
      SortCons(CandidateLe, x, chosen);
      assert [] + chosen == chosen;
    }
  }

  /** `audit_worst_entities`: one pass over the sorted candidates with a counter per persona
      gives, for each persona, the first five of its candidates in order of score and id, and
      the personas in ascending order. */
  method WorstEntities(candidates: seq<Candidate>) returns (worst: seq<Candidate>)
    ensures forall p :: OfPersona(worst, p) == Take5(Sort(CandidateLe, OfPersona(candidates, p)))
    ensures IsSorted(CandidateLe, worst)
    ensures ListsWorst(candidates, worst)
  {
    CandidateLeIsPreorder();
    hide ListsWorst, CandidateLe, Counted, OfPersona, Take5;
    var sorted := Sort(CandidateLe, candidates);
    SortSorted(CandidateLe, candidates);
    hide Sort;
    worst := [];
    var counts: map<string, nat>, i := map[], 0;
    NothingCounted(sorted);
    while i < |sorted|
      invariant 0 <= i <= |sorted|
      invariant Counted(sorted[..i], worst, counts)
      invariant IsSorted(CandidateLe, worst)
      invariant forall k, j :: 0 <= k < |worst| && i <= j < |sorted| ==> CandidateLe(worst[k], sorted[j])
    {
      var x := sorted[i];
      var count := if x.persona in counts then counts[x.persona] else 0;
      CountedStep(sorted[..i], worst, counts, x);
      assert sorted[..i + 1] == sorted[..i] + [x];
      if count < 5 {
        counts := counts[x.persona := count + 1];
        worst := worst + [x];
      } else {
        counts := counts[x.persona := count];
      }
      i := i + 1;
    }
    assert sorted[..i] == sorted;
    forall p ensures OfPersona(worst, p) == Take5(Sort(CandidateLe, OfPersona(candidates, p))) {
      CountedGives(sorted, worst, counts, p);
      SortOfPersona(candidates, p);
    }
    WorstListed(candidates, worst);
  }

  /** What the list is, in personas, scores and identifiers. */
  ghost predicate ListsWorst(candidates: seq<Candidate>, worst: seq<Candidate>) {
    // Personas ascend, and within a persona scores do, identifiers breaking ties.
    && (forall i, j :: 0 <= i < j < |worst| ==> Precedes(worst[i], worst[j]))
    // Of each persona five candidates are listed, or all there are, and nothing left out is lower.
    && (forall w :: w in worst ==> w in candidates)
    && (forall p :: |OfPersona(worst, p)| == if |OfPersona(candidates, p)| < 5 then |OfPersona(candidates, p)| else 5)
    && (forall w, c :: w in worst && c in candidates && c !in worst && w.persona == c.persona ==> Precedes(w, c))
  }

  lemma WorstListed(candidates: seq<Candidate>, worst: seq<Candidate>)
    requires forall p :: OfPersona(worst, p) == Take5(Sort(CandidateLe, OfPersona(candidates, p)))
    requires IsSorted(CandidateLe, worst)
    ensures ListsWorst(candidates, worst)
  {
    hide StringLe, CandidateLe, OfPersona, Take5, Sort, Precedes;
    forall p ensures |OfPersona(worst, p)| == if |OfPersona(candidates, p)| < 5 then |OfPersona(candidates, p)| else 5 {
      Take5Length(Sort(CandidateLe, OfPersona(candidates, p)));
    }
    forall i, j | 0 <= i < j < |worst| ensures Precedes(worst[i], worst[j]) {
      CandidatePrecedes(worst[i], worst[j]);
    }
    forall w | w in worst ensures w in candidates {
      ListedIsCandidate(candidates, worst, w);
    }
    forall w, c | w in worst && c in candidates && c !in worst && w.persona == c.persona ensures Precedes(w, c) {
      ListedPrecedes(candidates, worst, w, c);
    }
  }

  /** What the order of candidates means. */
  predicate Precedes(a: Candidate, b: Candidate) {
    && StringLe(a.persona, b.persona)
    && (a.persona == b.persona ==> a.score < b.score || (a.score == b.score && StringLe(a.id, b.id)))
  }

  lemma CandidatePrecedes(a: Candidate, b: Candidate)
    ensures CandidateLe(a, b) <==> Precedes(a, b)
  {
    StringLeTotal(a.persona, a.persona);
  }

  lemma Take5Length(s: seq<Candidate>)
    ensures |Take5(s)| == if |s| < 5 then |s| else 5
  {
  }

  lemma {:induction false} OfPersonaHolds(s: seq<Candidate>, x: Candidate)
    requires x in s
    ensures x in OfPersona(s, x.persona)
  {
    if s[|s| - 1] != x {
      assert x in s[..|s| - 1];
      OfPersonaHolds(s[..|s| - 1], x);
    }
  }

  lemma ListedIsCandidate(candidates: seq<Candidate>, worst: seq<Candidate>, w: Candidate)
    requires w in worst && OfPersona(worst, w.persona) == Take5(Sort(CandidateLe, OfPersona(candidates, w.persona)))
    ensures w in candidates
  {
    hide OfPersona, Sort, CandidateLe;
    OfPersonaHolds(worst, w);
    SameElements(Sort(CandidateLe, OfPersona(candidates, w.persona)), OfPersona(candidates, w.persona));
    OfPersonaMember(candidates, w.persona, w);
  }

  lemma ListedPrecedes(candidates: seq<Candidate>, worst: seq<Candidate>, w: Candidate, c: Candidate)
    requires w in worst && c in candidates && c !in worst && w.persona == c.persona
    requires OfPersona(worst, w.persona) == Take5(Sort(CandidateLe, OfPersona(candidates, w.persona)))
    ensures Precedes(w, c)
  {
    hide OfPersona, Sort, CandidateLe, Precedes;
    var p := w.persona;
    var all := Sort(CandidateLe, OfPersona(candidates, p));
    OfPersonaHolds(worst, w);
    OfPersonaHolds(candidates, c);
    SameElements(all, OfPersona(candidates, p));
    CandidateLeIsPreorder();
    SortSorted(CandidateLe, OfPersona(candidates, p));
    var i :| 0 <= i < |Take5(all)| && all[i] == w;
    var j :| 0 <= j < |all| && all[j] == c;
    if j < |Take5(all)| {
      assert Take5(all)[j] == c;
      OfPersonaMember(worst, p, c);
    }
    CandidatePrecedes(w, c);
  }

  function CountOf(counts: map<string, nat>, persona: string): nat {
    if persona in counts then counts[persona] else 0
  }

  /** Of the candidates seen, the first five of each persona are listed and counted. */
  ghost predicate Counted(seen: seq<Candidate>, worst: seq<Candidate>, counts: map<string, nat>) {
    forall p :: CountedFor(seen, worst, counts, p)
  }

  ghost predicate CountedFor(seen: seq<Candidate>, worst: seq<Candidate>, counts: map<string, nat>, p: string) {
    OfPersona(worst, p) == Take5(OfPersona(seen, p)) && CountOf(counts, p) == |OfPersona(worst, p)|
  }

  lemma NothingCounted(sorted: seq<Candidate>)
    ensures Counted(sorted[..0], [], map[])
  {
  }

  lemma CountedGives(seen: seq<Candidate>, worst: seq<Candidate>, counts: map<string, nat>, p: string)
    requires Counted(seen, worst, counts)
    ensures OfPersona(worst, p) == Take5(OfPersona(seen, p))
  {
    assert CountedFor(seen, worst, counts, p);
  }

  lemma CountedStep(seen: seq<Candidate>, worst: seq<Candidate>, counts: map<string, nat>, x: Candidate)
    requires Counted(seen, worst, counts)
    ensures var count := CountOf(counts, x.persona);
            if count < 5 then Counted(seen + [x], worst + [x], counts[x.persona := count + 1])
            else Counted(seen + [x], worst, counts[x.persona := count])
  {
    hide CountedFor;
    var count := CountOf(counts, x.persona);
    var seen', worst' := seen + [x], if count < 5 then worst + [x] else worst;
    var counts' := counts[x.persona := if count < 5 then count + 1 else count];
    forall p ensures CountedFor(seen', worst', counts', p) {
      CountedStepAt(seen, worst, counts, x, p);
    }
  }

  lemma CountedStepAt(seen: seq<Candidate>, worst: seq<Candidate>, counts: map<string, nat>, x: Candidate, p: string)
    requires CountedFor(seen, worst, counts, p) && CountedFor(seen, worst, counts, x.persona)
    ensures var count := CountOf(counts, x.persona);
            if count < 5 then CountedFor(seen + [x], worst + [x], counts[x.persona := count + 1], p)
            else CountedFor(seen + [x], worst, counts[x.persona := count], p)
  {
    assert (seen + [x])[..|seen|] == seen && (worst + [x])[..|worst|] == worst;
    assert OfPersona(seen + [x], p) == OfPersona(seen, p) + (if p == x.persona then [x] else []);
    assert OfPersona(worst + [x], p) == OfPersona(worst, p) + (if p == x.persona then [x] else []);
  }
}
