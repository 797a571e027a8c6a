/** The metadata audit gate: every selected entity is scored for every persona, each score is
    held against a threshold, and the outcomes are folded into one gate. The scorer is any
    function; the persona list may repeat a persona. */
module AuditGate {
  import opened Wrappers
  import opened Text

  datatype Severity = Required | Advisory

  datatype Rule = Rule(minScore: Option<nat>, minGrade: Option<string>, severity: Severity)

  datatype PersonaRules = PersonaRules(base: Option<Rule>, analyst: Option<Rule>, engineer: Option<Rule>, governance: Option<Rule>)

  datatype Score = Score(overall: nat, grade: string)

  /** The outcome of one threshold, and of a whole report. */
  datatype Gate = Pass | AdvisoryFail | RequiredFail

  datatype Mode = Project | Changed | Entities

  datatype EntityReport = EntityReport(id: string, gate: Gate, personas: map<string, (Score, Gate)>)

  /** Everything a report is made from; `looksLikeModels` says that the changed files include
      a dbt model or schema path. */
  datatype Inputs = Inputs(
    mode: Mode,
    selected: seq<string>,
    personas: seq<string>,
    entityRules: PersonaRules,
    projectRules: PersonaRules,
    failOnNoTargets: bool,
    looksLikeModels: bool)

  /** The scores of entities and of the project, per persona. */
  datatype Scorer = Scorer(entity: (string, string) -> Score, project: string -> Score)

  function OrElse(a: Option<Rule>, b: Option<Rule>): Option<Rule> {
    if a.Some? then a else b
  }

  function RuleFor(rules: PersonaRules, persona: string): Option<Rule> {
    if persona == "analyst" then OrElse(rules.analyst, rules.base)
    else if persona == "engineer" then OrElse(rules.engineer, rules.base)
    else if persona == "governance" then OrElse(rules.governance, rules.base)
    else rules.base
  }

  /** Each of the three personas has its own rule, or else the base rule like everybody. */
  lemma RulesByPersona(rules: PersonaRules, persona: string)
    ensures RuleFor(rules, "analyst") == if rules.analyst.Some? then rules.analyst else rules.base
    ensures RuleFor(rules, "engineer") == if rules.engineer.Some? then rules.engineer else rules.base
    ensures RuleFor(rules, "governance") == if rules.governance.Some? then rules.governance else rules.base
    ensures persona !in {"analyst", "engineer", "governance"} ==> RuleFor(rules, persona) == rules.base
  {
    assert |"analyst"| == 7 && |"engineer"| == 8 && |"governance"| == 10;
  }

  function UpperChar(c: char): char {
    if 'a' <= c <= 'z' then (c as int - 32) as char else c
  }

  function GradeRank(grade: string): nat {
    var t := Trim(grade);
    if |t| != 1 then 0
    else
      var c := UpperChar(t[0]);
      if c == 'A' then 4 else if c == 'B' then 3 else if c == 'C' then 2 else if c == 'D' then 1 else 0
  }

  function EvaluateThreshold(score: Score, rule: Option<Rule>): Gate {
    match rule
    case None => Pass
    case Some(r) =>
      var scorePass := r.minScore.None? || score.overall >= r.minScore.value;
      var gradePass := r.minGrade.None? || GradeRank(score.grade) >= GradeRank(r.minGrade.value);
      if scorePass && gradePass then Pass
      else if r.severity.Required? then RequiredFail
      else AdvisoryFail
  }

  /** In project mode entities are scored without a threshold. */
  function PairGate(inputs: Inputs, scorer: Scorer, id: string, persona: string): Gate {
    EvaluateThreshold(scorer.entity(id, persona),
                      if inputs.mode.Project? then None else RuleFor(inputs.entityRules, persona))
  }

  function ProjectGate(inputs: Inputs, scorer: Scorer, persona: string): Gate {
    EvaluateThreshold(scorer.project(persona), RuleFor(inputs.projectRules, persona))
  }

  /** The worst of some outcomes; passing when there are none. */
  function Worst(gates: set<Gate>): Gate {
    if RequiredFail in gates then RequiredFail else if AdvisoryFail in gates then AdvisoryFail else Pass
  }

  function EntityGates(inputs: Inputs, scorer: Scorer, id: string): set<Gate> {
    set persona | persona in inputs.personas :: PairGate(inputs, scorer, id, persona)
  }

  function AllGates(inputs: Inputs, scorer: Scorer): set<Gate> {
    set id, persona | id in inputs.selected && persona in inputs.personas :: PairGate(inputs, scorer, id, persona)
  }

  function ProjectGates(inputs: Inputs, scorer: Scorer): set<Gate> {
    set persona | persona in inputs.personas :: ProjectGate(inputs, scorer, persona)
  }

  /** What the gate of a report is meant to be: the worst threshold outcome over all pairs of a
      selected entity and a persona, or over the project scores in project mode; with nothing
      selected, the caller's choice or a warning that changed model files matched nothing. */
  function ReportGate(inputs: Inputs, scorer: Scorer): Gate {
    if inputs.selected == [] && inputs.failOnNoTargets then RequiredFail
    else if inputs.mode.Project? then Worst(ProjectGates(inputs, scorer))
    else if inputs.selected == [] && inputs.mode.Changed? && inputs.looksLikeModels then AdvisoryFail
    else Worst(AllGates(inputs, scorer))
  }

  /** `score_entity`: one pass over the personas with two flags. */
  method ScoreEntity(inputs: Inputs, scorer: Scorer, id: string) returns (r: EntityReport)
    ensures r.id == id
    ensures r.gate == Worst(EntityGates(inputs, scorer, id))
    ensures r.personas.Keys == set p | p in inputs.personas
    ensures forall p :: p in r.personas ==> r.personas[p] == (scorer.entity(id, p), PairGate(inputs, scorer, id, p))
  {
    hide EvaluateThreshold, RuleFor;
    var required, advisory := false, false;
    var personas: map<string, (Score, Gate)> := map[];
    var i := 0;
    while i < |inputs.personas|
      invariant 0 <= i <= |inputs.personas|
      invariant required <==> exists p :: p in inputs.personas[..i] && PairGate(inputs, scorer, id, p) == RequiredFail
      invariant advisory <==> exists p :: p in inputs.personas[..i] && PairGate(inputs, scorer, id, p) == AdvisoryFail
      invariant forall p :: p in personas <==> p in inputs.personas[..i]
      invariant forall p :: p in personas ==> personas[p] == (scorer.entity(id, p), PairGate(inputs, scorer, id, p))
    {
      var persona := inputs.personas[i];
      assert inputs.personas[..i + 1] == inputs.personas[..i] + [persona];
      var gate := PairGate(inputs, scorer, id, persona);
      match gate {
        case RequiredFail => required := true;
        case AdvisoryFail => advisory := true;
        case Pass =>
      }
      personas := personas[persona := (scorer.entity(id, persona), gate)];
      i := i + 1;
    }
    assert inputs.personas[..i] == inputs.personas;
    assert required <==> RequiredFail in EntityGates(inputs, scorer, id);
    assert advisory <==> AdvisoryFail in EntityGates(inputs, scorer, id);
    r := EntityReport(id, if required then RequiredFail else if advisory then AdvisoryFail else Pass, personas);
  }

  function CountGate(reports: seq<EntityReport>, gate: Gate): nat {
    if reports == [] then 0
    else CountGate(reports[..|reports| - 1], gate) + (if reports[|reports| - 1].gate == gate then 1 else 0)
  }

  lemma {:induction false} CountGateZero(reports: seq<EntityReport>, gate: Gate)
    ensures CountGate(reports, gate) > 0 <==> exists i :: 0 <= i < |reports| && reports[i].gate == gate
  {
    if reports != [] {
      CountGateZero(reports[..|reports| - 1], gate);
    }
  }

  lemma {:induction false} CountGatesSum(reports: seq<EntityReport>)
    ensures CountGate(reports, RequiredFail) + CountGate(reports, AdvisoryFail) + CountGate(reports, Pass) == |reports|
  {
    if reports != [] {
      CountGatesSum(reports[..|reports| - 1]);
    }
  }

  /** Every report is what scoring its entity gives. */
  ghost predicate Scored(inputs: Inputs, scorer: Scorer, ids: seq<string>, reports: seq<EntityReport>) {
    && |reports| == |ids|
    && forall i :: 0 <= i < |ids| ==>
         reports[i].id == ids[i] && reports[i].gate == Worst(EntityGates(inputs, scorer, ids[i]))
  }

  lemma ScoredGates(inputs: Inputs, scorer: Scorer, reports: seq<EntityReport>)
    requires Scored(inputs, scorer, inputs.selected, reports)
    ensures (exists i :: 0 <= i < |reports| && reports[i].gate == RequiredFail) <==> RequiredFail in AllGates(inputs, scorer)
    ensures RequiredFail !in AllGates(inputs, scorer) ==>
      ((exists i :: 0 <= i < |reports| && reports[i].gate == AdvisoryFail) <==> AdvisoryFail in AllGates(inputs, scorer))
  {
    hide PairGate;
    forall i | 0 <= i < |reports| ensures EntityGates(inputs, scorer, inputs.selected[i]) <= AllGates(inputs, scorer) {
      assert inputs.selected[i] in inputs.selected;
    }
    forall id, persona | id in inputs.selected && persona in inputs.personas
      ensures exists i :: 0 <= i < |reports| && reports[i].id == id
                          && PairGate(inputs, scorer, id, persona) in EntityGates(inputs, scorer, reports[i].id)
    {
      var i :| 0 <= i < |inputs.selected| && inputs.selected[i] == id;
      assert reports[i].id == id;
    }
  }

  lemma PushReport(inputs: Inputs, scorer: Scorer, i: nat, reports: seq<EntityReport>, r: EntityReport)
    requires i < |inputs.selected| && Scored(inputs, scorer, inputs.selected[..i], reports)
    requires r.id == inputs.selected[i] && r.gate == Worst(EntityGates(inputs, scorer, r.id))
    ensures Scored(inputs, scorer, inputs.selected[..i + 1], reports + [r])
    ensures forall g :: CountGate(reports + [r], g) == CountGate(reports, g) + (if r.gate == g then 1 else 0)
  {
    hide Worst, EntityGates;
    assert (reports + [r])[..|reports|] == reports;
  }

  lemma CountNothing(gate: Gate)
    ensures CountGate([], gate) == 0
  {
  }

  datatype Report = Report(gate: Gate, required: nat, advisory: nat, pass: nat, entities: seq<EntityReport>)

  /** The number of personas with a given project outcome. */
  function CountProject(summary: map<string, Gate>, gate: Gate): nat {
    |set p | p in summary && summary[p] == gate|
  }

  /** `score_project_summary`: one report per persona, however often it is listed. */
  method ScoreProject(inputs: Inputs, scorer: Scorer) returns (summary: map<string, Gate>)
    ensures summary.Keys == set p | p in inputs.personas
    ensures forall p :: p in summary ==> summary[p] == ProjectGate(inputs, scorer, p)
  {
    hide ProjectGate;
    summary := map[];
    var i := 0;
    while i < |inputs.personas|
      invariant 0 <= i <= |inputs.personas|
      invariant forall p :: p in summary <==> p in inputs.personas[..i]
      invariant forall p :: p in summary ==> summary[p] == ProjectGate(inputs, scorer, p)
    {
      var persona := inputs.personas[i];
      assert inputs.personas[..i + 1] == inputs.personas[..i] + [persona];
      summary := summary[persona := ProjectGate(inputs, scorer, persona)];
      i := i + 1;
    }
    assert inputs.personas[..i] == inputs.personas;
  }

  lemma ProjectCounts(inputs: Inputs, scorer: Scorer, summary: map<string, Gate>)
    requires summary.Keys == set p | p in inputs.personas
    requires forall p :: p in summary ==> summary[p] == ProjectGate(inputs, scorer, p)
    ensures CountProject(summary, RequiredFail) + CountProject(summary, AdvisoryFail) + CountProject(summary, Pass)
         == |set p | p in inputs.personas|
    ensures CountProject(summary, RequiredFail) > 0 <==> RequiredFail in ProjectGates(inputs, scorer)
    ensures CountProject(summary, AdvisoryFail) > 0 <==> AdvisoryFail in ProjectGates(inputs, scorer)
  {
    hide ProjectGate, CountProject;
    CountProjectSum(summary);
    CountProjectSome(inputs, scorer, summary, RequiredFail);
    CountProjectSome(inputs, scorer, summary, AdvisoryFail);
  }

  lemma CountProjectSum(summary: map<string, Gate>)
    ensures CountProject(summary, RequiredFail) + CountProject(summary, AdvisoryFail) + CountProject(summary, Pass)
         == |summary.Keys|
  {
    var r := set p | p in summary && summary[p] == RequiredFail;
    var a := set p | p in summary && summary[p] == AdvisoryFail;
    var q := set p | p in summary && summary[p] == Pass;
    assert r + a + q == summary.Keys;
    assert |r + a + q| == |r + a| + |q| && |r + a| == |r| + |a|;
  }

  lemma CountProjectSome(inputs: Inputs, scorer: Scorer, summary: map<string, Gate>, gate: Gate)
    requires summary.Keys == set p | p in inputs.personas
    requires forall p :: p in summary ==> summary[p] == ProjectGate(inputs, scorer, p)
    ensures CountProject(summary, gate) > 0 <==> gate in ProjectGates(inputs, scorer)
  {
    hide ProjectGate;
    var s := set p | p in summary && summary[p] == gate;
    if gate in ProjectGates(inputs, scorer) {
      var p :| p in inputs.personas && ProjectGate(inputs, scorer, p) == gate;
      assert p in summary.Keys;
      assert p in s;
    }
    if s != {} {
      var p :| p in s;
    }
  }

  lemma ProjectEntitiesPass(inputs: Inputs, scorer: Scorer, id: string)
    requires inputs.mode.Project?
    ensures Worst(EntityGates(inputs, scorer, id)) == Pass
  {
    assert forall persona :: PairGate(inputs, scorer, id, persona) == Pass;
  }

  /** `build_metadata_audit_report`: the counts the source keeps decide the gate, and the gate is
      the one the whole report should have. Outside project mode the counts add up to the number
      of targets; in project mode every entity passes and they add up to the personas. */
  method BuildReport(inputs: Inputs, scorer: Scorer) returns (r: Report)
    ensures r.gate == ReportGate(inputs, scorer)
    ensures Scored(inputs, scorer, inputs.selected, r.entities)
    ensures inputs.selected != [] && !inputs.mode.Project? ==>
      && r.required + r.advisory + r.pass == |inputs.selected|
      && r.required == CountGate(r.entities, RequiredFail)
      && r.advisory == CountGate(r.entities, AdvisoryFail)
    ensures inputs.selected != [] && inputs.mode.Project? ==>
      r.required + r.advisory + r.pass == |set p | p in inputs.personas|
    ensures inputs.mode.Project? ==> forall i :: 0 <= i < |r.entities| ==> r.entities[i].gate == Pass
    ensures inputs.selected == [] && inputs.failOnNoTargets ==> r.required == 1
    ensures inputs.selected == [] && !inputs.failOnNoTargets && inputs.mode.Changed? && inputs.looksLikeModels ==> r.advisory == 1
  {
    hide EvaluateThreshold, RuleFor, AllGates, ReportGate, PairGate, EntityGates, Worst, ProjectGates, CountProject, CountGate;
    var entities, i := [], 0;
    var required, advisory, pass := 0, 0, 0;
    CountNothing(RequiredFail);
    CountNothing(AdvisoryFail);
    CountNothing(Pass);
    while i < |inputs.selected|
      invariant 0 <= i <= |inputs.selected|
      invariant Scored(inputs, scorer, inputs.selected[..i], entities)
      invariant required == CountGate(entities, RequiredFail)
      invariant advisory == CountGate(entities, AdvisoryFail)
      invariant pass == CountGate(entities, Pass)
    {
      var report := ScoreEntity(inputs, scorer, inputs.selected[i]);
      match report.gate {
        case RequiredFail => required := required + 1;
        case AdvisoryFail => advisory := advisory + 1;
        case Pass => pass := pass + 1;
      }
      PushReport(inputs, scorer, i, entities, report);
      entities := entities + [report];
      i := i + 1;
    }
    assert inputs.selected[..i] == inputs.selected;
    CountGatesSum(entities);
    CountGateZero(entities, RequiredFail);
    CountGateZero(entities, AdvisoryFail);
    if inputs.mode.Project? {
      var summary := ScoreProject(inputs, scorer);
      required, advisory, pass :=
        CountProject(summary, RequiredFail), CountProject(summary, AdvisoryFail), CountProject(summary, Pass);
      ProjectCounts(inputs, scorer, summary);
    }
    if inputs.selected == [] {
      if inputs.failOnNoTargets {
        required := 1;
      } else if inputs.mode.Changed? && inputs.looksLikeModels {
        advisory := 1;
      }
    }
    var gate := if required > 0 then RequiredFail else if advisory > 0 then AdvisoryFail else Pass;
    r := Report(gate, required, advisory, pass, entities);
    GateFromCounts(inputs, scorer, required, advisory, entities);
    if inputs.mode.Project? {
      forall k | 0 <= k < |entities| ensures entities[k].gate == Pass {
        ProjectEntitiesPass(inputs, scorer, inputs.selected[k]);
      }
    }
  }

  lemma GateFromCounts(inputs: Inputs, scorer: Scorer, required: nat, advisory: nat, entities: seq<EntityReport>)
    requires Scored(inputs, scorer, inputs.selected, entities)
    requires inputs.selected == [] && inputs.failOnNoTargets ==> required > 0
    requires !(inputs.selected == [] && inputs.failOnNoTargets) ==>
      if inputs.mode.Project? then
        && (required > 0 <==> RequiredFail in ProjectGates(inputs, scorer))
        && (advisory > 0 <==> AdvisoryFail in ProjectGates(inputs, scorer))
      else
        && (required > 0 <==> exists i :: 0 <= i < |entities| && entities[i].gate == RequiredFail)
        && (inputs.selected == [] && inputs.mode.Changed? && inputs.looksLikeModels ==> advisory > 0)
        && (!(inputs.selected == [] && inputs.mode.Changed? && inputs.looksLikeModels) ==>
              (advisory > 0 <==> exists i :: 0 <= i < |entities| && entities[i].gate == AdvisoryFail))
    ensures ReportGate(inputs, scorer) == if required > 0 then RequiredFail else if advisory > 0 then AdvisoryFail else Pass
  {
    ScoredGates(inputs, scorer, entities);
    hide AllGates, ProjectGates, Scored, PairGate;
  }

  // ---- What the gate means, without the intermediate outcomes ----

  predicate Meets(score: Score, rule: Rule) {
    && (rule.minScore.Some? ==> score.overall >= rule.minScore.value)
    && (rule.minGrade.Some? ==> GradeRank(score.grade) >= GradeRank(rule.minGrade.value))
  }

  /** A rule applies to the persona's entities and the entity does not meet it. */
  predicate Violates(inputs: Inputs, scorer: Scorer, id: string, persona: string) {
    var rule := RuleFor(inputs.entityRules, persona);
    rule.Some? && !Meets(scorer.entity(id, persona), rule.value)
  }

  predicate IsRequired(inputs: Inputs, persona: string) {
    var rule := RuleFor(inputs.entityRules, persona);
    rule.Some? && rule.value.severity.Required?
  }

  lemma PairGateMeaning(inputs: Inputs, scorer: Scorer, id: string, persona: string)
    requires !inputs.mode.Project?
    ensures PairGate(inputs, scorer, id, persona) == Pass <==> !Violates(inputs, scorer, id, persona)
    ensures PairGate(inputs, scorer, id, persona) == RequiredFail <==>
      Violates(inputs, scorer, id, persona) && IsRequired(inputs, persona)
  {
    hide GradeRank, RuleFor;
  }

  /** With something selected outside project mode, the gate passes exactly when no selected entity
      violates a rule for a listed persona, and fails exactly when one violates a required rule. */
  lemma ReportGateMeaning(inputs: Inputs, scorer: Scorer)
    requires inputs.selected != [] && !inputs.mode.Project?
    ensures ReportGate(inputs, scorer) == Pass <==>
      forall id, p :: id in inputs.selected && p in inputs.personas ==> !Violates(inputs, scorer, id, p)
    ensures ReportGate(inputs, scorer) == RequiredFail <==>
      exists id, p :: id in inputs.selected && p in inputs.personas && Violates(inputs, scorer, id, p) && IsRequired(inputs, p)
  {
    hide PairGate, Violates, IsRequired;
    forall id, p | id in inputs.selected && p in inputs.personas
      ensures PairGate(inputs, scorer, id, p) in AllGates(inputs, scorer)
      ensures PairGate(inputs, scorer, id, p) == Pass <==> !Violates(inputs, scorer, id, p)
      ensures PairGate(inputs, scorer, id, p) == RequiredFail <==> Violates(inputs, scorer, id, p) && IsRequired(inputs, p)
    {
      PairGateMeaning(inputs, scorer, id, p);
    }
  }

  /** In project mode the gate passes exactly when the project meets the project rule of every listed
      persona, and fails exactly when it violates a required one. */
  lemma ProjectGateMeaning(inputs: Inputs, scorer: Scorer)
    requires inputs.mode.Project? && !(inputs.selected == [] && inputs.failOnNoTargets)
    ensures ReportGate(inputs, scorer) == Pass <==>
      forall p :: p in inputs.personas ==>
        RuleFor(inputs.projectRules, p).None? || Meets(scorer.project(p), RuleFor(inputs.projectRules, p).value)
    ensures ReportGate(inputs, scorer) == RequiredFail <==>
      exists p :: p in inputs.personas && RuleFor(inputs.projectRules, p).Some?
        && !Meets(scorer.project(p), RuleFor(inputs.projectRules, p).value) && RuleFor(inputs.projectRules, p).value.severity.Required?
  {
    hide RuleFor, Meets, ProjectGate;
    forall p | p in inputs.personas
      ensures var rule := RuleFor(inputs.projectRules, p);
              && ProjectGate(inputs, scorer, p) in ProjectGates(inputs, scorer)
              && (ProjectGate(inputs, scorer, p) == Pass <==> rule.None? || Meets(scorer.project(p), rule.value))
              && (ProjectGate(inputs, scorer, p) == RequiredFail <==>
                    rule.Some? && !Meets(scorer.project(p), rule.value) && rule.value.severity.Required?)
    {
      ProjectOutcome(inputs, scorer, p);
    }
  }

  lemma ProjectOutcome(inputs: Inputs, scorer: Scorer, p: string)
    ensures var rule := RuleFor(inputs.projectRules, p);
            && (ProjectGate(inputs, scorer, p) == Pass <==> rule.None? || Meets(scorer.project(p), rule.value))
            && (ProjectGate(inputs, scorer, p) == RequiredFail <==>
                  rule.Some? && !Meets(scorer.project(p), rule.value) && rule.value.severity.Required?)
  {
    hide RuleFor, GradeRank;
  }

  /** Grades rank from A down; anything but A to D ranks last, and neither case nor padding matters. */
  lemma GradesOrdered(pre: string, g: char, post: string)
    requires AllSpace(pre) && AllSpace(post) && !IsSpace(g)
    ensures GradeRank(pre + [g] + post) == GradeRank([UpperChar(g)])
    ensures 'A' <= UpperChar(g) <= 'D' <==> GradeRank([g]) > 0
    ensures GradeRank([g]) > 0 <==> g in "ABCDabcd"
    ensures forall h :: 'A' <= UpperChar(g) < UpperChar(h) <= 'D' ==> GradeRank([g]) > GradeRank([h])
  {
    LetterRank(g);
    LetterRank(UpperChar(g));
    TrimUnique(pre, [g], post);
    TrimFixed([g]);
    assert GradeRank(pre + [g] + post) == GradeRank([g]);
    hide GradeRank, IsSpace;
    forall h | 'A' <= UpperChar(g) < UpperChar(h) <= 'D' ensures GradeRank([g]) > GradeRank([h]) {
      LetterRank(h);
    }
  }

  lemma LetterRank(c: char)
    ensures GradeRank([c]) == if 'A' <= UpperChar(c) <= 'D' then 'E' as int - UpperChar(c) as int else 0
    ensures UpperChar(UpperChar(c)) == UpperChar(c)
    ensures 'A' <= UpperChar(c) <= 'D' <==> c in "ABCDabcd"
    ensures UpperChar('a') == 'A' && UpperChar('b') == 'B' && UpperChar('c') == 'C' && UpperChar('d') == 'D'
  {
    TrimBlank([c]);
    if !IsSpace(c) {
      TrimFixed([c]);
    }
  }

  // ---- Better metadata never fails where worse metadata passed ----

  predicate NoWorse(a: Gate, b: Gate) {
    a == Pass || a == b || (a == AdvisoryFail && b == RequiredFail)
  }

  ghost predicate Raises(low: Score, high: Score) {
    high.overall >= low.overall && GradeRank(high.grade) >= GradeRank(low.grade)
  }

  lemma ThresholdMonotone(low: Score, high: Score, rule: Option<Rule>)
    requires Raises(low, high)
    ensures NoWorse(EvaluateThreshold(high, rule), EvaluateThreshold(low, rule))
  {
  }

  ghost predicate AllNoWorse(a: set<Gate>, b: set<Gate>) {
    forall g :: g in a ==> exists h :: h in b && NoWorse(g, h)
  }

  lemma WorstMonotone(a: set<Gate>, b: set<Gate>)
    requires AllNoWorse(a, b)
    ensures NoWorse(Worst(a), Worst(b))
  {
    var g := Worst(a);
    if g in a {
      var h :| h in b && NoWorse(g, h);
    }
  }

  /** Raising scores and grades never worsens the gate, in any mode. */
  lemma ReportGateMonotone(inputs: Inputs, low: Scorer, high: Scorer)
    requires forall id, p :: Raises(low.entity(id, p), high.entity(id, p))
    requires forall p :: Raises(low.project(p), high.project(p))
    ensures NoWorse(ReportGate(inputs, high), ReportGate(inputs, low))
  {
    hide EvaluateThreshold, Raises, NoWorse, RuleFor, Worst;
    assert AllNoWorse(AllGates(inputs, high), AllGates(inputs, low)) by {
      forall id, p | id in inputs.selected && p in inputs.personas
        ensures NoWorse(PairGate(inputs, high, id, p), PairGate(inputs, low, id, p))
      {
        ThresholdMonotone(low.entity(id, p), high.entity(id, p),
                          if inputs.mode.Project? then None else RuleFor(inputs.entityRules, p));
      }
    }
    assert AllNoWorse(ProjectGates(inputs, high), ProjectGates(inputs, low)) by {
      forall p | p in inputs.personas
        ensures NoWorse(ProjectGate(inputs, high, p), ProjectGate(inputs, low, p))
      {
        ThresholdMonotone(low.project(p), high.project(p), RuleFor(inputs.projectRules, p));
      }
    }
    WorstMonotone(AllGates(inputs, high), AllGates(inputs, low));
    WorstMonotone(ProjectGates(inputs, high), ProjectGates(inputs, low));
    assert NoWorse(RequiredFail, RequiredFail) && NoWorse(AdvisoryFail, AdvisoryFail) by { SelfNoWorse(); }
  }

  /** Outcomes are ordered: pass, advisory, required. */
  lemma SelfNoWorse()
    ensures forall g :: NoWorse(g, g)
    ensures forall g, h :: NoWorse(g, h) || NoWorse(h, g)
    ensures forall g, h :: NoWorse(g, h) && NoWorse(h, g) ==> g == h
    ensures NoWorse(Pass, AdvisoryFail) && NoWorse(AdvisoryFail, RequiredFail)
  {
  }
}
