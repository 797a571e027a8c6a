/** How a load of a cache file ends, over all interleavings: as some moment during the load
    demands, and, when nobody touches the file meanwhile, exactly as its content demands. */
module AtomicLoads {
  import opened Octets
  import opened TempNames
  import opened AtomicCache

  /** The load `p` begins with event `b` and is still there, or has just ended, in state `j`. */
  ghost predicate Loads(states: seq<State>, events: seq<Event>, b: nat, j: nat, p: nat, target: string, limit: nat) {
    && b < |events| < |states| && b < j < |states|
    && events[b] == BeginLoad(p, target, limit)
    && forall k :: b < k <= j ==> p in states[k].procs
  }

  /** The outcome is right in this state: the file is missing, or larger than the limit by its real
      size, or has this content and respects the limit. */
  ghost predicate Fits(s: State, target: string, limit: nat, outcome: Outcome) {
    match outcome
    case Missing => target !in s.names
    case TooLarge(n) =>
      0 < limit < n && target in s.names && s.names[target] in s.data && |s.data[s.names[target]]| == n
    case Whole(c) => Holds(s, target, c) && (limit == 0 || |c| <= limit)
  }

  /** The outcome was right at some moment during the load. */
  ghost predicate FitsDuring(states: seq<State>, b: nat, j: nat, target: string, limit: nat, outcome: Outcome)
    requires j < |states|
  {
    exists k :: b < k < j && Fits(states[k], target, limit, outcome)
  }

  ghost predicate OpenedDuring(states: seq<State>, events: seq<Event>, b: nat, j: nat, p: nat, target: string) {
    exists k :: b < k < j && OpensAt(states, events, k, p, target)
  }

  /** Where the load has got to, and why. */
  ghost predicate Explained(states: seq<State>, events: seq<Event>, b: nat, j: nat, p: nat, target: string, limit: nat)
    requires j < |states| && p in states[j].procs
  {
    var r := states[j].procs[p];
    && r.target == target
    && match r
       case Checking(_, l) => l == limit && limit > 0
       case Opening(_, l) => l == limit
       case Reading(_, l, _, _) => l == limit && OpenedDuring(states, events, b, j, p, target)
       case Loaded(_, l, outcome) => l == limit && FitsDuring(states, b, j, target, limit, outcome)
       case _ => false
  }

  lemma ExplainedLater(states: seq<State>, events: seq<Event>, b: nat, i: nat, j: nat, p: nat, target: string, limit: nat)
    requires i <= j < |states| && p in states[i].procs && p in states[j].procs
    requires Explained(states, events, b, i, p, target, limit) && states[j].procs[p] == states[i].procs[p]
    ensures Explained(states, events, b, j, p, target, limit)
  {
    hide Fits, OpensAt;
  }

  /** An event of another process leaves a load where it is. */
  lemma OthersLeaveLoads(s: State, e: Event, t: State, p: nat)
    requires Step(s, e, t) && p in s.procs && p in t.procs && (e.Remove? || e.p != p)
    ensures t.procs[p] == s.procs[p]
  {
  }

  /** One event of the load itself. */
  lemma LoadStep(states: seq<State>, events: seq<Event>, b: nat, j: nat, p: nat, target: string, limit: nat)
    requires IsRun(states, events) && Loads(states, events, b, j, p, target, limit) && b + 1 < j
    requires Explained(states, events, b, j - 1, p, target, limit)
    requires !events[j - 1].Remove? && events[j - 1].p == p
    ensures Explained(states, events, b, j, p, target, limit)
  {
    var s, e, t := states[j - 1], events[j - 1], states[j];
    assert StepAt(states, events, j - 1);
    RunInv(states, events, j - 1);
    match e
    case Stat(_) =>
      if t.procs[p].Loaded? {
        assert Fits(s, target, limit, t.procs[p].outcome);
      }
    case Open(_) =>
      if t.procs[p].Loaded? {
        assert Fits(s, target, limit, t.procs[p].outcome);
      } else {
        assert OpensAt(states, events, j - 1, p, target);
      }
    case Read(_, _) =>
      hide OpensAt;
    case Finish(_) =>
      hide Inv;
      FinishFits(states, events, b, j, p, target, limit);
    case _ =>
  }

  lemma FinishFits(states: seq<State>, events: seq<Event>, b: nat, j: nat, p: nat, target: string, limit: nat)
    requires IsRun(states, events) && Loads(states, events, b, j, p, target, limit) && b + 1 < j
    requires OpenedDuring(states, events, b, j - 1, p, target)
    requires states[j].procs[p].Loaded? && states[j].procs[p].limit == limit
    ensures FitsDuring(states, b, j, target, limit, states[j].procs[p].outcome)
  {
    hide IsRun;
    var k :| b < k < j - 1 && OpensAt(states, events, k, p, target);
    LoadIsSnapshot(states, events, k, j, p, target);
    assert Fits(states[k], target, limit, states[j].procs[p].outcome);
  }

  lemma {:induction false} LoadExplained(states: seq<State>, events: seq<Event>, b: nat, j: nat, p: nat, target: string, limit: nat)
    requires IsRun(states, events) && Loads(states, events, b, j, p, target, limit)
    ensures Explained(states, events, b, j, p, target, limit)
  {
    assert StepAt(states, events, b);
    if j > b + 1 {
      LoadExplained(states, events, b, j - 1, p, target, limit);
      var e := events[j - 1];
      if !e.Remove? && e.p == p {
        LoadStep(states, events, b, j, p, target, limit);
      } else {
        assert StepAt(states, events, j - 1);
        OthersLeaveLoads(states[j - 1], e, states[j], p);
        hide Step, IsRun, Explained;
        ExplainedLater(states, events, b, j - 1, j, p, target, limit);
      }
    }
  }

  /** In every interleaving a load ends as some moment between its beginning and its end demands: it
      reports a missing file only if the file was missing then, a size only if the file had that size
      then and the limit is below it, and content only if that was the whole content then and the
      limit allows it. */
  lemma LoadEndsAsSomeMomentDemands(states: seq<State>, events: seq<Event>, b: nat, j: nat, p: nat, target: string, limit: nat)
    requires IsRun(states, events) && Loads(states, events, b, j, p, target, limit) && states[j].procs[p].Loaded?
    ensures states[j].procs[p].target == target && states[j].procs[p].limit == limit
    ensures exists k :: b < k < j && Fits(states[k], target, limit, states[j].procs[p].outcome)
  {
    hide IsRun, Fits;
    LoadExplained(states, events, b, j, p, target, limit);
  }

  // ---- When nobody touches the file ----

  lemma {:induction false} StaysHeld(states: seq<State>, events: seq<Event>, b: nat, k: nat, target: string, c: Bytes)
    requires IsRun(states, events) && b <= k < |states| && !IsTempLike(target) && Holds(states[b], target, c)
    requires forall i :: b <= i < k ==> !Replaces(states[i], events[i], target)
    ensures Holds(states[k], target, c)
  {
    if k > b {
      StaysHeld(states, events, b, k - 1, target, c);
      RunInv(states, events, k - 1);
      assert StepAt(states, events, k - 1);
      hide IsRun;
      HoldsStep(states[0], states[k - 1], events[k - 1], states[k], target, c);
    }
  }

  lemma AbsentStep(init: State, s: State, e: Event, t: State, target: string)
    requires Inv(init, s) && Step(s, e, t) && !IsTempLike(target) && target !in s.names && !Replaces(s, e, target)
    ensures target !in t.names
  {
    if e.Create? || e.Rename? {
      assert ProcOk(init, s, s.procs[e.p]);
    }
  }

  lemma {:induction false} StaysAbsent(states: seq<State>, events: seq<Event>, b: nat, k: nat, target: string)
    requires IsRun(states, events) && b <= k < |states| && !IsTempLike(target) && target !in states[b].names
    requires forall i :: b <= i < k ==> !Replaces(states[i], events[i], target)
    ensures target !in states[k].names
  {
    if k > b {
      StaysAbsent(states, events, b, k - 1, target);
      RunInv(states, events, k - 1);
      assert StepAt(states, events, k - 1);
      hide IsRun;
      AbsentStep(states[0], states[k - 1], events[k - 1], states[k], target);
    }
  }

  /** A load during which nothing replaces or removes a file of content `c` ends, when it ends, with
      the whole content exactly when the limit allows it, and else with its size as too large; and
      a load of a file that stays missing ends with that. */
  lemma UndisturbedLoad(states: seq<State>, events: seq<Event>, b: nat, j: nat, p: nat, target: string, limit: nat)
    requires IsRun(states, events) && Loads(states, events, b, j, p, target, limit) && states[j].procs[p].Loaded?
    requires forall i :: b <= i < j ==> !Replaces(states[i], events[i], target)
    ensures forall c :: Holds(states[b], target, c) ==>
      states[j].procs[p].outcome == if limit == 0 || |c| <= limit then Whole(c) else TooLarge(|c|)
    ensures target !in states[b].names ==> states[j].procs[p].outcome == Missing
  {
    assert StepAt(states, events, b);
    assert !IsTempLike(target);
    hide Step, IsRun, IsTempLike, Replaces;
    LoadEndsAsSomeMomentDemands(states, events, b, j, p, target, limit);
    var k :| b < k < j && Fits(states[k], target, limit, states[j].procs[p].outcome);
    forall c | Holds(states[b], target, c) ensures Holds(states[k], target, c) {
      StaysHeld(states, events, b, k, target, c);
    }
    if target !in states[b].names {
      StaysAbsent(states, events, b, k, target);
    }
  }

  // ---- No load or save is ever stuck ----

  /** A load that has begun can always take its next step. */
  lemma LoadCanGoOn(init: State, s: State, p: nat) returns (e: Event, t: State)
    requires Inv(init, s) && p in s.procs && !IsSaver(s.procs[p]) && !s.procs[p].Loaded?
    ensures Step(s, e, t) && p in t.procs && t.procs[p] != s.procs[p] && !IsSaver(t.procs[p])
  {
    hide WholeFor;
    assert ProcOk(init, s, s.procs[p]);
    match s.procs[p]
    case Checking(target, limit) =>
      e := Stat(p);
      t := s.(procs := s.procs[p :=
        if target !in s.names then Loaded(target, limit, Missing)
        else if |s.data[s.names[target]]| > limit then Loaded(target, limit, TooLarge(|s.data[s.names[target]]|))
        else Opening(target, limit)]);
    case Opening(target, limit) =>
      e := Open(p);
      t := s.(procs := s.procs[p :=
        if target in s.names then Reading(target, limit, s.names[target], []) else Loaded(target, limit, Missing)]);
    case Reading(target, limit, ino, buf) =>
      var data := s.data[ino];
      if |buf| < |data| {
        e := Read(p, 1);
        t := s.(procs := s.procs[p := Reading(target, limit, ino, buf + data[|buf|..|buf| + 1])]);
      } else {
        e := Finish(p);
        t := s.(procs := s.procs[p := Loaded(target, limit, if limit > 0 && |buf| > limit then TooLarge(|buf|) else Whole(buf))]);
      }
  }

  /** So can a save whose temporary file nobody has removed. */
  lemma SaveCanGoOn(init: State, s: State, p: nat) returns (e: Event, t: State)
    requires Inv(init, s) && p in s.procs && IsSaver(s.procs[p])
    requires s.procs[p].Writing? ==> s.procs[p].tmp in s.names
    ensures Step(s, e, t) && (e.Create? || e.Write? || e.Rename?) && e.p == p && t != s
    ensures p !in t.procs ==> Holds(t, s.procs[p].target, s.procs[p].payload)
  {
    hide WholeFor;
    assert ProcOk(init, s, s.procs[p]);
    match s.procs[p]
    case Naming(target, tmp, payload) =>
      var ino := FreshInode(s.data.Keys);
      e := Create(p, ino);
      t := s.(names := s.names[tmp := ino], data := s.data[ino := []], procs := s.procs[p := Writing(target, tmp, payload, ino)]);
    case Writing(target, tmp, payload, ino) =>
      var n := |s.data[ino]|;
      if n < |payload| {
        e := Write(p, 1);
        t := s.(data := s.data[ino := s.data[ino] + payload[n..n + 1]]);
        assert |t.data[ino]| == n + 1;
      } else {
        e := Rename(p);
        t := s.(names := (s.names - {tmp})[target := s.names[tmp]], procs := s.procs - {p});
        assert s.data[ino] == payload;
      }
  }

  lemma {:induction false} FreshInode(used: set<nat>) returns (ino: nat)
    ensures forall i :: i in used ==> i < ino
  {
    ino := 0;
    if used != {} {
      var i :| i in used;
      var j := FreshInode(used - {i});
      ino := if j > i then j else i + 1;
      forall k | k in used ensures k < ino {
        assert k == i || k in used - {i};
      }
    }
  }

  /** And a load or a save can begin whenever its process is free and, for a save, its name is new. */
  lemma CanBegin(s: State, p: nat, target: string, limit: nat, payload: Bytes, suffix: string)
    requires p !in s.procs && !IsTempLike(target) && TempName(target, suffix) !in s.taken
    ensures exists t :: Step(s, BeginLoad(p, target, limit), t) && p in t.procs && t.names == s.names && t.data == s.data
    ensures exists t :: Step(s, BeginSave(p, target, payload, suffix), t) && p in t.procs && t.names == s.names && t.data == s.data
  {
    var tmp := TempName(target, suffix);
    var load := s.(procs := s.procs[p := if limit > 0 then Checking(target, limit) else Opening(target, limit)]);
    var save := s.(procs := s.procs[p := Naming(target, tmp, payload)], taken := s.taken + {tmp},
                   saves := s.saves + {(target, payload)});
    assert Step(s, BeginLoad(p, target, limit), load);
    assert Step(s, BeginSave(p, target, payload, suffix), save);
  }

  /** Any process can stop at any moment, and any entry of the directory can be removed. */
  lemma AnythingCanBreak(s: State, p: nat, name: string)
    ensures p in s.procs ==> exists t :: Step(s, Stop(p), t) && p !in t.procs && t.names == s.names && t.data == s.data
    ensures name in s.names ==> exists t :: Step(s, Remove(name), t) && name !in t.names && t.procs == s.procs
  {
    if p in s.procs {
      assert Step(s, Stop(p), s.(procs := s.procs - {p}));
    }
    if name in s.names {
      assert Step(s, Remove(name), s.(names := s.names - {name}));
    }
  }
}
