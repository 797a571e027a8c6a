/** The counting prune while other processes act. It probes every lock during the listing and
    removes only afterwards, oldest first, so other directories are measured and removed between the
    probe of a lock and the removal it allows. */
module CountingPrune {
  import opened Ordering
  import opened StorageEvents
  import opened StoragePrune

  /** What `prune_dirs` was asked for. */
  datatype Policy = Policy(exclude: set<string>, maxKeep: nat, minKeep: nat, maxBytes: nat)

  /** Where it is: about to look at the next listed name, to probe its lock, or to measure a
      directory found free; removing from the sorted list; finished with what it kept; or failed. */
  datatype Pc =
    | Listing(todo: seq<string>, found: seq<Dir>)
    | Probing(name: string, todo: seq<string>, found: seq<Dir>)
    | Measuring(name: string, todo: seq<string>, found: seq<Dir>)
    | Dropping(kept: seq<Dir>)
    | Done(kept: seq<Dir>)
    | Failed

  datatype State = State(dirs: map<string, Stamp>, locked: set<string>, pc: Pc)

  predicate Enough(p: Policy, kept: seq<Dir>) {
    WithinLimits(|kept|, Total(kept), p.maxKeep, Floor(p.minKeep, p.maxKeep), p.maxBytes)
  }

  ghost predicate Step(p: Policy, s: State, e: Event, t: State) {
    match e
    case Look =>
      && s.pc.Listing? && s.pc.todo != []
      && t == s.(pc :=
           var name, rest := s.pc.todo[0], s.pc.todo[1..];
           if name !in s.dirs || name in p.exclude then Listing(rest, s.pc.found) else Probing(name, rest, s.pc.found))
    case Probe =>
      && s.pc.Probing?
      && t == s.(pc := if s.pc.name in s.locked then Listing(s.pc.todo, s.pc.found)
                       else Measuring(s.pc.name, s.pc.todo, s.pc.found))
    case Measure =>
      && s.pc.Measuring? && s.pc.name in s.dirs
      && t == s.(pc := Listing(s.pc.todo, s.pc.found + [Measured(s.dirs, s.pc.name, false)]))
    case Arrange =>
      && s.pc.Listing? && s.pc.todo == []
      && t == s.(pc := Dropping(Sort(DirLe, s.pc.found)))
    case Remove =>
      && s.pc.Dropping? && s.pc.kept != [] && !Enough(p, s.pc.kept) && s.pc.kept[0].name in s.dirs
      && t == s.(dirs := s.dirs - {s.pc.kept[0].name}, pc := Dropping(s.pc.kept[1..]))
    case Finish =>
      && s.pc.Dropping? && Enough(p, s.pc.kept)
      && t == s.(pc := Done(s.pc.kept))
    case Fail => !s.pc.Done? && !s.pc.Failed? && t == s.(pc := Failed)
    case EnvLock(name) => name in s.dirs && t == s.(locked := s.locked + {name})
    case EnvUnlock(name) => t == s.(locked := s.locked - {name})
    case EnvCreate(name, stamp) => t == s.(dirs := s.dirs[name := stamp])
    case EnvDelete(name) => t == s.(dirs := s.dirs - {name})
  }

  function Measured(dirs: map<string, Stamp>, name: string, inUse: bool): Dir
    requires name in dirs
  {
    Dir(name, dirs[name].modified, dirs[name].size, inUse)
  }

  ghost predicate IsRun(p: Policy, states: seq<State>, events: seq<Event>) {
    && |states| == |events| + 1
    && states[0].pc.Listing? && states[0].pc.found == []
    && forall i :: 0 <= i < |events| ==> StepAt(p, states, events, i)
  }

  ghost predicate StepAt(p: Policy, states: seq<State>, events: seq<Event>, i: nat)
    requires i < |events| < |states|
  {
    Step(p, states[i], events[i], states[i + 1])
  }

  ghost predicate RemovesAt(states: seq<State>, events: seq<Event>, i: nat, name: string) {
    i < |events| < |states| && events[i] == Remove
    && states[i].pc.Dropping? && states[i].pc.kept != [] && states[i].pc.kept[0].name == name
  }

  ghost predicate FoundFreeAt(states: seq<State>, events: seq<Event>, i: nat, name: string) {
    i < |events| < |states| && events[i] == Probe && states[i].pc.Probing? && states[i].pc.name == name && name !in states[i].locked
  }

  // ---- Whatever is removed was found free during the listing ----

  /** `name` is not excluded, and a probe before `j` found it free. */
  ghost predicate WasFree(p: Policy, states: seq<State>, events: seq<Event>, j: nat, name: string) {
    name !in p.exclude && exists i :: 0 <= i < j && FoundFreeAt(states, events, i, name)
  }

  /** The directories the prune holds in its hands. */
  function Held(pc: Pc): seq<Dir> {
    match pc
    case Listing(_, found) => found
    case Probing(_, _, found) => found
    case Measuring(_, _, found) => found
    case Dropping(kept) => kept
    case Done(kept) => kept
    case Failed => []
  }

  ghost predicate HeldWereFree(p: Policy, states: seq<State>, events: seq<Event>, j: nat)
    requires j < |states|
  {
    var pc := states[j].pc;
    && (forall d :: d in Held(pc) ==> WasFree(p, states, events, j, d.name))
    && (pc.Measuring? ==> WasFree(p, states, events, j, pc.name))
    && (pc.Probing? ==> pc.name !in p.exclude)
  }

  lemma WasFreeLater(p: Policy, states: seq<State>, events: seq<Event>, j: nat, k: nat, name: string)
    requires WasFree(p, states, events, j, name) && j <= k
    ensures WasFree(p, states, events, k, name)
  {
  }

  /** What is held after a step was held before it, or has just been measured. */
  lemma HeldStep(p: Policy, s: State, e: Event, t: State, d: Dir)
    requires Step(p, s, e, t) && d in Held(t.pc)
    ensures d in Held(s.pc) || (s.pc.Measuring? && d.name == s.pc.name)
  {
    if e.Arrange? {
      SameElements(Sort(DirLe, s.pc.found), s.pc.found);
    }
  }

  lemma {:induction false} HeldFree(p: Policy, states: seq<State>, events: seq<Event>, j: nat)
    requires IsRun(p, states, events) && j < |states|
    ensures HeldWereFree(p, states, events, j)
  {
    if j > 0 {
      HeldFree(p, states, events, j - 1);
      assert StepAt(p, states, events, j - 1);
      var s, e, t := states[j - 1], events[j - 1], states[j];
      hide WasFree, Enough, Sort, DirLe;
      forall d | d in Held(t.pc) ensures WasFree(p, states, events, j, d.name) {
        HeldStep(p, s, e, t, d);
        WasFreeLater(p, states, events, j - 1, j, d.name);
      }
      if t.pc.Measuring? {
        if s.pc.Measuring? {
          WasFreeLater(p, states, events, j - 1, j, t.pc.name);
        } else {
          JustFound(p, states, events, j - 1, t.pc.name);
        }
      }
    }
  }

  lemma JustFound(p: Policy, states: seq<State>, events: seq<Event>, i: nat, name: string)
    requires FoundFreeAt(states, events, i, name) && name !in p.exclude
    ensures WasFree(p, states, events, i + 1, name)
  {
  }

  /** Whatever other processes do, only directories that are not excluded and whose lock was found
      free during the listing are removed. */
  lemma RemovedWasFree(p: Policy, states: seq<State>, events: seq<Event>, j: nat, name: string)
    requires IsRun(p, states, events) && RemovesAt(states, events, j, name)
    ensures WasFree(p, states, events, j, name)
  {
    hide WasFree;
    HeldFree(p, states, events, j);
    assert states[j].pc.kept[0] in Held(states[j].pc);
  }

  /** An excluded directory, or one locked throughout, survives unless somebody else deletes it. */
  lemma {:induction false} ProtectedSurvives(p: Policy, states: seq<State>, events: seq<Event>, j: nat, name: string)
    requires IsRun(p, states, events) && j < |states|
    requires name in states[0].dirs
    requires name in p.exclude || forall i :: 0 <= i < |states| ==> name in states[i].locked
    requires forall i :: 0 <= i < |events| ==> events[i] != EnvDelete(name)
    ensures name in states[j].dirs
  {
    if j > 0 {
      ProtectedSurvives(p, states, events, j - 1, name);
      assert StepAt(p, states, events, j - 1);
      hide Enough, Sort, DirLe;
      if events[j - 1] == Remove && states[j - 1].pc.kept[0].name == name {
        RemovedWasFree(p, states, events, j - 1, name);
      }
    }
  }

  /** A directory found free is in use later exactly when its lock was taken since its probe and not
      released, however much of the listing and of the removals lies in between. */
  lemma {:induction false} InUseExactly(p: Policy, states: seq<State>, events: seq<Event>, i: nat, j: nat, name: string)
    requires IsRun(p, states, events) && FoundFreeAt(states, events, i, name) && i < j < |states|
    ensures name in states[j].locked <==> LockedSince(events, i, j, name)
  {
    assert StepAt(p, states, events, j - 1);
    hide Enough, Sort, DirLe, LockedSince;
    if j > i + 1 {
      InUseExactly(p, states, events, i, j - 1, name);
      LockedSinceStep(events, i, j - 1, name);
    } else {
      NotLockedYet(events, i, name);
    }
  }

  /** So a removal hits a directory in use exactly when the lock was taken since a probe that found
      it free. */
  lemma RemovedInUseExactly(p: Policy, states: seq<State>, events: seq<Event>, j: nat, name: string)
    requires IsRun(p, states, events) && RemovesAt(states, events, j, name)
    ensures name in states[j].locked <==>
      exists i :: 0 <= i < j && FoundFreeAt(states, events, i, name) && LockedSince(events, i, j, name)
  {
    RemovedWasFree(p, states, events, j, name);
    hide LockedSince, FoundFreeAt, IsRun;
    forall i | 0 <= i < j && FoundFreeAt(states, events, i, name)
      ensures name in states[j].locked <==> LockedSince(events, i, j, name)
    {
      InUseExactly(p, states, events, i, j, name);
    }
  }

  lemma OneTooMuch(p: Policy, name: string)
    requires p == Policy({}, 0, 0, 1)
    ensures var d := Dir(name, 0, 2, false); Sort(DirLe, [d]) == [d] && !Enough(p, [d])
  {
  }

  function Alone(name: string, locked: set<string>, pc: Pc): State {
    State(map[name := Stamp(0, 2)], locked, pc)
  }

  lemma AloneListed(p: Policy, name: string, d: Dir)
    requires p == Policy({}, 0, 0, 1) && d == Dir(name, 0, 2, false)
    ensures Step(p, Alone(name, {}, Listing([name], [])), Look, Alone(name, {}, Probing(name, [], [])))
    ensures Step(p, Alone(name, {}, Probing(name, [], [])), Probe, Alone(name, {}, Measuring(name, [], [])))
    ensures Step(p, Alone(name, {}, Measuring(name, [], [])), Measure, Alone(name, {}, Listing([], [d])))
    ensures Step(p, Alone(name, {}, Listing([], [d])), Arrange, Alone(name, {}, Dropping([d])))
  {
    hide Sort, Enough;
    OneTooMuch(p, name);
    assert [name][1..] == [];
    assert [] + [d] == [d];
  }

  lemma AloneRemoved(p: Policy, name: string, d: Dir)
    requires p == Policy({}, 0, 0, 1) && d == Dir(name, 0, 2, false)
    ensures Step(p, Alone(name, {}, Dropping([d])), EnvLock(name), Alone(name, {name}, Dropping([d])))
    ensures Step(p, Alone(name, {name}, Dropping([d])), Remove, State(map[], {name}, Dropping([])))
  {
    hide Sort, Enough;
    OneTooMuch(p, name);
    assert [d][1..] == [];
    assert map[name := Stamp(0, 2)] - {name} == map[];
  }

  /** Which happens: a lock taken once the list is sorted is not looked at any more. */
  lemma LockAfterListingIsTooLate(name: string) returns (p: Policy, states: seq<State>, events: seq<Event>)
    ensures IsRun(p, states, events) && |events| == 6 && events[3] == Arrange && events[4] == EnvLock(name)
    ensures RemovesAt(states, events, 5, name) && name in states[5].locked && name !in states[6].dirs
  {
    hide Step;
    p := Policy({}, 0, 0, 1);
    var d := Dir(name, 0, 2, false);
    AloneListed(p, name, d);
    AloneRemoved(p, name, d);
    states := [Alone(name, {}, Listing([name], [])), Alone(name, {}, Probing(name, [], [])),
               Alone(name, {}, Measuring(name, [], [])), Alone(name, {}, Listing([], [d])),
               Alone(name, {}, Dropping([d])), Alone(name, {name}, Dropping([d])), State(map[], {name}, Dropping([]))];
    events := [Look, Probe, Measure, Arrange, EnvLock(name), Remove];
    forall i | 0 <= i < 6 ensures StepAt(p, states, events, i) {}
  }

  // ---- Whatever other processes do, as few of the measured as the limits demand are removed ----

  /** The list sorted at event `i` has lost its first `n`, and no fewer would do. */
  ghost predicate Dropped(p: Policy, sorted: seq<Dir>, kept: seq<Dir>, n: nat) {
    && n <= |sorted| && kept == sorted[n..]
    && StillTooMuch(sorted, n, p.maxKeep, Floor(p.minKeep, p.maxKeep), p.maxBytes)
  }

  lemma DroppedStep(p: Policy, sorted: seq<Dir>, kept: seq<Dir>, n: nat)
    requires Dropped(p, sorted, kept, n) && kept != [] && !Enough(p, kept)
    ensures Dropped(p, sorted, kept[1..], n + 1)
  {
    TooMuchStep(sorted, n, p.maxKeep, Floor(p.minKeep, p.maxKeep), p.maxBytes);
  }

  lemma NothingDropped(p: Policy, sorted: seq<Dir>)
    ensures Dropped(p, sorted, sorted, 0)
  {
  }

  lemma EnoughIsLeast(p: Policy, sorted: seq<Dir>, kept: seq<Dir>, n: nat)
    requires Dropped(p, sorted, kept, n) && Enough(p, kept)
    ensures LeastPrune(sorted, n, p.maxKeep, Floor(p.minKeep, p.maxKeep), p.maxBytes)
  {
    JustEnough(sorted, n, p.maxKeep, Floor(p.minKeep, p.maxKeep), p.maxBytes);
  }

  /** The first `n` of the sorted list are gone; each was one too many at its time, and a finished
      prune could not have removed fewer. */
  ghost predicate HasDropped(p: Policy, sorted: seq<Dir>, pc: Pc, n: nat) {
    match pc
    case Dropping(kept) => Dropped(p, sorted, kept, n)
    case Done(kept) => Dropped(p, sorted, kept, n) && LeastPrune(sorted, n, p.maxKeep, Floor(p.minKeep, p.maxKeep), p.maxBytes)
    case Failed => StillTooMuch(sorted, n, p.maxKeep, Floor(p.minKeep, p.maxKeep), p.maxBytes)
    case _ => false
  }

  lemma DroppedTooMuch(p: Policy, sorted: seq<Dir>, kept: seq<Dir>, n: nat)
    requires Dropped(p, sorted, kept, n)
    ensures StillTooMuch(sorted, n, p.maxKeep, Floor(p.minKeep, p.maxKeep), p.maxBytes)
    ensures n <= |sorted| && kept == sorted[n..]
  {
  }

  lemma HasDroppedStep(p: Policy, s: State, e: Event, t: State, sorted: seq<Dir>, n: nat)
    requires Step(p, s, e, t) && HasDropped(p, sorted, s.pc, n)
    ensures HasDropped(p, sorted, t.pc, if e == Remove then n + 1 else n)
    ensures e == Remove ==> s.pc.Dropping? && n < |sorted| && s.pc.kept != [] && s.pc.kept[0] == sorted[n]
  {
    hide Sort, Enough, Dropped, LeastPrune, StillTooMuch;
    if s.pc.Dropping? {
      DroppedTooMuch(p, sorted, s.pc.kept, n);
    }
    if e == Remove {
      DroppedStep(p, sorted, s.pc.kept, n);
    } else if e == Finish {
      EnoughIsLeast(p, sorted, s.pc.kept, n);
    }
  }

  /** The directories removed by the events from `i` up to `j`, in order. */
  function RemovedSince(states: seq<State>, events: seq<Event>, i: nat, j: nat): seq<Dir>
    requires j <= |events| < |states|
  {
    if j <= i then []
    else
      var pc := states[j - 1].pc;
      RemovedSince(states, events, i, j - 1)
      + (if events[j - 1] == Remove && pc.Dropping? && pc.kept != [] then [pc.kept[0]] else [])
  }

  /** After the listing, whoever else acts and even if the prune fails, what has been removed is a
      beginning of the sorted list, every removal was demanded by the limits, and a finished prune
      has removed the least the limits allow. */
  lemma {:induction false} DropsLeast(p: Policy, states: seq<State>, events: seq<Event>, i: nat, j: nat) returns (n: nat)
    requires IsRun(p, states, events) && i < j < |states| && events[i] == Arrange
    ensures |states| == |events| + 1 && states[i].pc.Listing?
    ensures var sorted := Sort(DirLe, states[i].pc.found);
            && n <= |sorted| && RemovedSince(states, events, i, j) == sorted[..n]
            && HasDropped(p, sorted, states[j].pc, n)
  {
    hide *;
    RunStarts(p, states, events);
    RunStep(p, states, events, i);
    ArrangeDrops(p, states[i], states[i + 1]);
    RemovedStep(states, events, i, j);
    var sorted := Sort(DirLe, states[i].pc.found);
    if j == i + 1 {
      n := 0;
      RemovedNothing(states, events, i);
    } else {
      var m := DropsLeast(p, states, events, i, j - 1);
      RunStep(p, states, events, j - 1);
      HasDroppedStep(p, states[j - 1], events[j - 1], states[j], sorted, m);
      n := if events[j - 1] == Remove then m + 1 else m;
      if events[j - 1] == Remove {
        assert sorted[..m + 1] == sorted[..m] + [sorted[m]];
      }
    }
  }

  /** So whatever has been removed is no younger than anything still kept, names breaking ties. */
  lemma RemovedAreOldest(p: Policy, states: seq<State>, events: seq<Event>, i: nat, j: nat, r: Dir, d: Dir)
    requires IsRun(p, states, events) && i < j < |states| && events[i] == Arrange && |states| == |events| + 1
    requires (states[j].pc.Dropping? || states[j].pc.Done?) && d in states[j].pc.kept && r in RemovedSince(states, events, i, j)
    ensures r.modified < d.modified || (r.modified == d.modified && StringLe(r.name, d.name))
  {
    hide IsRun, RemovedSince, Sort, StillTooMuch, LeastPrune, StringLe;
    var n := DropsLeast(p, states, events, i, j);
    DirLeIsPreorder();
    SortSorted(DirLe, states[i].pc.found);
    var sorted, kept := Sort(DirLe, states[i].pc.found), states[j].pc.kept;
    assert sorted[..n] + kept == sorted;
    RemovedOlder(sorted[..n], kept, r, d);
  }

  lemma RemovedNothing(states: seq<State>, events: seq<Event>, i: nat)
    requires i < |events| < |states|
    ensures RemovedSince(states, events, i, i) == []
  {
  }

  lemma RemovedStep(states: seq<State>, events: seq<Event>, i: nat, j: nat)
    requires i < j <= |events| < |states|
    ensures var pc := states[j - 1].pc;
            RemovedSince(states, events, i, j) == RemovedSince(states, events, i, j - 1)
            + (if events[j - 1] == Remove && pc.Dropping? && pc.kept != [] then [pc.kept[0]] else [])
  {
  }

  lemma NothingIsEnough(p: Policy)
    ensures Enough(p, [])
  {
  }

  /** Of the sorted list the next one is removed exactly when the limits still demand it and the
      prune, coming to act, does not fail. */
  lemma RemovedExactly(p: Policy, states: seq<State>, events: seq<Event>, i: nat, j: nat) returns (n: nat)
    requires IsRun(p, states, events) && i < j < |events| && events[i] == Arrange && states[j].pc.Dropping?
    ensures states[i].pc.Listing?
    ensures var sorted := Sort(DirLe, states[i].pc.found);
            && n <= |sorted| && RemovedSince(states, events, i, j) == sorted[..n]
            && (events[j] == Remove <==> !IsEnv(events[j]) && events[j] != Fail && !Enough(p, sorted[n..]))
            && (events[j] == Remove ==> n < |sorted| && RemovesAt(states, events, j, sorted[n].name))
  {
    hide Enough, Sort, DirLe, IsRun, RemovedSince, LeastPrune, StillTooMuch;
    RunStarts(p, states, events);
    n := DropsLeast(p, states, events, i, j);
    RunStep(p, states, events, j);
    NothingIsEnough(p);
  }

  lemma ArrangeDrops(p: Policy, s: State, t: State)
    requires Step(p, s, Arrange, t)
    ensures s.pc.Listing? && HasDropped(p, Sort(DirLe, s.pc.found), t.pc, 0)
  {
    hide Sort, Enough, StillTooMuch;
    NothingDropped(p, Sort(DirLe, s.pc.found));
  }

  lemma RunStep(p: Policy, states: seq<State>, events: seq<Event>, i: nat)
    requires IsRun(p, states, events) && i < |events|
    ensures |states| == |events| + 1 && Step(p, states[i], events[i], states[i + 1])
  {
    assert StepAt(p, states, events, i);
  }

  // ---- When nobody else acts it is `prune_dirs` on a listing ----

  /** The listing as it stands: every directory with its measures and whether it is in use. */
  function Snapshot(s: State, names: seq<string>): seq<Dir> {
    if names == [] then []
    else
      var last := names[|names| - 1];
      Snapshot(s, names[..|names| - 1]) + (if last in s.dirs then [Measured(s.dirs, last, last in s.locked)] else [])
  }

  /** The names looked at so far, and what is pending. */
  ghost predicate QuietListing(p: Policy, first: State, s: State, done: nat) {
    && first.pc.Listing? && done <= |first.pc.todo|
    && s.dirs == first.dirs && s.locked == first.locked
    && var all := first.pc.todo;
    match s.pc
    case Listing(todo, found) => todo == all[done..] && found == Eligible(Snapshot(first, all[..done]), p.exclude)
    case Probing(name, todo, found) => Pending(p, first, name, todo, found, done)
    case Measuring(name, todo, found) =>
      && Pending(p, first, name, todo, found, done) && name !in first.locked
    case _ => false
  }

  ghost predicate Pending(p: Policy, first: State, name: string, todo: seq<string>, found: seq<Dir>, done: nat)
    requires first.pc.Listing?
  {
    var all := first.pc.todo;
    && done < |all| && all[done] == name && todo == all[done + 1..]
    && name in first.dirs && name !in p.exclude
    && found == Eligible(Snapshot(first, all[..done]), p.exclude)
  }

  /** One more name adds its directory exactly when it exists, is not excluded and not in use. */
  lemma SnapshotStep(p: Policy, first: State, names: seq<string>, k: nat)
    requires k < |names|
    ensures var name := names[k];
            Eligible(Snapshot(first, names[..k + 1]), p.exclude) ==
            Eligible(Snapshot(first, names[..k]), p.exclude)
            + (if name in first.dirs && name !in p.exclude && name !in first.locked
               then [Measured(first.dirs, name, false)] else [])
  {
    var name, before := names[k], Snapshot(first, names[..k]);
    assert names[..k + 1][..k] == names[..k];
    if name in first.dirs {
      var d := Measured(first.dirs, name, name in first.locked);
      assert Snapshot(first, names[..k + 1]) == before + [d];
      assert (before + [d])[..|before|] == before;
    } else {
      assert Snapshot(first, names[..k + 1]) == before + [] == before;
    }
  }

  lemma QuietListingStep(p: Policy, first: State, s: State, e: Event, t: State, done: nat) returns (d: nat)
    requires QuietListing(p, first, s, done) && Step(p, s, e, t) && !IsEnv(e) && e != Fail && e != Arrange
    ensures QuietListing(p, first, t, d)
  {
    hide Snapshot, Eligible, Enough, Sort;
    var all := first.pc.todo;
    d := done;
    if done < |all| {
      SnapshotStep(p, first, all, done);
      assert all[done..][0] == all[done] && all[done..][1..] == all[done + 1..];
    }
    if t.pc.Listing? {
      d := done + 1;
    }
  }

  /** Removing the first `n` of the sorted list has taken exactly their names out of the directory. */
  ghost predicate QuietDropping(p: Policy, first: State, s: State, n: nat) {
    && first.pc.Listing?
    && var sorted := Sort(DirLe, Eligible(Snapshot(first, first.pc.todo), p.exclude));
    && !s.pc.Failed? && HasDropped(p, sorted, s.pc, n) && n <= |sorted|
    && s.dirs == first.dirs - NamesOf(sorted[..n])
  }

  function NamesOf(dirs: seq<Dir>): set<string> {
    set d | d in dirs :: d.name
  }

  lemma NamesPush(sorted: seq<Dir>, n: nat)
    requires n < |sorted|
    ensures NamesOf(sorted[..n + 1]) == NamesOf(sorted[..n]) + {sorted[n].name}
  {
    assert sorted[..n + 1] == sorted[..n] + [sorted[n]];
  }

  /** An own step takes at most the next of the sorted list out of the directory. */
  lemma OwnStepDirs(p: Policy, s: State, e: Event, t: State, sorted: seq<Dir>, n: nat)
    requires Step(p, s, e, t) && HasDropped(p, sorted, s.pc, n) && !IsEnv(e)
    ensures if e == Remove then n < |sorted| && t.dirs == s.dirs - {sorted[n].name} else t.dirs == s.dirs
    ensures t.pc.Failed? ==> e == Fail
  {
    HasDroppedStep(p, s, e, t, sorted, n);
    hide HasDropped, Enough, Sort;
  }

  lemma QuietDroppingStep(p: Policy, first: State, s: State, e: Event, t: State, n: nat)
    requires QuietDropping(p, first, s, n) && Step(p, s, e, t) && !IsEnv(e) && e != Fail
    ensures QuietDropping(p, first, t, if e == Remove then n + 1 else n)
  {
    hide Sort, Eligible, Snapshot, Step, HasDropped, NamesOf;
    var sorted := Sort(DirLe, Eligible(Snapshot(first, first.pc.todo), p.exclude));
    HasDroppedStep(p, s, e, t, sorted, n);
    OwnStepDirs(p, s, e, t, sorted, n);
    if e == Remove {
      NamesPush(sorted, n);
      assert t.dirs == first.dirs - NamesOf(sorted[..n]) - {sorted[n].name};
    }
  }

  /** Every state of a run in which nobody else acts and nothing fails. */
  ghost predicate Quiet(p: Policy, first: State, s: State) {
    (exists k :: QuietListing(p, first, s, k)) || exists n :: QuietDropping(p, first, s, n)
  }

  lemma QuietStep(p: Policy, first: State, s: State, e: Event, t: State)
    requires Quiet(p, first, s) && Step(p, s, e, t) && !IsEnv(e) && e != Fail
    ensures Quiet(p, first, t)
  {
    if n :| QuietDropping(p, first, s, n) {
      QuietDroppingStep(p, first, s, e, t, n);
    } else {
      var k :| QuietListing(p, first, s, k);
      if e == Arrange {
        QuietArranged(p, first, s, t, k);
      } else {
        var d := QuietListingStep(p, first, s, e, t, k);
      }
    }
  }

  lemma QuietArranged(p: Policy, first: State, s: State, t: State, k: nat)
    requires QuietListing(p, first, s, k) && Step(p, s, Arrange, t)
    ensures QuietDropping(p, first, t, 0)
  {
    hide Sort, Eligible, Snapshot, Enough;
    var all := first.pc.todo;
    assert all[..k] == all;
    NothingDropped(p, Sort(DirLe, s.pc.found));
    hide Dropped;
    var sorted := Sort(DirLe, s.pc.found);
    assert NamesOf(sorted[..0]) == {};
    assert first.dirs - {} == first.dirs;
  }

  lemma RunStarts(p: Policy, states: seq<State>, events: seq<Event>)
    requires IsRun(p, states, events)
    ensures |states| == |events| + 1 && states[0].pc.Listing? && states[0].pc.found == []
  {
  }

  lemma QuietStart(p: Policy, s: State)
    requires s.pc.Listing? && s.pc.found == []
    ensures Quiet(p, s, s)
  {
    var all := s.pc.todo;
    assert all[0..] == all && all[..0] == [];
    assert QuietListing(p, s, s, 0);
  }

  lemma {:induction false} QuietRun(p: Policy, states: seq<State>, events: seq<Event>, j: nat)
    requires IsRun(p, states, events) && j < |states|
    requires forall i :: 0 <= i < |events| ==> !IsEnv(events[i]) && events[i] != Fail
    ensures Quiet(p, states[0], states[j])
  {
    hide *;
    RunStarts(p, states, events);
    if j == 0 {
      QuietStart(p, states[0]);
    } else {
      QuietRun(p, states, events, j - 1);
      RunStep(p, states, events, j - 1);
      QuietStep(p, states[0], states[j - 1], events[j - 1], states[j]);
    }
  }

  lemma QuietDone(p: Policy, first: State, s: State) returns (removed: seq<Dir>)
    requires Quiet(p, first, s) && s.pc.Done?
    ensures first.pc.Listing? && removed + s.pc.kept == Sort(DirLe, Eligible(Snapshot(first, first.pc.todo), p.exclude))
    ensures LeastPrune(removed + s.pc.kept, |removed|, p.maxKeep, Floor(p.minKeep, p.maxKeep), p.maxBytes)
    ensures s.dirs == first.dirs - NamesOf(removed)
  {
    hide Sort, Eligible, Snapshot, LeastPrune, StillTooMuch, NamesOf;
    var n: nat :| QuietDropping(p, first, s, n);
    var sorted := Sort(DirLe, Eligible(Snapshot(first, first.pc.todo), p.exclude));
    removed := sorted[..n];
    assert removed + sorted[n..] == sorted;
  }

  /** When nobody else acts and nothing fails, a finished prune has removed exactly what `PruneDirs`
      removes from the listing, and nothing else is gone. */
  lemma QuietPruneIsPruneDirs(p: Policy, states: seq<State>, events: seq<Event>, j: nat) returns (removed: seq<Dir>)
    requires IsRun(p, states, events) && j < |states| && states[j].pc.Done?
    requires forall i :: 0 <= i < |events| ==> !IsEnv(events[i]) && events[i] != Fail
    ensures removed + states[j].pc.kept == Sort(DirLe, Eligible(Snapshot(states[0], states[0].pc.todo), p.exclude))
    ensures LeastPrune(removed + states[j].pc.kept, |removed|, p.maxKeep, Floor(p.minKeep, p.maxKeep), p.maxBytes)
    ensures states[j].dirs == states[0].dirs - NamesOf(removed)
  {
    hide *;
    RunStarts(p, states, events);
    QuietRun(p, states, events, j);
    removed := QuietDone(p, states[0], states[j]);
  }

  // ---- Nobody is ever stuck ----

  /** Other processes can lock, release, create and delete at any moment. */
  lemma OthersCanAct(p: Policy, s: State, name: string, stamp: Stamp)
    ensures name in s.dirs ==> Step(p, s, EnvLock(name), s.(locked := s.locked + {name}))
    ensures Step(p, s, EnvUnlock(name), s.(locked := s.locked - {name}))
    ensures Step(p, s, EnvCreate(name, stamp), s.(dirs := s.dirs[name := stamp]))
    ensures Step(p, s, EnvDelete(name), s.(dirs := s.dirs - {name}))
  {
    hide Enough, Sort;
  }

  /** A prune that has not ended can always act and can always fail; without failing it can only be
      kept from measuring or removing what somebody else has deleted. */
  lemma PruneCanAct(p: Policy, s: State) returns (e: Event, t: State)
    requires !s.pc.Done? && !s.pc.Failed?
    ensures Step(p, s, e, t) && !IsEnv(e) && t.pc != s.pc
    ensures e == Fail ==>
      || (s.pc.Measuring? && s.pc.name !in s.dirs)
      || (s.pc.Dropping? && s.pc.kept != [] && s.pc.kept[0].name !in s.dirs)
    ensures Step(p, s, Fail, s.(pc := Failed))
  {
    hide Enough, Sort;
    NothingIsEnough(p);
    match s.pc
    case Listing(todo, found) =>
      if todo == [] {
        e, t := Arrange, s.(pc := Dropping(Sort(DirLe, found)));
      } else {
        e := Look;
        t := s.(pc := if todo[0] !in s.dirs || todo[0] in p.exclude then Listing(todo[1..], found)
                      else Probing(todo[0], todo[1..], found));
        assert |todo[1..]| < |todo|;
      }
    case Probing(name, todo, found) =>
      e := Probe;
      t := s.(pc := if name in s.locked then Listing(todo, found) else Measuring(name, todo, found));
    case Measuring(name, todo, found) =>
      if name in s.dirs {
        e, t := Measure, s.(pc := Listing(todo, found + [Measured(s.dirs, name, false)]));
      } else {
        e, t := Fail, s.(pc := Failed);
      }
    case Dropping(kept) =>
      if Enough(p, kept) {
        e, t := Finish, s.(pc := Done(kept));
      } else if kept[0].name in s.dirs {
        e, t := Remove, s.(dirs := s.dirs - {kept[0].name}, pc := Dropping(kept[1..]));
        assert |kept[1..]| < |kept|;
      } else {
        e, t := Fail, s.(pc := Failed);
      }
  }
}
