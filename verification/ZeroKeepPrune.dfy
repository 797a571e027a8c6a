/** The zero-keep prune of storage instances, while other processes take and release in-use locks and
    create or delete directories between its steps. */
module ZeroKeepPrune {
  import opened StorageEvents

  /** Where the pruner is: about to look at the next listed name, about to probe the lock of a
      directory it found, about to remove a directory whose probe succeeded, or finished. */
  datatype Pc = Scanning(todo: seq<string>) | Probing(name: string, todo: seq<string>) | Removing(name: string, todo: seq<string>) | Done | Failed

  datatype State = State(dirs: set<string>, locked: set<string>, pc: Pc)

  /** One step of `prune_all_stale_instances` or of some other process. The listing is taken
      once; the checks of a name and its removal are separate steps. */
  ghost predicate Step(exclude: set<string>, s: State, e: Event, t: State) {
    match e
    case Look =>
      && s.pc.Scanning? && s.pc.todo != []
      && t == s.(pc :=
           var name, rest := s.pc.todo[0], s.pc.todo[1..];
           if name !in s.dirs || name in exclude then Scanning(rest) else Probing(name, rest))
    case Probe =>
      && s.pc.Probing?
      && t == s.(pc := if s.pc.name in s.locked then Scanning(s.pc.todo) else Removing(s.pc.name, s.pc.todo))
    case Remove =>
      && s.pc.Removing? && s.pc.name in s.dirs
      && t == s.(dirs := s.dirs - {s.pc.name}, pc := Scanning(s.pc.todo))
    case Finish =>
      && s.pc.Scanning? && s.pc.todo == []
      && t == s.(pc := Done)
    case Fail =>
      && (s.pc.Scanning? || s.pc.Removing?)
      && t == s.(pc := Failed)
    case EnvLock(name) => name in s.dirs && t == s.(locked := s.locked + {name})
    case EnvUnlock(name) => t == s.(locked := s.locked - {name})
    case EnvCreate(name, _) => t == s.(dirs := s.dirs + {name})
    case EnvDelete(name) => t == s.(dirs := s.dirs - {name})
    case _ => false
  }

  ghost predicate IsRun(exclude: set<string>, states: seq<State>, events: seq<Event>) {
    && |states| == |events| + 1
    && states[0].pc.Scanning?
    && forall i :: 0 <= i < |events| ==> StepAt(exclude, states, events, i)
  }

  ghost predicate StepAt(exclude: set<string>, states: seq<State>, events: seq<Event>, i: nat)
    requires i < |events| < |states|
  {
    Step(exclude, states[i], events[i], states[i + 1])
  }

  /** The pruner removes `name` at event `i`. */
  ghost predicate RemovesAt(states: seq<State>, events: seq<Event>, i: nat, name: string) {
    i < |events| < |states| && events[i] == Remove && states[i].pc.Removing? && states[i].pc.name == name
  }

  /** The probe at event `i` finds `name` unlocked. */
  ghost predicate FoundFreeAt(states: seq<State>, events: seq<Event>, i: nat, name: string) {
    i < |events| < |states| && events[i] == Probe && states[i].pc.Probing? && states[i].pc.name == name && name !in states[i].locked
  }

  /** Between `i` and `j` only other processes act. */
  ghost predicate OnlyOthers(events: seq<Event>, i: nat, j: nat) {
    j <= |events| && forall k :: i < k < j ==> IsEnv(events[k])
  }

  /** The probe at event `i` finds `name` unlocked, and the pruner has not moved since. */
  ghost predicate FreeSince(states: seq<State>, events: seq<Event>, i: nat, j: nat, name: string) {
    i < j && FoundFreeAt(states, events, i, name) && OnlyOthers(events, i, j)
  }

  lemma {:induction false} PendingWasFree(exclude: set<string>, states: seq<State>, events: seq<Event>, j: nat)
    requires IsRun(exclude, states, events) && j < |states|
    ensures states[j].pc.Probing? ==> states[j].pc.name !in exclude
    ensures states[j].pc.Removing? ==>
      states[j].pc.name !in exclude && exists i :: FreeSince(states, events, i, j, states[j].pc.name)
  {
    if j > 0 {
      PendingWasFree(exclude, states, events, j - 1);
      assert StepAt(exclude, states, events, j - 1);
      if states[j].pc.Removing? {
        var name := states[j].pc.name;
        if events[j - 1] == Probe {
          assert FreeSince(states, events, j - 1, j, name);
        } else {
          var i :| FreeSince(states, events, i, j - 1, name);
          assert FreeSince(states, events, i, j, name);
        }
      }
    }
  }

  /** Whatever other processes do, the pruner removes only directories that are not excluded and
      whose lock it found free in its step just before. */
  lemma RemovedWasFree(exclude: set<string>, states: seq<State>, events: seq<Event>, j: nat, name: string)
    requires IsRun(exclude, states, events) && RemovesAt(states, events, j, name)
    ensures name !in exclude && exists i :: FreeSince(states, events, i, j, name)
  {
    PendingWasFree(exclude, states, events, j);
  }

  lemma {:induction false} FreeStaysPending(exclude: set<string>, states: seq<State>, events: seq<Event>, i: nat, j: nat, name: string)
    requires IsRun(exclude, states, events) && FreeSince(states, events, i, j, name)
    ensures states[j].pc.Removing? && states[j].pc.name == name
  {
    assert StepAt(exclude, states, events, j - 1);
    if j > i + 1 {
      FreeStaysPending(exclude, states, events, i, j - 1, name);
    }
  }

  /** And after a free probe the pruner's next own step removes that directory unless it fails: a
      directory is removed exactly when its probe found it free and the removal does not fail. */
  lemma RemovedExactly(exclude: set<string>, states: seq<State>, events: seq<Event>, j: nat, name: string)
    requires IsRun(exclude, states, events) && j < |events|
    ensures RemovesAt(states, events, j, name) <==>
      !IsEnv(events[j]) && events[j] != Fail && exists i :: FreeSince(states, events, i, j, name)
  {
    if RemovesAt(states, events, j, name) {
      RemovedWasFree(exclude, states, events, j, name);
    }
    if i :| FreeSince(states, events, i, j, name) && !IsEnv(events[j]) && events[j] != Fail {
      FreeStaysPending(exclude, states, events, i, j, name);
      assert StepAt(exclude, states, events, j);
    }
  }

  /** A directory found free is in use later exactly when its lock was taken after the probe and
      not released: that is when a removal hits a directory in use, and locks taken before the
      probe play no part. */
  lemma {:induction false} InUseExactly(exclude: set<string>, states: seq<State>, events: seq<Event>, i: nat, j: nat, name: string)
    requires IsRun(exclude, states, events) && FoundFreeAt(states, events, i, name) && i < j < |states|
    ensures name in states[j].locked <==> LockedSince(events, i, j, name)
  {
    assert StepAt(exclude, states, events, j - 1);
    if j > i + 1 {
      InUseExactly(exclude, states, events, i, j - 1, name);
      LockedSinceStep(events, i, j - 1, name);
    }
  }

  /** So a directory in use is removed exactly when the pruner, not failing, comes to remove what it
      found free and the lock was taken since. */
  lemma RemovedInUseExactly(exclude: set<string>, states: seq<State>, events: seq<Event>, j: nat, name: string)
    requires IsRun(exclude, states, events) && j < |events|
    ensures RemovesAt(states, events, j, name) && name in states[j].locked <==>
      && !IsEnv(events[j]) && events[j] != Fail
      && exists i :: FreeSince(states, events, i, j, name) && LockedSince(events, i, j, name)
  {
    hide RemovesAt, LockedSince;
    RemovedExactly(exclude, states, events, j, name);
    forall i | FreeSince(states, events, i, j, name) ensures name in states[j].locked <==> LockedSince(events, i, j, name) {
      InUseExactly(exclude, states, events, i, j, name);
    }
  }

  /** So a directory that is excluded, or whose lock is held throughout the call, survives as
      long as nobody else deletes it. */
  lemma {:induction false} ProtectedSurvives(exclude: set<string>, states: seq<State>, events: seq<Event>, j: nat, name: string)
    requires IsRun(exclude, states, events) && j < |states|
    requires name in states[0].dirs
    requires name in exclude || forall i :: 0 <= i < |states| ==> name in states[i].locked
    requires forall i :: 0 <= i < |events| ==> events[i] != EnvDelete(name)
    ensures name in states[j].dirs
  {
    if j > 0 {
      ProtectedSurvives(exclude, states, events, j - 1, name);
      assert StepAt(exclude, states, events, j - 1);
      if events[j - 1] == Remove && states[j - 1].pc.name == name {
        RemovedWasFree(exclude, states, events, j - 1, name);
      }
    }
  }

  /** A lock taken after the probe does not protect: there is a run that removes a directory
      while it is in use. */
  lemma LockAfterProbeIsTooLate(name: string) returns (states: seq<State>, events: seq<Event>)
    ensures IsRun({}, states, events) && |events| == 4
    ensures RemovesAt(states, events, 3, name) && name in states[3].locked
    ensures name in states[0].dirs && name !in states[4].dirs
  {
    var s0 := State({name}, {}, Scanning([name]));
    var s1 := s0.(pc := Probing(name, []));
    var s2 := s0.(pc := Removing(name, []));
    var s3 := s2.(locked := {name});
    var s4 := State({}, {name}, Scanning([]));
    states, events := [s0, s1, s2, s3, s4], [Look, Probe, EnvLock(name), Remove];
    assert s0.pc.todo[1..] == [];
    assert StepAt({}, states, events, 0);
    assert StepAt({}, states, events, 1);
    assert s2.locked + {name} == {name};
    assert StepAt({}, states, events, 2);
    assert s3.dirs - {name} == {};
    assert StepAt({}, states, events, 3);
  }

  /** The names still ahead of the pruner. */
  function Ahead(pc: Pc): seq<string> {
    match pc
    case Scanning(todo) => todo
    case Probing(name, todo) => [name] + todo
    case Removing(name, todo) => [name] + todo
    case _ => []
  }

  ghost predicate Quiet(exclude: set<string>, first: State, s: State) {
    && s.locked == first.locked
    && s.dirs <= first.dirs
    && (forall n :: n in first.dirs && (n in exclude || n in first.locked) ==> n in s.dirs)
    && (forall n :: n in s.dirs && n !in exclude && n !in first.locked ==> n in Ahead(s.pc))
    && (s.pc.Removing? || s.pc.Probing? ==> s.pc.name !in exclude)
    && (s.pc.Removing? ==> s.pc.name !in first.locked)
  }

  lemma QuietStep(exclude: set<string>, first: State, s: State, e: Event, t: State)
    requires Quiet(exclude, first, s) && Step(exclude, s, e, t) && !IsEnv(e) && e != Fail
    ensures Quiet(exclude, first, t)
  {
    if e == Look {
      assert s.pc.todo == [s.pc.todo[0]] + s.pc.todo[1..];
    }
  }

  /** If nothing else changes and no removal fails, the survivors of a finished prune are
      exactly the excluded and in-use directories. */
  lemma {:induction false} QuietPruneExact(exclude: set<string>, states: seq<State>, events: seq<Event>, j: nat)
    requires IsRun(exclude, states, events) && j < |states|
    requires forall n :: n in states[0].dirs ==> n in states[0].pc.todo
    requires forall i :: 0 <= i < |events| ==> !IsEnv(events[i]) && events[i] != Fail
    ensures Quiet(exclude, states[0], states[j])
    ensures states[j].pc.Done? ==>
      states[j].dirs == set n | n in states[0].dirs && (n in exclude || n in states[0].locked)
  {
    hide Step;
    if j > 0 {
      QuietPruneExact(exclude, states, events, j - 1);
      assert StepAt(exclude, states, events, j - 1);
      QuietStep(exclude, states[0], states[j - 1], events[j - 1], states[j]);
    }
  }

  // ---- Nobody is ever stuck ----

  /** Other processes can lock, release, create and delete at any moment. */
  lemma OthersCanAct(exclude: set<string>, s: State, name: string, stamp: Stamp)
    ensures name in s.dirs ==> Step(exclude, s, EnvLock(name), s.(locked := s.locked + {name}))
    ensures Step(exclude, s, EnvUnlock(name), s.(locked := s.locked - {name}))
    ensures Step(exclude, s, EnvCreate(name, stamp), s.(dirs := s.dirs + {name}))
    ensures Step(exclude, s, EnvDelete(name), s.(dirs := s.dirs - {name}))
  {
  }

  /** A pruner that has not ended can always act, and it can fail whenever it reads the listing or
      removes; without failing it can only be kept from removing what somebody else has deleted. */
  lemma PrunerCanAct(exclude: set<string>, s: State) returns (e: Event, t: State)
    requires !s.pc.Done? && !s.pc.Failed?
    ensures Step(exclude, s, e, t) && !IsEnv(e) && t.pc != s.pc
    ensures e == Fail ==> s.pc.Removing? && s.pc.name !in s.dirs
    ensures s.pc.Scanning? || s.pc.Removing? ==> Step(exclude, s, Fail, s.(pc := Failed))
  {
    match s.pc
    case Scanning(todo) =>
      if todo == [] {
        e, t := Finish, s.(pc := Done);
      } else {
        e := Look;
        t := s.(pc := if todo[0] !in s.dirs || todo[0] in exclude then Scanning(todo[1..]) else Probing(todo[0], todo[1..]));
        assert |todo[1..]| < |todo|;
      }
    case Probing(name, todo) =>
      e := Probe;
      t := s.(pc := if name in s.locked then Scanning(todo) else Removing(name, todo));
    case Removing(name, todo) =>
      if name in s.dirs {
        e, t := Remove, s.(dirs := s.dirs - {name}, pc := Scanning(todo));
      } else {
        e, t := Fail, s.(pc := Failed);
      }
  }
}
