/** What happens to the storage directories, one action at a time: the steps of a prune, and those of
    other processes. */
module StorageEvents {

  /** When a directory was last modified, and how many bytes it holds. */
  datatype Stamp = Stamp(modified: nat, size: nat)

  datatype Event =
    | Look
    | Probe
    | Measure
    | Arrange
    | Remove
    | Finish
    | Fail
    | EnvLock(name: string)
    | EnvUnlock(name: string)
    | EnvCreate(name: string, stamp: Stamp)
    | EnvDelete(name: string)

  predicate IsEnv(e: Event) {
    e.EnvLock? || e.EnvUnlock? || e.EnvCreate? || e.EnvDelete?
  }

  /** Some process has taken the lock since event `i` and nobody has released it. */
  ghost predicate LockedSince(events: seq<Event>, i: nat, j: nat, name: string) {
    exists k :: i < k < j && TakenAndKept(events, k, j, name)
  }

  ghost predicate TakenAndKept(events: seq<Event>, k: nat, j: nat, name: string) {
    k < j <= |events| && events[k] == EnvLock(name) && forall n :: k < n < j ==> events[n] != EnvUnlock(name)
  }

  lemma NotLockedYet(events: seq<Event>, i: nat, name: string)
    ensures !LockedSince(events, i, i + 1, name)
  {
  }

  lemma LockedSinceStep(events: seq<Event>, i: nat, j: nat, name: string)
    requires i < j < |events|
    ensures LockedSince(events, i, j + 1, name) <==>
      events[j] == EnvLock(name) || (LockedSince(events, i, j, name) && events[j] != EnvUnlock(name))
  {
    var next := j + 1;
    if LockedSince(events, i, next, name) {
      var k :| i < k < next && TakenAndKept(events, k, next, name);
      assert k < j ==> TakenAndKept(events, k, j, name);
    }
    if events[j] == EnvLock(name) {
      assert TakenAndKept(events, j, next, name);
    }
    if LockedSince(events, i, j, name) && events[j] != EnvUnlock(name) {
      var k :| i < k < j && TakenAndKept(events, k, j, name);
      assert TakenAndKept(events, k, next, name);
    }
  }
}
