/** Cache files written by renaming a complete temporary file into place, while any number
    of other processes save, load, crash or clean up the same directory. Directory entries
    refer to inodes, so a reader that has opened a file keeps reading the same file however
    often its name is replaced. */
module AtomicCache {
  import opened Octets
  import opened TempNames

  /** How the reading part of a load ended. */
  datatype Outcome = Missing | TooLarge(actual: nat) | Whole(bytes: Bytes)

  /** A process in the middle of `write_bytes_atomic` or of `load_rkyv_file_limited`. */
  datatype Proc =
    | Naming(target: string, tmp: string, payload: Bytes)
    | Writing(target: string, tmp: string, payload: Bytes, ino: nat)
    | Checking(target: string, limit: nat)
    | Opening(target: string, limit: nat)
    | Reading(target: string, limit: nat, ino: nat, buf: Bytes)
    | Loaded(target: string, limit: nat, outcome: Outcome)

  /** The directory, the file contents, the live processes, the temporary names handed out
      so far and the saves begun so far. */
  datatype State = State(
    names: map<string, nat>,
    data: map<nat, Bytes>,
    procs: map<nat, Proc>,
    taken: set<string>,
    saves: set<(string, Bytes)>)

  datatype Event =
    | BeginSave(p: nat, target: string, payload: Bytes, suffix: string)
    | Create(p: nat, ino: nat)
    | Write(p: nat, count: nat)
    | Rename(p: nat)
    | BeginLoad(p: nat, target: string, limit: nat)
    | Stat(p: nat)
    | Open(p: nat)
    | Read(p: nat, count: nat)
    | Finish(p: nat)
    | Stop(p: nat)
    | Remove(name: string)

  /** One atomic action. `Stop` is a crash, an input/output error, or a caller dropping a
      finished load; `Remove` is another process deleting a directory entry. */
  ghost predicate Step(s: State, e: Event, t: State) {
    match e
    case BeginSave(p, target, payload, suffix) =>
      var tmp := TempName(target, suffix);
      && p !in s.procs && !IsTempLike(target) && tmp !in s.taken
      && t == s.(procs := s.procs[p := Naming(target, tmp, payload)],
                 taken := s.taken + {tmp},
                 saves := s.saves + {(target, payload)})
    case Create(p, ino) =>
      && p in s.procs && s.procs[p].Naming?
      && var Naming(target, tmp, payload) := s.procs[p];
      && (if tmp in s.names then s.names[tmp] == ino else ino !in s.data)
      && t == s.(names := s.names[tmp := ino],
                 data := s.data[ino := []],
                 procs := s.procs[p := Writing(target, tmp, payload, ino)])
    case Write(p, count) =>
      && p in s.procs && s.procs[p].Writing?
      && var Writing(target, tmp, payload, ino) := s.procs[p];
      && ino in s.data && count > 0 && |s.data[ino]| + count <= |payload|
      && t == s.(data := s.data[ino := s.data[ino] + payload[|s.data[ino]|..|s.data[ino]| + count]])
    case Rename(p) =>
      && p in s.procs && s.procs[p].Writing?
      && var Writing(target, tmp, payload, ino) := s.procs[p];
      && ino in s.data && |s.data[ino]| == |payload| && tmp in s.names
      && t == s.(names := (s.names - {tmp})[target := s.names[tmp]], procs := s.procs - {p})
    case BeginLoad(p, target, limit) =>
      && p !in s.procs && !IsTempLike(target)
      && t == s.(procs := s.procs[p := if limit > 0 then Checking(target, limit) else Opening(target, limit)])
    case Stat(p) =>
      && p in s.procs && s.procs[p].Checking?
      && var Checking(target, limit) := s.procs[p];
      && (target in s.names ==> s.names[target] in s.data)
      && t == s.(procs := s.procs[p :=
           if target !in s.names then Loaded(target, limit, Missing)
           else if |s.data[s.names[target]]| > limit then Loaded(target, limit, TooLarge(|s.data[s.names[target]]|))
           else Opening(target, limit)])
    case Open(p) =>
      && p in s.procs && s.procs[p].Opening?
      && var Opening(target, limit) := s.procs[p];
      && t == s.(procs := s.procs[p :=
           if target in s.names then Reading(target, limit, s.names[target], [])
           else Loaded(target, limit, Missing)])
    case Read(p, count) =>
      && p in s.procs && s.procs[p].Reading?
      && var Reading(target, limit, ino, buf) := s.procs[p];
      && ino in s.data && count > 0 && |buf| + count <= |s.data[ino]|
      && t == s.(procs := s.procs[p := Reading(target, limit, ino, buf + s.data[ino][|buf|..|buf| + count])])
    case Finish(p) =>
      && p in s.procs && s.procs[p].Reading?
      && var Reading(target, limit, ino, buf) := s.procs[p];
      && ino in s.data && |buf| >= |s.data[ino]|
      && t == s.(procs := s.procs[p := Loaded(target, limit,
           if limit > 0 && |buf| > limit then TooLarge(|buf|) else Whole(buf))])
    case Stop(p) =>
      && p in s.procs
      && t == s.(procs := s.procs - {p})
    case Remove(name) =>
      && name in s.names
      && t == s.(names := s.names - {name})
  }

  /** Any directory at all, as long as the names in it count as handed out. */
  ghost predicate Init(s: State) {
    && (forall n :: n in s.names ==> s.names[n] in s.data && n in s.taken)
    && s.procs == map[] && s.saves == {}
  }

  // ---- What every step keeps ----

  /** `b` is a complete version of the target: its initial content or one whole save. */
  ghost predicate WholeFor(init: State, saves: set<(string, Bytes)>, target: string, b: Bytes) {
    || (target, b) in saves
    || (target in init.names && init.names[target] in init.data && init.data[init.names[target]] == b)
  }

  predicate IsSaver(r: Proc) {
    r.Naming? || r.Writing?
  }

  ghost predicate NamesOk(init: State, s: State) {
    forall n :: n in s.names ==>
      && s.names[n] in s.data
      && (IsTempLike(n) ==> n in s.taken)
      && (!IsTempLike(n) ==> WholeFor(init, s.saves, n, s.data[s.names[n]]))
  }

  ghost predicate ProcOk(init: State, s: State, r: Proc) {
    && !IsTempLike(r.target)
    && (IsSaver(r) ==> IsTempLike(r.tmp) && r.tmp in s.taken && (r.target, r.payload) in s.saves)
    && match r
       case Naming(_, tmp, _) => tmp !in s.names
       case Writing(_, tmp, payload, ino) =>
         && ino in s.data && s.data[ino] <= payload
         && (tmp in s.names ==> s.names[tmp] == ino)
         && (forall n :: n in s.names && s.names[n] == ino ==> n == tmp)
       case Reading(target, _, ino, buf) =>
         ino in s.data && buf <= s.data[ino] && WholeFor(init, s.saves, target, s.data[ino])
       case Loaded(target, limit, Whole(b)) =>
         WholeFor(init, s.saves, target, b) && (limit > 0 ==> |b| <= limit)
       case _ => true
  }

  /** No two savers share a temporary name, and nobody else touches a file being written. */
  ghost predicate Apart(r1: Proc, r2: Proc) {
    && (IsSaver(r1) && IsSaver(r2) ==> r1.tmp != r2.tmp)
    && (r1.Writing? && (r2.Writing? || r2.Reading?) ==> r1.ino != r2.ino)
  }

  ghost predicate Inv(init: State, s: State) {
    && NamesOk(init, s)
    && (forall p :: p in s.procs ==> ProcOk(init, s, s.procs[p]))
    && (forall p, q :: p in s.procs && q in s.procs && p != q ==> Apart(s.procs[p], s.procs[q]))
  }

  lemma InitInv(s: State)
    requires Init(s)
    ensures Inv(s, s)
  {
  }

  /** A step of one process that leaves the directory alone. */
  lemma ProcStep(init: State, s: State, p: nat, r: Proc, t: State)
    requires Inv(init, s)
    requires t.names == s.names && t.data == s.data && s.taken <= t.taken && s.saves <= t.saves
    requires t.procs == s.procs[p := r]
    requires ProcOk(init, t, r)
    requires forall q :: q in s.procs && q != p ==> Apart(r, s.procs[q]) && Apart(s.procs[q], r)
    ensures Inv(init, t)
  {
    forall q | q in t.procs ensures ProcOk(init, t, t.procs[q]) {
      if q != p {
        assert ProcOk(init, s, s.procs[q]);
      }
    }
  }

  lemma BeginSaveInv(init: State, s: State, e: Event, t: State)
    requires Inv(init, s) && e.BeginSave? && Step(s, e, t)
    ensures Inv(init, t)
  {
    TempNameIsTempLike(e.target, e.suffix);
    var tmp := TempName(e.target, e.suffix);
    forall q | q in s.procs ensures IsSaver(s.procs[q]) ==> s.procs[q].tmp != tmp {
      assert ProcOk(init, s, s.procs[q]);
    }
    ProcStep(init, s, e.p, Naming(e.target, tmp, e.payload), t);
  }

  lemma LoadInv(init: State, s: State, e: Event, t: State)
    requires Inv(init, s) && (e.BeginLoad? || e.Stat? || e.Open?) && Step(s, e, t)
    ensures Inv(init, t)
  {
    var r := t.procs[e.p];
    if e.p in s.procs {
      assert ProcOk(init, s, s.procs[e.p]);
    }
    forall q | q in s.procs && q != e.p ensures Apart(r, s.procs[q]) && Apart(s.procs[q], r) {
      assert ProcOk(init, s, s.procs[q]);
    }
    ProcStep(init, s, e.p, r, t);
  }

  lemma ReadInv(init: State, s: State, e: Event, t: State)
    requires Inv(init, s) && (e.Read? || e.Finish?) && Step(s, e, t)
    ensures Inv(init, t)
  {
    var r := t.procs[e.p];
    assert ProcOk(init, s, s.procs[e.p]);
    assert e.Finish? ==> s.procs[e.p].buf == s.data[s.procs[e.p].ino];
    forall q | q in s.procs && q != e.p ensures Apart(r, s.procs[q]) && Apart(s.procs[q], r) {
      assert Apart(s.procs[q], s.procs[e.p]);
    }
    ProcStep(init, s, e.p, r, t);
  }

  lemma CreateInv(init: State, s: State, e: Event, t: State)
    requires Inv(init, s) && e.Create? && Step(s, e, t)
    ensures Inv(init, t)
  {
    assert ProcOk(init, s, s.procs[e.p]);
    forall q | q in t.procs ensures ProcOk(init, t, t.procs[q]) {
      assert ProcOk(init, s, s.procs[q]);
      if q != e.p {
        assert Apart(s.procs[q], s.procs[e.p]);
      }
    }
    forall q | q in t.procs && q != e.p ensures Apart(t.procs[e.p], t.procs[q]) && Apart(t.procs[q], t.procs[e.p]) {
      assert ProcOk(init, s, s.procs[q]);
      assert Apart(s.procs[q], s.procs[e.p]);
    }
  }

  lemma WriteInv(init: State, s: State, e: Event, t: State)
    requires Inv(init, s) && e.Write? && Step(s, e, t)
    ensures Inv(init, t)
  {
    var r := s.procs[e.p];
    assert ProcOk(init, s, r);
    assert t.data[r.ino] == r.payload[..|s.data[r.ino]| + e.count];
    forall q | q in t.procs ensures ProcOk(init, t, t.procs[q]) {
      assert ProcOk(init, s, s.procs[q]);
      if q != e.p {
        assert Apart(r, s.procs[q]);
      }
    }
  }

  lemma RenameInv(init: State, s: State, e: Event, t: State)
    requires Inv(init, s) && e.Rename? && Step(s, e, t)
    ensures Inv(init, t)
  {
    var r := s.procs[e.p];
    assert ProcOk(init, s, r);
    assert s.data[r.ino] == r.payload;
    forall q | q in t.procs ensures ProcOk(init, t, t.procs[q]) {
      assert ProcOk(init, s, s.procs[q]);
      assert Apart(r, s.procs[q]);
    }
  }

  lemma RemoveInv(init: State, s: State, e: Event, t: State)
    requires Inv(init, s) && (e.Remove? || e.Stop?) && Step(s, e, t)
    ensures Inv(init, t)
  {
    forall q | q in t.procs ensures ProcOk(init, t, t.procs[q]) {
      assert ProcOk(init, s, s.procs[q]);
    }
  }

  lemma StepInv(init: State, s: State, e: Event, t: State)
    requires Inv(init, s) && Step(s, e, t)
    ensures Inv(init, t)
  {
    hide Inv, Step;
    match e
    case BeginSave(_, _, _, _) => BeginSaveInv(init, s, e, t);
    case Create(_, _) => CreateInv(init, s, e, t);
    case Write(_, _) => WriteInv(init, s, e, t);
    case Rename(_) => RenameInv(init, s, e, t);
    case Remove(_) => RemoveInv(init, s, e, t);
    case Stop(_) => RemoveInv(init, s, e, t);
    case Read(_, _) => ReadInv(init, s, e, t);
    case Finish(_) => ReadInv(init, s, e, t);
    case _ => LoadInv(init, s, e, t);
  }

  // ---- Whole runs ----

  /** Any number of saves and loads, interleaved in any way. */
  ghost predicate IsRun(states: seq<State>, events: seq<Event>) {
    && |states| == |events| + 1
    && Init(states[0])
    && forall i :: 0 <= i < |events| ==> StepAt(states, events, i)
  }

  ghost predicate StepAt(states: seq<State>, events: seq<Event>, i: nat)
    requires i < |events| < |states|
  {
    Step(states[i], events[i], states[i + 1])
  }

  lemma {:induction false} RunInv(states: seq<State>, events: seq<Event>, i: nat)
    requires IsRun(states, events) && i < |states|
    ensures Inv(states[0], states[i])
  {
    hide Inv, Step;
    if i == 0 {
      InitInv(states[0]);
    } else {
      RunInv(states, events, i - 1);
      assert StepAt(states, events, i - 1);
      StepInv(states[0], states[i - 1], events[i - 1], states[i]);
    }
  }

  /** In every interleaving, a cache file is at every moment absent, its initial content, or
      the complete payload of one save to that file. */
  lemma TargetAlwaysWhole(states: seq<State>, events: seq<Event>, i: nat, target: string)
    requires IsRun(states, events) && i < |states|
    requires target in states[i].names && !IsTempLike(target)
    ensures states[i].names[target] in states[i].data
    ensures WholeFor(states[0], states[i].saves, target, states[i].data[states[i].names[target]])
  {
    hide Step;
    RunInv(states, events, i);
  }

  /** A load hands out only a complete version, and never more bytes than its limit, even
      when a rename falls between the size check and the read. */
  lemma LoadIsWholeAndLimited(states: seq<State>, events: seq<Event>, i: nat, p: nat)
    requires IsRun(states, events) && i < |states|
    requires p in states[i].procs && states[i].procs[p].Loaded? && states[i].procs[p].outcome.Whole?
    ensures var r := states[i].procs[p];
            && WholeFor(states[0], states[i].saves, r.target, r.outcome.bytes)
            && (r.limit > 0 ==> |r.outcome.bytes| <= r.limit)
  {
    hide Step;
    RunInv(states, events, i);
    assert ProcOk(states[0], states[i], states[i].procs[p]);
  }

  // ---- A load is a snapshot ----

  /** `p` has opened the file `ino` and is reading it, or has finished with all of `b`. */
  ghost predicate Snapshot(s: State, p: nat, ino: nat, b: Bytes) {
    && p in s.procs
    && match s.procs[p]
       case Reading(_, _, i, buf) => i == ino && ino in s.data && s.data[ino] == b && buf <= b
       case Loaded(_, limit, outcome) => outcome == (if limit > 0 && |b| > limit then TooLarge(|b|) else Whole(b))
       case _ => false
  }

  lemma SnapshotStep(init: State, s: State, e: Event, t: State, p: nat, ino: nat, b: Bytes)
    requires Inv(init, s) && Step(s, e, t) && Snapshot(s, p, ino, b) && p in t.procs
    ensures Snapshot(t, p, ino, b)
  {
    hide WholeFor, NamesOk;
    assert ProcOk(init, s, s.procs[p]);
    if e.Write? && e.p != p {
      assert Apart(s.procs[e.p], s.procs[p]);
    }
    if e.Create? && e.p != p {
      assert ProcOk(init, s, s.procs[e.p]);
    }
  }

  /** Event `i` is the moment at which the load `p` opens the existing file `target`. */
  ghost predicate OpensAt(states: seq<State>, events: seq<Event>, i: nat, p: nat, target: string) {
    && i < |events| < |states| && events[i] == Open(p)
    && p in states[i].procs && states[i].procs[p].Opening? && states[i].procs[p].target == target
    && target in states[i].names
  }

  /** From the moment a load opens the cache file, its result is fixed: the content the file
      had at that moment, whatever is saved or removed while it reads. */
  lemma {:induction false} LoadIsSnapshot(states: seq<State>, events: seq<Event>, i: nat, j: nat, p: nat, target: string)
    requires IsRun(states, events) && i < j < |states|
    requires OpensAt(states, events, i, p, target)
    requires forall k :: i < k <= j ==> p in states[k].procs
    ensures states[i].names[target] in states[i].data
    ensures Snapshot(states[j], p, states[i].names[target], states[i].data[states[i].names[target]])
  {
    RunInv(states, events, j - 1);
    assert StepAt(states, events, j - 1);
    if j == i + 1 {
      assert ProcOk(states[0], states[i], states[i].procs[p]);
    } else {
      LoadIsSnapshot(states, events, i, j - 1, p, target);
      SnapshotStep(states[0], states[j - 1], events[j - 1], states[j], p,
                   states[i].names[target], states[i].data[states[i].names[target]]);
    }
  }

  // ---- A finished save stays until it is replaced ----

  /** The event gives `target` a new file or takes its name away. */
  ghost predicate Replaces(s: State, e: Event, target: string) {
    || (e.Rename? && e.p in s.procs && s.procs[e.p].Writing? && s.procs[e.p].target == target)
    || e == Remove(target)
  }

  ghost predicate Holds(s: State, target: string, b: Bytes) {
    target in s.names && s.names[target] in s.data && s.data[s.names[target]] == b
  }

  lemma HoldsStep(init: State, s: State, e: Event, t: State, target: string, b: Bytes)
    requires Inv(init, s) && Step(s, e, t) && !IsTempLike(target)
    requires Holds(s, target, b) && !Replaces(s, e, target)
    ensures Holds(t, target, b)
  {
    match e
    case Create(p, _) => assert ProcOk(init, s, s.procs[p]);
    case Write(p, _) => assert ProcOk(init, s, s.procs[p]);
    case Rename(p) => assert ProcOk(init, s, s.procs[p]);
    case _ =>
  }

  /** Event `i` is the rename that puts the payload of the save `w` in place. */
  ghost predicate SavesAt(states: seq<State>, events: seq<Event>, i: nat, w: nat, target: string, payload: Bytes) {
    && i < |events| < |states| && events[i] == Rename(w)
    && w in states[i].procs && states[i].procs[w].Writing?
    && states[i].procs[w].target == target && states[i].procs[w].payload == payload
  }

  /** Once the rename of a save has happened, every later state holds its whole payload
      until another save of that file is renamed into place or the file is removed. */
  lemma {:induction false} SavedUntilReplaced(states: seq<State>, events: seq<Event>, i: nat, j: nat,
                                              w: nat, target: string, payload: Bytes)
    requires IsRun(states, events) && i < j < |states|
    requires SavesAt(states, events, i, w, target, payload)
    requires forall k :: i < k < j ==> !Replaces(states[k], events[k], target)
    ensures Holds(states[j], target, payload)
  {
    RunInv(states, events, i);
    assert ProcOk(states[0], states[i], states[i].procs[w]);
    RunInv(states, events, j - 1);
    assert StepAt(states, events, j - 1);
    if j > i + 1 {
      SavedUntilReplaced(states, events, i, j - 1, w, target, payload);
      HoldsStep(states[0], states[j - 1], events[j - 1], states[j], target, payload);
    }
  }

  /** A load that opens the file after a save, before any later save or removal of it,
      returns that save's payload or reports that the payload exceeds the limit. */
  lemma LoadSeesLastSave(states: seq<State>, events: seq<Event>, i: nat, j: nat, k: nat,
                         w: nat, p: nat, target: string, payload: Bytes)
    requires IsRun(states, events) && i < j < k < |states|
    requires SavesAt(states, events, i, w, target, payload)
    requires forall n :: i < n < j ==> !Replaces(states[n], events[n], target)
    requires OpensAt(states, events, j, p, target)
    requires forall n :: j < n <= k ==> p in states[n].procs
    requires states[k].procs[p].Loaded?
    ensures var limit := states[k].procs[p].limit;
            states[k].procs[p].outcome == (if limit > 0 && |payload| > limit then TooLarge(|payload|) else Whole(payload))
  {
    hide IsRun, SavesAt, OpensAt;
    SavedUntilReplaced(states, events, i, j, w, target, payload);
    LoadIsSnapshot(states, events, j, k, p, target);
  }
}
