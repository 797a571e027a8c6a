/** The persisted indexes: a typed value saved and loaded through the atomic cache files and
    accepted only under the current schema and the expected manifest hash. */
module IndexCache {
  import opened Wrappers
  import opened Octets
  import opened AtomicCache
  import D = Decompress

  const RKYV_SCHEMA_VERSION: nat := 4
  const INDEXES_FILE: string := "indexes.rkyv"

  /** `PersistedIndexes`, everything but the two checked fields left to `Body`. */
  datatype Indexes<Body> = Indexes(schemaVersion: nat, manifestHash: string, body: Body)

  /** `try_load_indexes` once the unlimited load has ended. */
  function TryLoadIndexes<B>(c: D.Codec<Indexes<B>>, outcome: Outcome, expectedHash: string): Option<Indexes<B>> {
    if outcome.Whole? then
      match c.decode(outcome.bytes)
      case Some(v) => if v.schemaVersion == RKYV_SCHEMA_VERSION && v.manifestHash == expectedHash then Some(v) else None
      case None => None
    else None
  }

  /** Every save of the index file so far went through `save_indexes`. */
  ghost predicate OnlyIndexesSaved<B(!new)>(c: D.Codec<Indexes<B>>, saves: set<(string, Bytes)>) {
    forall b :: (INDEXES_FILE, b) in saves ==> exists v :: b == c.encode(v)
  }

  /** In any interleaving, an accepted index carries the current schema and the expected hash
      and was either saved whole by one `save_indexes` or already there at the start. */
  lemma AcceptedIndexWasSaved<B(!new)>(c: D.Codec<Indexes<B>>, states: seq<State>, events: seq<Event>,
                                       i: nat, p: nat, expectedHash: string)
    requires D.LawfulCodec(c) && IsRun(states, events) && i < |states|
    requires OnlyIndexesSaved(c, states[i].saves)
    requires p in states[i].procs && states[i].procs[p].Loaded? && states[i].procs[p].target == INDEXES_FILE
    requires TryLoadIndexes(c, states[i].procs[p].outcome, expectedHash).Some?
    ensures var v := TryLoadIndexes(c, states[i].procs[p].outcome, expectedHash).value;
            && v.schemaVersion == 4 && v.manifestHash == expectedHash
            && (|| (INDEXES_FILE, c.encode(v)) in states[i].saves
                || (Holds(states[0], INDEXES_FILE, states[i].procs[p].outcome.bytes)
                    && c.decode(states[i].procs[p].outcome.bytes) == Some(v)))
  {
    hide IsRun;
    LoadIsWholeAndLimited(states, events, i, p);
    var b := states[i].procs[p].outcome.bytes;
    if (INDEXES_FILE, b) in states[i].saves {
      var v :| b == c.encode(v);
      assert c.decode(c.encode(v)) == Some(v);
    }
  }

  /** A load that opens the file after an index was saved, before anything replaces it, finds
      that index exactly when its schema and hash are the ones asked for, and nothing otherwise. */
  lemma SavedIndexIsFound<B(!new)>(c: D.Codec<Indexes<B>>, states: seq<State>, events: seq<Event>,
                                   i: nat, j: nat, k: nat, w: nat, p: nat, v: Indexes<B>, expectedHash: string)
    requires D.LawfulCodec(c) && IsRun(states, events) && i < j < k < |states|
    requires SavesAt(states, events, i, w, INDEXES_FILE, c.encode(v))
    requires forall n :: i < n < j ==> !Replaces(states[n], events[n], INDEXES_FILE)
    requires OpensAt(states, events, j, p, INDEXES_FILE)
    requires forall n :: j < n <= k ==> p in states[n].procs
    requires states[k].procs[p].Loaded? && states[k].procs[p].limit == 0
    ensures TryLoadIndexes(c, states[k].procs[p].outcome, expectedHash)
         == if v.schemaVersion == RKYV_SCHEMA_VERSION && v.manifestHash == expectedHash then Some(v) else None
  {
    hide IsRun, SavesAt, OpensAt;
    LoadSeesLastSave(states, events, i, j, k, w, p, INDEXES_FILE, c.encode(v));
    assert c.decode(c.encode(v)) == Some(v);
  }
}
