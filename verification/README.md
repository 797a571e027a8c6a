# A verified model of DBT Nova

DBT Nova turns dbt artifacts into an index that agents query through tools. This Dafny project
models the parts of it whose behaviour is hardest to see from the code, and proves what they
promise for every input, every interleaving or every reachable state:

* **Lineage** (`Lineage`, `LineageBounds`, `LineageCache`): the bounded search behind `get_lineage`, in
  which an entity costs a level only when its type was asked for, so entities are queued again when
  a cheaper route turns up; what its two bounds do to the answer; and the cache of answers, whose key
  is a line of text.
* **Atomic cache files** (`TempNames`, `AtomicCache`, `AtomicLoads`, `Decompress`, `IndexCache`): a step system of
  a directory, its inodes and any number of savers, loaders, crashes and removals; the bounded
  streaming decompressor; and the acceptance of a persisted index.
* **Capped metadata** (`Utf8`, `ExtendedMeta`): cutting a text to a number of bytes between UTF-8
  characters (section 3 of RFC 3629), merged metadata, and the collector with its caps and counters.
* **Accepted parameter names** (`JsonPointer`, `ParamSchema`): the walk over a JSON schema with local
  references (JSON Pointer, section 4 of RFC 6901) and combinators.
* **Trace replay** (`TraceReplay`): the scan for sensitive content and the rebuilding of parameters.
* **Audit and readiness** (`AuditGate`, `AuditTriage`, `StableId`): the gate of a metadata audit, its
  triage summary, and the identifiers of golden seeds.
* **Storage retention** (`StorageEvents`, `ZeroKeepPrune`, `StoragePrune`, `CountingPrune`, `DirSize`):
  both prunes as step systems beside other processes that lock, unlock, create and delete.
* **Configuration** (`ToolConfig`, `JsonText`), **pagination** (`Pagination`), **glob patterns** (`Glob`)
  and **edit distance** (`EditDistance`).

`Wrappers`, `Octets`, `Ordering`, `Utf8Order`, `Text`, `Decimal` and `Json` hold what the others share:
options and results, a stable sort with its uniqueness, the order of strings, Rust's string
operations, decimal printing, JSON values.

Code that updates variables in loops is a `method` proved against a specification; concurrent
behaviour is a step relation with theorems about whole runs; the rest is functions and lemmas.

`dafny verify dfyconfig.toml` checks everything.

## Results worth reading first

* `Lineage.GetLineage`: least depths, completeness and the exact meaning of `truncated`, stated over
  paths only; and `LineageBounds.CapKeepsPrefix`: a cap keeps the beginning of the uncapped answer.
* `LineageBounds.DepthReachedExactly`: for which filters and bounds the reported depth is always the
  greatest depth; `DepthReachedCanExceed` is a request for which it is not.
* `LineageCache.FreshExactly`: a set of requests is always served fresh answers, on every manifest and
  in every run, exactly when any two of them that share a key have the same root and the same filter.
  `KeysAgree` says which requests share a key, `FreshByPieces` and `PlainServedFresh` say the same
  without keys, and `BlankTypeCollides`, `CommaTypeCollides` and `BarCollides` are requests that are
  served the wrong answer.
* `AtomicCache.TargetAlwaysWhole`, `LoadSeesLastSave`, `AtomicLoads.LoadEndsAsSomeMomentDemands` and
  `UndisturbedLoad`, `IndexCache.SavedIndexIsFound`.
* `ParamSchema.WalkEndsIffAcyclic` and `WalkFindsAllowed`: the schema walk ends exactly when no
  reachable schema refers back to itself, and then finds exactly what is reachable.
* `TraceReplay.ReplayedParamsClean` and `RescanFailsExactly`: rebuilt parameters hold no credential
  mark, yet need not pass the scan again; the condition under which they fail it is exact, and
  `RescanCounterexample` is such an input.
* `ZeroKeepPrune.RemovedExactly` and `RemovedInUseExactly`: a directory is removed exactly when its probe
  found it free and the removal does not fail, and is then in use exactly when its lock was taken
  since. `CountingPrune` shows the same for the wider window of the counting prune.

## Model

| member | source | states |
|---|---|---|
| `Lineage.GetLineage` | src/tools/lineage.rs:48-143 | refused exactly for a depth of zero; otherwise the answer is the one the query determines, order, cut and reported depth included. In terms of the request: only entities of the allowed types other than the root, each within the configured depth and within the requested one; all of them unless truncated; truncated exactly when it is as long as the configuration, or else one, allows. In terms of paths: each listed once with an edge leading to it, and with the least depth of everything reached when not truncated. The search ends on every graph, cyclic or not |
| `Lineage.LineageOf` | src/tools/lineage.rs:73-143 | every query has one answer, and that answer is faithful |
| `Lineage.Expand` | src/tools/lineage.rs:85-138 | the loop over the neighbours with its flag does what expanding one queue entry means, and sets the flag exactly when the result is full |
| `Lineage.ExpandKeeps` | src/tools/lineage.rs:85-138 | expanding the oldest queue entry keeps the search invariant and either lowers the sum of recorded depths or only pops the queue |
| `Lineage.ExpandRelax` | src/tools/lineage.rs:115-135 | recording a cheaper depth, queueing and reporting keeps depths sound, results distinct and every other entity settled |
| `Lineage.EdgesAreDependencies` | src/tools/lineage.rs:118-130 | in both directions an edge runs from an entity to one that depends on it |
| `Lineage.NewEdge` | src/tools/lineage.rs:118-130 | the edge that discovers an entity was never reported before, so the edge set never drops one |
| `Lineage.PathCovered` | src/tools/lineage.rs:85-138 | once the queue is empty every path within the bound ends in an entity recorded at no more than the path's cost |
| `Lineage.SearchComplete` | src/tools/lineage.rs:85-138 | recorded entities are exactly those within reach, each with its least depth |
| `Lineage.SearchFaithful` | src/tools/lineage.rs:73-143 | a finished or truncated search meets the whole promise of a lineage answer |
| `Lineage.SlackDrops` | src/tools/lineage.rs:107-116 | every recorded improvement lowers the sum of depths, the measure that ends the search |
| `LineageBounds.CapKeepsPrefix` | src/tools/lineage.rs:131-143 | a cap keeps the first entities and edges of the answer under any larger cap, as many as it allows or all of them |
| `LineageBounds.DepthReachedIsDepth` | src/tools/lineage.rs:85-89 | when every listed entity was asked for, the reported depth is the depth of some entity, and of a whole answer the greatest least depth |
| `LineageBounds.NoFilterAllAsked` | src/tools/lineage.rs:435-438 | without a filter every listed entity is asked for |
| `LineageBounds.DepthReachedCanExceed` | src/tools/lineage.rs:85-116 | with any room for two levels and two entities there is a graph on which an outdated queue entry makes the reported depth exceed every least depth |
| `LineageBounds.DepthReachedWithinCount` | src/tools/lineage.rs:89-134 | no answer reports a depth greater than the number of its entities |
| `LineageBounds.DepthReachedExactly` | src/tools/lineage.rs:85-143 | for a filter and bounds, every whole answer on every manifest reports the depth of some entity, and so the greatest, exactly when there is no filter, or the depth bound is below two, or the cap is below three |
| `LineageCache.SameQuestionExactly` | src/tools/lineage.rs:435-445 | two requests ask the same exactly when they agree in everything but the types and the types are the same filter: both empty or neither, and the same names but for case |
| `LineageCache.QueryListsDependencies` | src/tools/lineage.rs:38-46 | upstream requests are searched along what entities depend on, downstream ones along what depends on them |
| `LineageCache.SameQuestionSameResponse` | src/tools/lineage.rs:73-234 | requests that ask the same get the same response on every manifest, entity by entity |
| `LineageCache.KeysAgree` | src/tools/lineage.rs:410-433 | two requests share a key exactly when they agree in root, direction, bounds and detail and their sorted types give the same pieces at commas, or the root of one spells out the other's root and scalars while its types spell out the rest |
| `LineageCache.ShiftNeedsBars` | src/tools/lineage.rs:424-432 | the second case needs a bar in the one root and one in the other's types |
| `LineageCache.PlainKeysAgree` | src/tools/lineage.rs:410-433 | for types that are neither empty nor hold a comma, the first case is agreeing in everything, the types as a multiset |
| `LineageCache.SharedKeySameQuestion` | src/tools/lineage.rs:410-445 | requests that share a key, a root and a filter agree in everything else that matters |
| `LineageCache.DifferenceShows` | src/tools/lineage.rs:98-143 | requests with different roots or filters are answered differently on some manifest that knows both roots |
| `LineageCache.FreshExactly` | src/tools/lineage.rs:57-72 | a set of requests is served fresh responses in every run of stores, hits and evictions on every manifest exactly when any two of them that share a key have the same root and filter |
| `LineageCache.FreshByPieces` | src/tools/lineage.rs:57-72 | that is: exactly when no request is another one shifted and types with the same pieces are the same filter |
| `LineageCache.PlainServedFresh` | src/tools/lineage.rs:57-72 | when no type is empty or holds a comma: exactly when no request is another one shifted, hence always when no root or no type holds a bar |
| `LineageCache.CollisionServedStale` | src/tools/lineage.rs:57-72 | two requests that share a key and ask different things are not always served fresh answers |
| `LineageCache.BlankTypeCollides` | src/tools/lineage.rs:417-431 | an empty type shares the key of no filter, asks something else, and is served stale answers |
| `LineageCache.CommaTypeCollides` | src/tools/lineage.rs:417-431 | so can a type with a comma, sharing the key of two types |
| `LineageCache.BarCollides` | src/tools/lineage.rs:424-432 | and bars in a root and in a type can make up for each other, whatever else is asked |
| `TempNames.SuffixInjective` | src/utils/id.rs:5-12 | a suffix determines the process id, the clock reading and the counter it was made from |
| `TempNames.TempNameInjective` | src/manifest/rkyv_cache.rs:294-298 | a temporary name determines its target and its suffix, even across targets |
| `TempNames.TempNamesDistinct` | src/manifest/rkyv_cache.rs:294-298 | two saves share a temporary file exactly when target, process, clock reading and counter all agree |
| `AtomicCache.StepInv` | src/manifest/rkyv_cache.rs:290-302 | every step of a saver, a loader, a crash or a removal keeps the invariant on names, contents and processes |
| `AtomicCache.RunInv` | src/manifest/rkyv_cache.rs:290-302 | the invariant holds in every state of every run |
| `AtomicCache.TargetAlwaysWhole` | src/manifest/rkyv_cache.rs:290-302 | at every moment a cache file is absent, its initial content, or the complete payload of one save |
| `AtomicCache.LoadIsWholeAndLimited` | src/manifest/rkyv_cache.rs:154-188 | a load hands out one whole version and never more bytes than its limit, even when a rename falls between the size check and the read |
| `AtomicCache.LoadIsSnapshot` | src/manifest/rkyv_cache.rs:177-187 | from the moment it opens the file, a load's result is the content at that moment |
| `AtomicLoads.LoadEndsAsSomeMomentDemands` | src/manifest/rkyv_cache.rs:154-188 | every load ends as some moment between its beginning and its end demands: missing only if the file was missing then, too large only with the size the file had then and a limit below it, content only if it was the whole content then and the limit allows it |
| `AtomicLoads.UndisturbedLoad` | src/manifest/rkyv_cache.rs:166-187 | when nothing replaces or removes the file meanwhile, a load ends with its whole content exactly when there is no limit or the limit allows it, else with its size as too large, and as missing when it is missing |
| `AtomicLoads.LoadCanGoOn` | src/manifest/rkyv_cache.rs:154-188 | a load that has begun can always take its next step |
| `AtomicLoads.SaveCanGoOn` | src/manifest/rkyv_cache.rs:299-301 | so can a save whose temporary file nobody removed, and its last step puts the whole payload in place |
| `AtomicLoads.CanBegin` | src/manifest/rkyv_cache.rs:154-166 | a load can begin whenever its process is free, and a save when its temporary name is new as well |
| `AtomicLoads.AnythingCanBreak` | src/manifest/rkyv_cache.rs:290-302 | any process can stop and any directory entry can vanish at any moment of a run |
| `AtomicCache.SavedUntilReplaced` | src/manifest/rkyv_cache.rs:299-301 | after its rename a save's payload stays until another save is renamed over it or the file is removed |
| `AtomicCache.LoadSeesLastSave` | src/manifest/rkyv_cache.rs:154-188 | a load that opens after a save and before a replacement returns that payload, or reports it too large |
| `Decompress.DecompressBytes` | src/manifest/rkyv_cache.rs:248-275 | for every chunking the bounded loop returns what the unbounded branch returns unless the data exceed the limit, and then fails; its buffer never exceeds the limit |
| `Decompress.RunLoadCompressed` | src/manifest/rkyv_cache.rs:194-226 | a compressed load depends on the decoded stream and the limit only, never on the chunking |
| `Decompress.CompressedRoundTrip` | src/manifest/rkyv_cache.rs:101-135 | what a compressed save writes is loaded back exactly when the encoding respects the limit |
| `IndexCache.AcceptedIndexWasSaved` | src/manifest/rkyv_indexes.rs:19-27 | in any interleaving an accepted index has the current schema and expected hash and was saved whole, or was there at the start |
| `IndexCache.SavedIndexIsFound` | src/manifest/rkyv_indexes.rs:13-27 | a load after a save and before a replacement finds exactly that index if its schema and hash match, and nothing otherwise |
| `Utf8.CappedNonEmptyValue` | src/manifest/extended_meta.rs:177-197 | the capped value is trimmed, not empty, within the cap and cut at the last character boundary, at most three bytes back; truncation is reported exactly when the trimmed text exceeds the cap; nothing is returned exactly for a zero cap, a blank text or a first character that does not fit |
| `Utf8.BackUp` | src/manifest/extended_meta.rs:187-190 | the loop stops at the last boundary at or before the cap |
| `Utf8.CappedUnique` | src/manifest/extended_meta.rs:177-197 | the description of a capped value leaves no choice |
| `Utf8.BoundaryIsPrefixEnd` | src/manifest/extended_meta.rs:188-190 | byte-level boundaries are exactly the ends of encoded prefixes |
| `Utf8.BoundaryFits` | src/manifest/extended_meta.rs:187-191 | backing up finds the longest prefix that fits |
| `Utf8.EncodeInjective` | src/manifest/extended_meta.rs:187-197 | equal bytes come from equal texts |
| `ExtendedMeta.ConfigPathRoundTrip` | src/manifest/extended_meta.rs:26-49 | a printed path parses back to its segments, as a column wildcard exactly when it starts so |
| `ExtendedMeta.WalkPath` | src/manifest/extended_meta.rs:199-209 | the cursor loop finds the member the path denotes, null counting as nothing |
| `ExtendedMeta.MergeLookup` | src/manifest/entity.rs:406-423 | looking up a path in merged metadata: the overlay answers where it speaks, the base where it is silent, and two objects at the path are merged |
| `ExtendedMeta.OwnerValues` | src/manifest/entity.rs:325-368 | the values of an entity or a column come from its own metadata unless that is missing, null, or, both being objects, silent about the path; then from the metadata of its configuration |
| `ExtendedMeta.EntityValues` | src/manifest/extended_meta.rs:109-121 | the same of the values an entity path collects |
| `ExtendedMeta.ModesTake` | src/manifest/extended_meta.rs:152-175 | keyword and text modes take a text or a number, the list mode the texts of a list, the boolean mode a truth value, and no mode an object or null |
| `ExtendedMeta.StringsAppend` | src/manifest/extended_meta.rs:159-168 | the texts of a list come in its order |
| `ExtendedMeta.CollectValues` | src/manifest/extended_meta.rs:103-150 | the collected values are the raw values under every order in which the columns may be listed |
| `ExtendedMeta.RawOrderIrrelevant` | src/manifest/extended_meta.rs:122-148 | any two listings of the columns give the same values |
| `ExtendedMeta.WildcardCollects` | src/manifest/extended_meta.rs:122-148 | a wildcard collects exactly the values of every column |
| `ExtendedMeta.WildcardAscends` | src/manifest/extended_meta.rs:126-130 | in ascending order of the column names |
| `ExtendedMeta.ColumnOrderIrrelevant` | src/manifest/extended_meta.rs:126-130 | the sorted names do not depend on the order in which the column map is iterated, and no column is missed |
| `ExtendedMeta.CollectCapped` | src/manifest/extended_meta.rs:75-101 | the first so many cappable values in order, with the truncations among them and the values dropped once full |
| `ExtendedMeta.ConsumedIsLeast` | src/manifest/extended_meta.rs:84-88 | dropping starts at the shortest prefix that fills the collector |
| `ExtendedMeta.CollectorConserves` | src/manifest/extended_meta.rs:75-101 | kept, dropped and uncappable-before-full values add up to the raw ones, and nothing is dropped before the collector is full |
| `ExtendedMeta.CollectEntity` | src/manifest/extended_meta.rs:75-150 | end to end on an entity: whatever the listing order, the first so many cappable raw values, the truncations among them, and counts that leave nothing out |
| `JsonPointer.UnescapeEscape` | src/cli/tool.rs:638-642 | unescaping a reference token undoes escaping it |
| `JsonPointer.PointerRoundTrip` | src/cli/tool.rs:638-642 | the printed pointer of every place in a document evaluates to the value at that place |
| `ParamSchema.NextExactly` | src/cli/tool.rs:618-635 | a schema leads to the target of its reference alone, or without one to every member of allOf, anyOf and oneOf |
| `ParamSchema.ReferencesReachAllParts` | src/cli/tool.rs:638-642 | local references resolve to exactly the values inside the document |
| `ParamSchema.WalkFindsAllowed` | src/cli/tool.rs:613-636 | a walk that ends has found exactly the property names of all schemas reachable through references and combinators, a reference hiding its siblings |
| `ParamSchema.WalkDepth` | src/cli/tool.rs:613-636 | the recursion is as deep as the longest chain of schemas |
| `ParamSchema.WalkEndsIffAcyclic` | src/cli/tool.rs:613-636 | the walk ends exactly when no reachable schema leads back to itself |
| `ParamSchema.SelfReferenceNeverEnds` | src/cli/tool.rs:618-623 | a schema that refers to itself is such a cycle, and no depth of recursion ends its walk |
| `ParamSchema.CollectSchemaProperties` | src/cli/tool.rs:613-636 | the accumulating recursion adds exactly the names of the walk to the set it is given |
| `ParamSchema.SupportedParamKeys` | src/cli/tool.rs:602-611 | the supported names are the reachable property names and the tool's aliases |
| `ParamSchema.AliasesOfTools` | src/cli/tool.rs:644-651 | three tools take one parameter under a second name, and no other tool does |
| `ParamSchema.ValidateKnownParamKeys` | src/cli/tool.rs:581-600 | parameters pass exactly when every name is supported, and otherwise the least unsupported name is reported |
| `TraceReplay.BuildReplayParams` | src/cli/trace_cmd.rs:519-587 | rebuilding succeeds exactly when every whitelisted field can be copied, whatever order they are copied in |
| `TraceReplay.ReplayedTools` | src/cli/trace_cmd.rs:519-587 | six tools can be replayed, and no other |
| `TraceReplay.RequiredSearchFields` | src/cli/trace_cmd.rs:522-557 | the three searches cannot do without their query, and need nothing else |
| `TraceReplay.RequiredGetFields` | src/cli/trace_cmd.rs:558-583 | the three lookups cannot do without the entity, lineage not without the direction either |
| `TraceReplay.RebuildIsNormalForm` | src/cli/trace_cmd.rs:519-672 | rebuilding its own output changes nothing; the output has exactly the whitelisted parameters present; every value is the input up to trimming |
| `TraceReplay.CopyableExactly` | src/cli/trace_cmd.rs:589-672 | which values of which kind can be copied: replayable texts, lists of them, truth values, 64-bit unsigned integers, numbers |
| `TraceReplay.ScanExactly` | src/cli/trace_cmd.rs:680-699 | the recursive scan finds a sensitive text or a flagged member name exactly when there is one, however deep |
| `TraceReplay.TextsAreStringsAndNames` | src/cli/trace_cmd.rs:680-699 | the texts anywhere in a value are its strings and its member names |
| `TraceReplay.UrlClauseAddsNothing` | src/cli/trace_cmd.rs:682-691 | what the scan looks for in URLs it looks for everywhere, so that clause decides nothing |
| `TraceReplay.CopyValueIdempotent` | src/cli/trace_cmd.rs:589-660 | copying a copied value gives it back, for every kind of field |
| `TraceReplay.SafeStringIdempotent` | src/cli/trace_cmd.rs:662-672 | a safe string is the trimmed input and is itself safe |
| `TraceReplay.ReplayedParamsClean` | src/cli/trace_cmd.rs:487-499 | no text anywhere in rebuilt parameters holds, ignoring case, a flagged fragment, a bearer credential, a key block or a URL |
| `TraceReplay.RescanFailsExactly` | src/cli/trace_cmd.rs:662-699 | rebuilt parameters fail a second scan exactly when a copied text is, once trimmed, a spelling of the redaction mark |
| `TraceReplay.RescanCounterexample` | src/cli/trace_cmd.rs:662-699 | a redaction mark behind a blank is replayed as the bare mark, which the scan then refuses |
| `AuditGate.ScoreEntity` | src/cli/audit_cmd.rs:708-789 | an entity's gate is the worst threshold outcome over the personas, and each persona keeps its own score and outcome |
| `AuditGate.ScoreProject` | src/cli/audit_cmd.rs:791-836 | one project outcome per persona, however often it is listed |
| `AuditGate.BuildReport` | src/cli/audit_cmd.rs:336-395 | the gate is the worst outcome over all pairs of entity and persona, or over the project scores in project mode, with the rules for an empty selection; the three counts add up to the targets, in project mode to the personas; in project mode every entity passes |
| `AuditGate.ReportGateMeaning` | src/cli/audit_cmd.rs:336-395 | with something selected outside project mode, the gate passes exactly when no entity violates a rule for a listed persona, and fails exactly when one violates a required rule |
| `AuditGate.ProjectGateMeaning` | src/cli/audit_cmd.rs:361-395 | in project mode the gate passes exactly when the project meets the project rule of every listed persona, and fails exactly when it violates a required one |
| `AuditGate.RulesByPersona` | src/cli/audit_cmd.rs:143-152 | analyst, engineer and governance have their own rule or else the base rule, everybody else the base rule |
| `AuditGate.GradesOrdered` | src/cli/audit_cmd.rs:975-987 | grades rank from A down to D, anything else last, whatever their case and padding |
| `AuditGate.CountGatesSum` | src/cli/audit_cmd.rs:353-357 | every report is counted once |
| `AuditGate.ProjectCounts` | src/cli/audit_cmd.rs:364-375 | project counts add up to the distinct personas and are positive exactly when such an outcome exists |
| `AuditGate.ThresholdMonotone` | src/cli/audit_cmd.rs:953-987 | a higher score and grade never give a worse outcome |
| `AuditGate.ReportGateMonotone` | src/cli/audit_cmd.rs:336-395 | raising scores and grades never worsens the gate, in any mode |
| `AuditTriage.IngestCategories` | src/cli/audit_cmd.rs:632-657 | exactly the scored categories of one persona are added to, whatever order they are listed in |
| `AuditTriage.BuildTriage` | src/cli/audit_cmd.rs:465-501 | histograms, candidates, category totals and recommended fields are those of exactly the scored pairs, with the repetitions of the persona list |
| `AuditTriage.IngestRecommendations` | src/cli/audit_cmd.rs:659-685 | every recommendation is added to its field, and only to it |
| `AuditTriage.FieldTotals` | src/cli/audit_cmd.rs:666-684 | a field's aggregate is how often it was recommended, the sum of the impacts and the first category given |
| `AuditTriage.UnnamedRecommendation` | src/cli/audit_cmd.rs:667-677 | a recommendation without a field is about "metadata", and one without an impact adds none |
| `AuditTriage.FieldsReported` | src/cli/audit_cmd.rs:465-501 | a field appears in the summary exactly when something recommends it, with those totals over all pairs |
| `AuditTriage.BucketHoldsScore` | src/cli/audit_cmd.rs:687-695 | a score lies in the range its bucket is named after exactly when it is at most one hundred; higher ones are counted with the lowest |
| `AuditTriage.PairsCount` | src/cli/audit_cmd.rs:475-479 | a persona is looked at once per entity scored for it and per occurrence in the list |
| `AuditTriage.BucketTotals` | src/cli/audit_cmd.rs:480-489 | score buckets and grade buckets both add up to that product |
| `AuditTriage.CategoryBalances` | src/cli/audit_cmd.rs:632-702 | points scored and points missing balance exactly when no score is above one hundred; the average is the floor of the mean exactly when the total is below 101 per score, and else one hundred; the weighted gap is the sum of the weighted missing points |
| `AuditTriage.SummaryBalances` | src/cli/audit_cmd.rs:651-655 | in general the two sum to at least a hundred per score |
| `AuditTriage.SortOfPersona` | src/cli/audit_cmd.rs:518-524 | selecting a persona commutes with the stable sort |
| `AuditTriage.WorstEntities` | src/cli/audit_cmd.rs:518-544 | of each persona five candidates are listed, or all there are; personas ascend, and within a persona scores do, identifiers breaking ties; nothing left out is lower than anything listed of its persona |
| `StableId.StableIdFragment` | src/cli/agent_readiness_cmd.rs:1420-1438 | the flag loop yields lower-case letters, digits and single inner underscores, never nothing |
| `StableId.FragmentIsNormal` | src/cli/agent_readiness_cmd.rs:1420-1438 | no fragment is empty, starts or ends with an underscore or doubles one |
| `StableId.NormalIsFixed` | src/cli/agent_readiness_cmd.rs:1420-1438 | a normal text is its own fragment |
| `StableId.FragmentIdempotent` | src/cli/agent_readiness_cmd.rs:1420-1438 | making a fragment twice changes nothing |
| `StableId.FragmentIgnoresCase` | src/cli/agent_readiness_cmd.rs:1424-1426 | upper and lower case letters make the same fragment |
| `StableId.FragmentJoinsWords` | src/cli/agent_readiness_cmd.rs:1423-1437 | a fragment is the value's words joined by underscores |
| `StableId.FragmentsAgree` | src/cli/agent_readiness_cmd.rs:1420-1438 | two values share a fragment exactly when they have the same words, the word "none" counting as no words |
| `StableId.SeedIdSplits` | src/cli/agent_readiness_cmd.rs:1401-1418 | splitting a seed id at double colons recovers its five fragments |
| `StableId.SplitColonsLosesNothing` | src/cli/agent_readiness_cmd.rs:1417-1417 | joining the pieces of any text at double colons gives the text back |
| `StableId.SeedIdShape` | src/cli/agent_readiness_cmd.rs:1407-1417 | a seed id begins with its kind, and an absent indicator shows as "none" |
| `StableId.SeedIdsAgree` | src/cli/agent_readiness_cmd.rs:1401-1418 | two seed ids are equal exactly when all five fragments are |
| `ZeroKeepPrune.RemovedWasFree` | src/cli/mod.rs:171-192 | whatever other processes do, only directories that are not excluded and were found unlocked in the pruner's step before are removed |
| `ZeroKeepPrune.RemovedExactly` | src/cli/mod.rs:185-189 | the pruner removes a directory exactly when its probe found it free, it has not moved since, and the removal does not fail |
| `ZeroKeepPrune.InUseExactly` | src/cli/mod.rs:185-189 | a directory found free is in use later exactly when its lock was taken since and not released |
| `ZeroKeepPrune.RemovedInUseExactly` | src/cli/mod.rs:185-189 | so a directory in use is removed exactly when the lock was taken between a free probe and a removal that does not fail |
| `ZeroKeepPrune.ProtectedSurvives` | src/cli/mod.rs:171-192 | an excluded directory, or one locked throughout the call, survives |
| `ZeroKeepPrune.LockAfterProbeIsTooLate` | src/cli/mod.rs:185-189 | a run in which a lock taken between probe and removal does not protect |
| `ZeroKeepPrune.QuietPruneExact` | src/cli/mod.rs:171-192 | when nothing else changes and nothing fails, the survivors are exactly the excluded and the in-use directories |
| `ZeroKeepPrune.PrunerCanAct` | src/cli/mod.rs:175-190 | a pruner that has not ended can always act; it can fail whenever it reads the listing or removes, and must only when somebody deleted what it is to remove |
| `ZeroKeepPrune.OthersCanAct` | src/utils/storage.rs:13-31 | other processes can lock, release, create and delete at any moment |
| `CountingPrune.RemovedWasFree` | src/utils/storage.rs:49-98 | whatever other processes do, only directories that are not excluded and were found free during the listing are removed |
| `CountingPrune.ProtectedSurvives` | src/utils/storage.rs:49-98 | an excluded directory, or one locked throughout, survives |
| `CountingPrune.InUseExactly` | src/utils/storage.rs:62-97 | a directory found free is in use later exactly when its lock was taken since its probe and not released |
| `CountingPrune.RemovedInUseExactly` | src/utils/storage.rs:62-97 | a removal hits a directory in use exactly when the lock was taken since a probe that found it free |
| `CountingPrune.LockAfterListingIsTooLate` | src/utils/storage.rs:62-97 | a run in which a lock taken after the listing does not protect |
| `CountingPrune.DropsLeast` | src/utils/storage.rs:80-98 | whoever else acts and even if the prune fails, the removals since the listing are exactly a beginning of the sorted listing, each demanded by the limits, and at the end the least the limits allow |
| `CountingPrune.RemovedAreOldest` | src/utils/storage.rs:81-98 | whatever has been removed is no younger than anything kept, names breaking ties |
| `CountingPrune.RemovedExactly` | src/utils/storage.rs:91-98 | the next of the sorted listing is removed exactly when the limits still demand it and the prune, coming to act, does not fail |
| `CountingPrune.QuietPruneIsPruneDirs` | src/utils/storage.rs:37-101 | when nobody else acts and nothing fails, a finished prune has removed exactly what the limits demand of the eligible directories, and nothing else is gone |
| `CountingPrune.PruneCanAct` | src/utils/storage.rs:49-98 | a prune that has not ended can always act and always fail, and must fail only when somebody deleted what it is to measure or remove |
| `CountingPrune.OthersCanAct` | src/utils/storage.rs:13-31 | other processes can lock, release, create and delete at any moment |
| `StoragePrune.PruneDirs` | src/utils/storage.rs:37-101 | on a listing, exactly the directories neither excluded nor in use are removed or kept, the removed no younger than the kept, names breaking ties, and no byte is lost between them; the count and byte limits hold of what is kept; and the last removal was needed for the count, or for the bytes with the minimum still left |
| `StoragePrune.DropOldest` | src/utils/storage.rs:85-98 | what is left respects the limits, and one removal fewer would not |
| `StoragePrune.PrunedAreOldest` | src/utils/storage.rs:58-98 | nothing excluded or in use is removed, and nothing removed is newer than an eligible directory kept |
| `StoragePrune.PrunedInstances` | src/cli/storage_cmd.rs:298-306 | the report's pruned instances are those before and not after, in order, and the counts add up |
| `DirSize.BytesPick` | src/cli/storage_cmd.rs:518-537 | the total does not depend on the order of the entries |
| `DirSize.DirSizeBytes` | src/cli/storage_cmd.rs:518-537 | for every tree and every listing order the saturating recursion returns the true total, or the largest 64-bit number |
| `ToolConfig.CanonicalPrunePatterns` | src/config/core.rs:1642-1652 | the loop and the sort give the canonical list, in order |
| `ToolConfig.CanonicalAgree` | src/config/core.rs:1642-1652 | canonical lists agree exactly when the trimmed non-blank patterns agree as multisets |
| `ToolConfig.CanonicalIdempotent` | src/config/core.rs:1642-1652 | canonicalising twice changes nothing |
| `ToolConfig.PaddingIrrelevant` | src/config/core.rs:1642-1652 | padding a pattern changes nothing |
| `ToolConfig.FingerprintsAgree` | src/config/core.rs:657-678 | fingerprints agree exactly when allow and deny patterns agree as multisets; a fingerprint is empty exactly when pruning is off |
| `JsonText.TwoListsApart` | src/config/core.rs:669-675 | the printed payload determines both lists, whatever the patterns contain |
| `JsonText.ObjectShape` | src/config/core.rs:671-674 | the payload is an object of its two members |
| `JsonText.ListShape` | src/config/core.rs:671-674 | a list is its quoted strings, separated by commas, in brackets |
| `JsonText.EscapesOnlyWhatItMust` | src/config/core.rs:671-675 | only quotes, backslashes and control characters are escaped |
| `Utf8Order.StringLeIsBytesLe` | src/config/core.rs:1650-1650 | the order lists are sorted by is the byte order of the encoded strings |
| `ToolConfig.CsvRoundTrip` | src/config/core.rs:334-336 | parsing the printed list gives the list back, for names that are not blank, trimmed and free of commas |
| `ToolConfig.ParsedAreNames` | src/config/core.rs:1658-1664 | every parsed list consists of such names, so parsing its print changes nothing |
| `ToolConfig.ServerConfig.ApplyRuntimePreset` | src/config/core.rs:632-653 | the fields a preset sets, and that it leaves all others alone |
| `ToolConfig.ServerConfig.ResolvedToolNames` | src/config/core.rs:810-824 | the exposed tools are the allowlist, or the profile when it is empty, less the denied ones |
| `ToolConfig.PresetDenies` | src/config/core.rs:297-332 | every denying preset denies recipes, all but the trusted one deny SQL, and discovery denies what the trusted one does and SQL |
| `ToolConfig.ServerConfig.ExposedAfterPreset` | src/config/core.rs:632-824 | after a preset that denies tools exactly the eligible tools not on its list are exposed, never a recipe, and SQL only under the trusted one |
| `Pagination.PaginatedRows` | scripts/_nova_cli.py:110-138 | against every server that pages through a list and reports its length, the loop ends with that list; without a total it stops after one page |
| `Pagination.Chunked` | scripts/_nova_cli.py:31-35 | the chunks concatenate back to the list, none is empty, and all but the last are full |
| `Glob.GlobMatchTokens` | src/utils/glob.rs:60-88 | the two-row table decides whether the text can be cut into one fitting piece per token |
| `Glob.MatchesLast` | src/utils/glob.rs:60-88 | the last token takes some end of the text and the others match the rest |
| `Glob.Cell` | src/utils/glob.rs:77-84 | each cell of the table is the match of a prefix of the tokens against a prefix of the text |
| `Glob.TokenizePattern` | src/utils/glob.rs:98-124 | the loop yields the token list, a run of stars becoming one token, and with globstars the list is normal |
| `Glob.TokensAreNormal` | src/utils/glob.rs:98-124 | no two star tokens are neighbours and no wildcard hides in a character |
| `Glob.TokenizePrinted` | src/utils/glob.rs:98-124 | every normal token list is what its printed pattern yields |
| `Glob.LiteralMatches` | src/utils/glob.rs:22-45 | the tokens of a text without wildcards match that text only, so the shortcut for literals is sound |
| `Glob.GlobMatch` | src/utils/glob.rs:4-58 | with or without the shortcut, and after dropping a leading "./" on both sides, the result is the meaning of the pattern |
| `Glob.DotSlashDropped` | src/utils/glob.rs:90-96 | one leading "./" is dropped, and nothing else |
| `EditDistance.LevenshteinDistance` | src/utils/string.rs:4-37 | the two rows compute the distance given by the recurrence |
| `EditDistance.ScriptAtLeastDist` | src/utils/string.rs:1-2 | no sequence of single-character insertions, deletions and substitutions is shorter than the distance |
| `EditDistance.ScriptOfDist` | src/utils/string.rs:1-2 | some such sequence is exactly as long |
| `EditDistance.DistTriangle` | src/utils/string.rs:4-37 | the distance satisfies the triangle inequality |
| `EditDistance.DistSymmetric` | src/utils/string.rs:4-37 | the distance is symmetric |
| `EditDistance.DistZero` | src/utils/string.rs:4-37 | only equal texts are at distance zero |

## Left out

- Lineage.GetLineage: the later `truncate` is unreachable and has no counterpart; rendering of entities and provenance is not modelled.
- AtomicCache.StepInv: a temporary name is one that was not handed out before and no target ends in ".tmp"; `TempNames` shows when names differ, and that process id, clock and counter never repeat together is assumed. Inode numbers are not reused, and input/output errors other than a missing file count as a crash of the operation. Creating the parent directory and the fallback file name for non-UTF-8 paths are not modelled.
- Decompress.DecompressBytes: zstd and the rkyv codec are functions with one law each (decoding inverts encoding; a decoder yields some chunking of one stream). The `actual_bytes` figure of a compressed "too large" failure is not modelled.
- IndexCache.AcceptedIndexWasSaved: assumes that only `save_indexes` writes that file; indexes are opaque apart from the two checked fields.
- ExtendedMeta.MergeLookup: the in-place update of the target object is modelled on values.
- ExtendedMeta.CollectValues: printing a number is an arbitrary function.
- ParamSchema.SupportedParamKeys: schema generation is foreign, so the schema is a parameter; on a cyclic schema the source does not return, which `WalkEndsIffAcyclic` states.
- TraceReplay.BuildReplayParams: the fixed copying order is any order; floats are reals, so conversion of large integers does not round.
- AuditGate.BuildReport: the scorer is any total function, so its errors are not modelled; neither are selection of entities, path normalisation and report metadata.
- AuditTriage.BuildTriage: sums are unbounded and weights are real; the ranking of weak spots and of recommended fields and the drill-down hints are not modelled.
- ZeroKeepPrune.QuietPruneExact: the lazily read listing is taken at the start, as in `CountingPrune`; non-UTF-8 names are not modelled.
- StoragePrune.PruneDirs: listing, probing and removal are one step here and separate steps in `CountingPrune`; the byte sum is unbounded.
- ToolConfig.FingerprintsAgree: the hash is a collision-free function that never yields the empty text.
- ToolConfig.ServerConfig.ApplyRuntimePreset: only the fields that presets and tool filters touch are modelled; profiles are a parameter.
- Storage clean-up and preparation, the reported count limit, `normalize_path`: single-branch code with no deep property.
- Server start-up, HTTP routes, command-line and environment parsing, response rendering, logging: input/output and foreign frameworks.
- Search, embeddings, SQL execution, evaluation suites and the metadata scorer: not part of this model.
