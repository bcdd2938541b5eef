# Schema sanitizer verification

A Dafny model of the schema registry of the schema sanitizer, of the schema evolution code it
shares, and of six other parts of the repository that carry a hard invariant: the field lookup
table of compiled struct plans, the multi-path byte stream, the canonical schema JSON, sibling
field-name cleaning, the round-robin benchmark scheduler, and the fuzzer's sampler and mutator.

`dafny verify dfyconfig.toml` checks the whole project.

## How the project is laid out

A *registry* is a tree of named, nullable, typed fields. Each run merges a newly inferred tree
into it. A type that cannot be reconciled becomes a numbered *variant* of its *family*:
`x`, `x_v2_struct`, `x_v3_float`. After the merge, a numeric pass leaves at most one scalar number
in any family that has a float.

- Common ground: `basics.dfy`, `arith.dfy`, `rearrangement.dfy`, `logical_schema.dfy`.
- Names: `variant_names.dfy` (the version-name codec on real strings), `name_order.dfy`.
- Merge: `registry_merge.dfy` is the merge as functions. `registry_drift.dfy`,
  `registry_growth.dfy`, `registry_coverage.dfy`, `registry_depth.dfy`, `registry_versions.dfy` and
  `registry_absorption.dfy` each prove one thing about it. `registry_reconciling.dfy` says exactly which
  types merge and where a field lands, and `registry_drift_events.dfy` exactly what the log tells, in terms
  that do not mention the merge.
- Numeric pass: `registry_numeric.dfy`, and what it keeps, told apart from it, in
  `registry_numeric_exact.dfy`. `registry_settling.dfy` proves that names stay unique through merge and
  numeric pass, whatever versions they carry.
- Replay: `registry_replay.dfy` and `registry_nulls.dfy` prove that replays are no-ops;
  `registry_replay_exact.dfy` and `registry_anchored.dfy` prove that the conditions are exact.
- Order of the published fields: `registry_ordering.dfy` says what sorting by name keeps of any schema,
  `registry_sorting.dfy` what normalising the sorted form leaves.
- Runs: `registry_run.dfy` lifts the results to every sequence of inputs; `registry_joining.dfy` says
  which inputs keep the names of every registry unique.
- Code in its own form: `registry_engine.dfy`, `registry_numeric_engine.dfy`, `registry_entry.dfy`,
  `schema_evolution_engine.dfy` and `schema_json_engine.dfy` hold the loops over growing vectors,
  indexes, logs and budgets, each proved equal to the functions above.
- Evolution and order: `schema_evolution.dfy`, `schema_order.dfy`, `schema_evolve.dfy`, and the contents and
  order of an evolved schema in `schema_contract_order.dfy`.
- Cleaning names: `name_cleaning.dfy`, `sibling_names.dfy`, `schema_names.dfy` and `reserved_names.dfy` compute
  the names. `name_spelling.dfy` says how a clean base is spelled, `name_choices.dfy` which candidate every
  sibling gets, and `schema_renaming.dfy` what cleaning does to a whole type.
- The other parts: `struct_layout.dfy`, `chunk_stream.dfy`, `schema_json.dfy` with `schema_json_meaning.dfy`,
  `schema_json_canonical.dfy` and `schema_text.dfy`, `epoch_order.dfy` with `epoch_strides.dfy`, `fuzz_mutator.dfy`.

## What turned out to be conditional

- **Replay after the numeric pass is not always a no-op.** It fails when the observation goes to a
  member that the numeric pass then drops, and the member next in line does not take it unchanged.
  There are two ways to be dropped. A float of the family can overtake: after a float and two null
  variants, an observed integer fills the newest null and is dropped, and the replay fills the other
  one (`RegistryReplayExact.FloatThenNulls`). Or the widened member can settle on the name and type
  of a sibling with the same version number: beside `x_v2_boolean_array`, an observed boolean turns
  `x_v2_null_array` into its repeat, and the replay fills the null `x` between them
  (`RegistryReplayExact.RepeatedVersion`). `RegistryReplayExact.ReplayExactly` proves, for every
  normalised state with unique names, that replay is a no-op for every observation if and only if
  the state is `Safe`: every member exposed in one of these ways is backed by the next in line.
  `RegistryRun.AdvanceTwiceExactly` states it for the whole step. Without unique names `Safe` is not
  enough (`RegistryReplayExact.RepeatedName`). With distinct versions only the
  first way is left (`RegistryReplay.DistinctNeverRepeat`), and every state that contract-first runs
  of one-field-per-family inputs reach is safe, so there replay is always a no-op
  (`RegistryRun.ReplayIsNoOpOverRuns`).
- **Cleaning names twice can rename again.** The default key is exempt from cleaning. Siblings that repeat it
  get suffixes, and when the key is not in the policy's alphabet these names are not clean either
  (`SchemaRenaming.RepeatedDefaultKey`). `SchemaRenaming.SanitizeTwiceExactly` proves that cleaning a type
  twice is cleaning it once if and only if no level repeats such a key.
- **Alphabetical order can lose an observation.** Sorting keeps the first of several siblings with
  one name, and the numeric pass can give two siblings one name: `x_v2_string` and `x_v2_struct`,
  both structs, both settle on `x_v2_struct` (`RegistryRun.SortingLoses`). For any state and input,
  `RegistryRun.AdvanceCoversExactly` and `AdvanceDepthExactly` say what remains: what the siblings
  that come first under their names cover. `RegistryRun.FirstKeptExactly` turns this into an if and
  only if for a first schema. `RegistryRun.NothingLost` and `RunDepth` hold for every run whose first
  schema has unique names once normalised, and whose later inputs have unique names below their top
  level; every step preserves this (`RegistryRun.RunSortable`). For later inputs with one field per
  family at the top level the condition is exact (`RegistryJoining.JoinsExactly`).
- **A reserved column name can be taken.** Reserved names are put back after cleaning, so a sibling
  whose suffix happens to spell one clashes with it (`ReservedNames.ReservedNameTaken`).
  `ReservedNames.RestoredExactly` says exactly when siblings stay apart, and
  `ReservedNames.RestoredUnique` gives a condition on the names before cleaning, for every hash: only a
  base that several siblings share can be lengthened into a reserved name.
- **A field with an empty name breaks absorption and coverage.** A variant made for the empty base,
  `_v2_string`, does not parse as a versioned name, so it joins no family: each replay adds one more
  variant. `RegistryAnchored.AbsorbExactly` and `CoversExactly` prove that absorption and coverage
  hold on every base if and only if every field that is not null has a non-empty name.
- **A default key that is itself a version name breaks version distinctness.**
  `RegistryVersions.VersionsStayDistinct` proves the equivalence.
- **Version names round-trip from text only without a leading zero** (`VariantNames.MakeParse`);
  every name the code makes does round-trip (`VariantNames.ParseMake`).

## Model

| member | source | states |
|---|---|---|
| VariantNames.ParseMake | cpp/src/internal/planning/variant_field_names.cc:16-78 | parsing a made name returns its base, version and label |
| VariantNames.MakeParse | cpp/src/internal/planning/variant_field_names.cc:16-78 | making a parsed name returns it exactly when its version has no leading zero |
| VariantNames.ParseExactly | cpp/src/internal/planning/variant_field_names.cc:16-59 | a name parses to a base, version and label if and only if it has seven characters and spells them: no base without a character, no version below two, no label with a further marker |
| VariantNames.ParseVersionedFieldName | cpp/src/internal/planning/variant_field_names.cc:16-59 | the guards and the scan of the label accept exactly the version names, which VariantNames.ParseExactly spells out |
| VariantNames.MakeInjective | cpp/src/internal/planning/variant_field_names.cc:61-78 | names made for one base and label differ when their versions do |
| VariantNames.MakeVersioned | cpp/src/internal/planning/variant_field_names.cc:16-78 | a made name is a version name if and only if it has a base and a version from two on |
| LogicalSchemas.VariantSemantic | cpp/src/schema_registry/schema_registry_types.cc:28-54 | every type's label is one the parser accepts and starts no version marker of its own |
| RegistryMerge.NewestCompatible | cpp/src/schema_registry/schema_registry.cc:148-186 | the newest member of a family that can take a type, every newer one refusing it |
| RegistryMerge.ExactAt | cpp/src/schema_registry/schema_registry.cc:131-146 | the newest member of a family that has exactly a type |
| RegistryMerge.FreeVersion | cpp/src/schema_registry/schema_registry.cc:69-85 | the first free version at or after the family's next one; the search ends |
| RegistryAbsorption.VariantJoins | cpp/src/schema_registry/schema_registry.cc:69-85 | in a named family the search succeeds on its first candidate, which joins the family and repeats no name |
| RegistryAbsorption.Absorb | cpp/src/schema_registry/schema_registry.cc:121-407 | what a merge of types produced takes the same observation without changing |
| RegistryAbsorption.AbsorbFields | cpp/src/schema_registry/schema_registry.cc:244-352 | merging the same fields again changes nothing, and every single one of them is stable |
| RegistryAbsorption.StepTwice | cpp/src/schema_registry/schema_registry.cc:121-352 | a merged field is found again by name, exact variant, newest compatible variant or new variant, and changes nothing |
| RegistryAbsorption.SelfMerge | cpp/src/schema_registry/schema_registry.cc:357-407 | a type with one field per family merges with itself to itself |
| RegistryAnchored.AbsorbExactly | cpp/src/schema_registry/schema_registry.cc:121-407 | a one-field-per-family type is absorbed by every base if and only if its non-null fields have names |
| RegistryAnchored.CoversExactly | cpp/src/schema_registry/schema_registry.cc:121-407 | merging such a type covers it on every base under exactly the same condition |
| RegistryAnchored.UnanchoredBase | cpp/src/schema_registry/schema_registry.cc:69-85 | a base on which a nameless observation is neither absorbed nor covered |
| RegistryGrowth.MergeGrows | cpp/src/schema_registry/schema_registry.cc:190-239 | a merged type is its base with scalars widened and fields appended, at every depth |
| RegistryGrowth.MergeFieldsGrows | cpp/src/schema_registry/schema_registry.cc:244-352 | every base field keeps its index, name and nullability under a wider type |
| RegistryGrowth.ExtendsTransitive | cpp/src/schema_registry/schema_registry.cc:244-407 | extension composes over steps |
| RegistryGrowth.ExtendsAntisymmetric | cpp/src/schema_registry/schema_registry.cc:244-407 | no later step undoes an earlier one: extension is a partial order |
| RegistryDrift.DriftExactlyWhenChanged | cpp/src/schema_registry/schema_registry.cc:244-352 | a merge of fields logs an event if and only if its result differs from its base |
| RegistryDrift.StepLogged | cpp/src/schema_registry/schema_registry.cc:161-348 | the same for each single field, whichever way it lands |
| RegistryDrift.DriftMeansChange | cpp/src/schema_registry/schema_registry.cc:357-407 | a merge of types that logs has succeeded and changed its base; a failing one logs nothing |
| RegistryDrift.EveryFieldAccounted | cpp/src/schema_registry/schema_registry.cc:190-407 | the merged tree has exactly the fields of its base and those the log reports as added or versioned |
| RegistryDriftEvents.EventsFound | cpp/src/schema_registry/schema_registry.cc:244-352 | every event is about a field of the result, found along its path: a promotion goes from a type between the base's and the result's to a strictly wider one, an added or versioned field is new at its level, and a version tells its family, number and label |
| RegistryDriftEvents.TypeEventsFound | cpp/src/schema_registry/schema_registry.cc:357-407 | the same below a type, through lists and structs |
| RegistryDriftEvents.EveryChangeTold | cpp/src/schema_registry/schema_registry.cc:244-352 | every new field has an event of its own, and every field whose type changed has one that is found at it |
| RegistryDriftEvents.EventsExact | cpp/src/schema_registry/schema_registry.cc:244-352 | for named observations with one field per family, an event has exactly the base type before and the result type after at its path |
| RegistryDriftEvents.TypeEventsExact | cpp/src/schema_registry/schema_registry.cc:357-407 | the same below a type |
| RegistryDriftEvents.PassesBetween | cpp/src/schema_registry/schema_registry.cc:244-352 | a family observed twice logs a type in between that neither the base nor the result has |
| RegistryDriftEvents.AppendReported | cpp/src/schema_registry/schema_registry.cc:255-350 | a step that appends a field logs it alone, with its path, name and type: as a version, with the type of the last field of its name, where the family decided, else as added |
| RegistryDriftEvents.WideningReported | cpp/src/schema_registry/schema_registry.cc:161-186 | a step that widens a scalar, or lists of one, logs exactly that: path, name and both types |
| RegistryDriftEvents.LogsJoin | cpp/src/schema_registry/schema_registry.cc:244-352 | merging two lists of fields one after the other is merging them together, and logs the same events in the same order |
| RegistryCoverage.MergeCovers | cpp/src/schema_registry/schema_registry.cc:357-407 | a successful merge covers the incoming type: scalars, wrapped scalars, lists, elements and structs |
| RegistryCoverage.MergeFieldsCovers | cpp/src/schema_registry/schema_registry.cc:244-352 | every incoming field has a covering member of its family |
| RegistryCoverage.CoversWider | cpp/src/schema_registry/schema_registry.cc:244-407 | what a type covers, every extension of it covers |
| RegistryCoverage.NormalizeCovers | cpp/src/schema_registry/schema_registry_numeric.cc:71-144 | dropping numeric siblings loses nothing that was covered |
| RegistryCoverage.Represented | cpp/src/schema_registry/schema_registry_numeric.cc:105-134 | every field leaves a member of its family with its normalised type, or a float for a number |
| RegistryReconciling.MergesExactly | cpp/src/schema_registry/schema_registry.cc:357-407 | two types merge if and only if they reconcile: scalars with a common bound, a list with what its elements take, structs always, a struct with a scalar its wrapper takes or lacks |
| RegistryReconciling.ScalarsJoin | cpp/src/schema_registry/schema_registry.cc:361-378 | two scalars merge exactly when some scalar is above both, into the least such |
| RegistryReconciling.WrapperTakes | cpp/src/schema_registry/schema_registry.cc:190-239 | a struct takes a scalar by widening its first wrapper field, or by appending a nullable one, and changes nothing else |
| RegistryReconciling.VariantIsLeast | cpp/src/schema_registry/schema_registry.cc:69-85 | a new variant is nullable, has the observed type and its label, and the least version above the family that is free |
| RegistryReconciling.StepLands | cpp/src/schema_registry/schema_registry.cc:244-352 | where every field lands: its own name, else the newest exact member, else the newest member that reconciles, else a new variant, else the end |
| RegistryDepth.MergeDepth | cpp/src/core/logical_schema.cc:61-76 | the depth of a merge is the larger of the two depths, also where a list absorbs a struct |
| RegistryDepth.ParquetSchemaDepth | cpp/src/core/logical_schema.cc:162-169 | the running maximum is the greatest record depth of a field |
| RegistryDepth.NormalizeFieldsDepth | cpp/src/schema_registry/schema_registry_numeric.cc:71-144 | the numeric pass keeps the depth |
| RegistryVersions.VersionsStayDistinct | cpp/src/schema_registry/schema_registry.cc:42-85 | merges keep versions pairwise distinct in every family and level if and only if the wrapper name is not a version name |
| RegistryVersions.MergeVersions | cpp/src/schema_registry/schema_registry.cc:190-407 | with such a wrapper name, distinct versions stay distinct through a merge |
| RegistryVersions.VersionedWrapper | cpp/src/schema_registry/schema_registry.cc:190-239 | a witness that a versioned wrapper name can repeat a version |
| RegistryVersions.NormalizeFieldsVersions | cpp/src/schema_registry/schema_registry_numeric.cc:41-51 | the numeric pass's renaming makes no two names collide |
| RegistryVersions.EmitsSurvivors | cpp/src/schema_registry/schema_registry_numeric.cc:105-134 | with distinct versions no survivor is dropped as a repeat |
| RegistryNumeric.Keep | cpp/src/schema_registry/schema_registry_numeric.cc:53-103 | the one numeric field a family keeps exists exactly when the family has a float |
| RegistryNumeric.CanonicalKeeps | cpp/src/schema_registry/schema_registry_numeric.cc:41-51 | renaming keeps family and version, gives the label of the type, and is done after one application |
| RegistryNumeric.EmittedInOrder | cpp/src/schema_registry/schema_registry_numeric.cc:105-134 | survivors keep their relative order |
| RegistryNumeric.NumericSurvives | cpp/src/schema_registry/schema_registry_numeric.cc:105-134 | a numeric field leaves a numeric field of its family behind, a float if any was there |
| RegistryNumeric.EmitOneNumeric | cpp/src/schema_registry/schema_registry_numeric.cc:105-134 | afterwards a family with a scalar float has exactly one scalar number |
| RegistryNumeric.NormalizeFieldsIsNormal | cpp/src/schema_registry/schema_registry_numeric.cc:71-144 | one number per float family, names that follow types and no repeats, at every level |
| RegistryNumeric.NormalizeTwice | cpp/src/schema_registry/schema_registry_numeric.cc:71-144 | the numeric pass is idempotent on every tree |
| RegistryNumericExact.KeepExactly | cpp/src/schema_registry/schema_registry_numeric.cc:53-103 | the kept number is the first under the family's own name, or else the first float, and there is one exactly when the family has a float |
| RegistryNumericExact.LevelCollapses | cpp/src/schema_registry/schema_registry_numeric.cc:105-134 | one level becomes, in order, all that stays of it: relabelled, the kept number a float, without what repeats the last field put out under its name |
| RegistryNumericExact.NormalizesExactly | cpp/src/schema_registry/schema_registry_numeric.cc:71-144 | the same at every level, the innermost first |
| RegistrySettling.MergeRelabels | cpp/src/schema_registry/schema_registry.cc:357-407 | a merge keeps the label of its base unless it gives a scalar or nested lists of scalars |
| RegistrySettling.MergeSettles | cpp/src/schema_registry/schema_registry.cc:357-407 | siblings that would settle on one name only as equal plain types stay so through every merge, for any default key |
| RegistrySettling.NormalizeFieldsUnique | cpp/src/schema_registry/schema_registry_numeric.cc:71-144 | the numeric pass gives such siblings unique names at every level |
| RegistryReplay.Replay | cpp/src/schema_registry/schema_registry_entry.cc:46-85 | from any safe, normalised state with unique names, merging then normalising leaves nothing for the same observation to change |
| RegistryReplay.ReplayFields | cpp/src/schema_registry/schema_registry_entry.cc:46-85 | the same for lists of fields |
| RegistryReplay.ExposedDropped | cpp/src/schema_registry/schema_registry_numeric.cc:105-134 | a member that is exposed to an observation and takes it does not survive the numeric pass |
| RegistryReplay.DroppedStable | cpp/src/schema_registry/schema_registry_numeric.cc:105-134 | the observation of a dropped member is replayed onto the member that backs it, unchanged |
| RegistryReplay.DistinctNeverRepeat | cpp/src/schema_registry/schema_registry_numeric.cc:105-134 | with distinct versions no widened member becomes the repeat of another |
| RegistryReplayExact.ReplayExactly | cpp/src/schema_registry/schema_registry_entry.cc:46-85 | for every normalised state with unique names, replay is a no-op for every observation if and only if the state is safe |
| RegistryReplayExact.FloatThenNulls | cpp/src/schema_registry/schema_registry_entry.cc:46-85 | an unsafe state with distinct versions: a float, then two null variants of one family |
| RegistryReplayExact.RepeatedVersion | cpp/src/schema_registry/schema_registry_entry.cc:46-85 | an unsafe state without any number, in which one version is repeated, and the observation whose replay changes it |
| RegistryReplayExact.RepeatedName | cpp/src/schema_registry/schema_registry_entry.cc:46-85 | a normalised state that is safe but repeats a name, and an observation whose replay changes it |
| RegistryReplayExact.UnbackedChanges | cpp/src/schema_registry/schema_registry_entry.cc:46-85 | without backing, the replay of an exposed observation changes the member next in line |
| RegistryNulls.NullsFirstSafe | cpp/src/schema_registry/schema_registry.cc:121-187 | a normalised state with distinct versions whose null variants are the oldest of their families is safe |
| RegistryNulls.MergeNulls | cpp/src/schema_registry/schema_registry.cc:244-407 | merges keep null variants oldest |
| RegistryRun.ReplayIsNoOpOverRuns | cpp/src/schema_registry/schema_registry_entry.cc:31-96 | after any contract-first run of one-field-per-family inputs, feeding the last input again changes neither fields nor generation and logs nothing |
| RegistryRun.AdvanceTwice | cpp/src/schema_registry/schema_registry_entry.cc:46-85 | the same from any safe previous schema whose names are unique once normalised |
| RegistryRun.AdvanceTwiceExactly | cpp/src/schema_registry/schema_registry_entry.cc:46-85 | from a non-empty previous schema with unique names, every repeated step is a no-op if and only if the schema is safe |
| RegistryRun.NothingLost | cpp/src/schema_registry/schema_registry_entry.cc:46-85 | after any run the registry covers every schema it was fed and what it started from; alphabetical runs need unique names once normalised, of later inputs only below the top level |
| RegistryRun.CombinedUnique | cpp/src/schema_registry/schema_registry_entry.cc:46-79 | unique names of the normalised state stay unique when the normalised input has unique names, below its top level if the state is not empty |
| RegistryJoining.JoinsExactly | cpp/src/schema_registry/schema_registry_entry.cc:46-79 | for inputs with one field per family at the top level, every non-empty registry keeps unique names if and only if the input has unique names below it |
| RegistryJoining.AllAdded | cpp/src/schema_registry/schema_registry.cc:244-352 | fields of families the base does not have are appended as they are, in order |
| RegistryJoining.AllLogged | cpp/src/schema_registry/schema_registry.cc:287-302 | and logged as added in the same order, each under its family's path |
| RegistryRun.RunSortable | cpp/src/schema_registry/schema_registry_entry.cc:46-85 | names stay unique in every state of such an alphabetical run |
| RegistryRun.AdvanceCoversExactly | cpp/src/schema_registry/schema_registry_entry.cc:81-85 | an alphabetical step covers a schema if and only if the first siblings of each name in the combined schema do |
| RegistryRun.FirstKeptExactly | cpp/src/schema_registry/schema_registry_entry.cc:54-85 | an alphabetical first step covers its own input if and only if the first siblings of each settled name cover the rest |
| RegistryRun.ShadowedLost | cpp/src/schema_registry/schema_registry_entry.cc:54-85 | a field that settles on the name of an earlier sibling, and that no sibling covers, is lost |
| RegistryRun.SortingLoses | cpp/src/schema_registry/schema_registry_entry.cc:54-85 | two structs with names of their own, the second of which an alphabetical step loses |
| RegistryRun.RunVersions | cpp/src/schema_registry/schema_registry_entry.cc:46-85 | versions stay pairwise distinct through every run |
| RegistryRun.RunDepth | cpp/src/core/logical_schema.cc:61-76 | the depth after a run is the greatest depth ever observed, under the same condition |
| RegistryRun.AdvanceDepthExactly | cpp/src/schema_registry/schema_registry_entry.cc:81-85 | the depth after any alphabetical step is that of the first siblings of each name |
| RegistryRun.GenerationCountsChanges | cpp/src/schema_registry/schema_registry_document_json.cc:156-160 | the generation advances exactly when the merge changed the normalised previous tree |
| RegistryRun.FirstSchemaLogged | cpp/src/schema_registry/schema_registry_entry.cc:54-63 | a first schema is logged field by field exactly as it is published |
| RegistryRun.OrderedKeeps | cpp/src/schema_registry/schema_registry_entry.cc:81-85 | with unique names the final ordering permutes the fields and keeps normal form, depth and distinct versions |
| RegistryOrdering.SortedCoversFields | cpp/src/planning/schema_evolution.cc:203-248 | a schema sorted by name covers exactly what its first siblings of each name cover, at every level |
| RegistryOrdering.SortedFieldsDepth | cpp/src/planning/schema_evolution.cc:203-248 | and has their depth |
| RegistryOrdering.SameNormal | cpp/src/planning/schema_evolution.cc:203-248 | a permutation of a normalised schema is normalised |
| RegistrySorting.SortedFieldsForm | cpp/src/schema_registry/schema_registry_entry.cc:69-80 | normalising the sorted form of a normalised schema leaves the first field of each name, in order, at every level |
| RegistryOrdering.CoversFieldsAfterNormalize | cpp/src/schema_registry/schema_registry_numeric.cc:71-144 | what covers a schema covers its normal form |
| RegistryEngine.FieldMergeIndex.RegisterField | cpp/src/schema_registry/schema_registry.cc:42-53 | the index keeps describing the vector after a field is pushed |
| RegistryEngine.FieldMergeIndex.NextVariantName | cpp/src/schema_registry/schema_registry.cc:69-85 | the loop returns the first free variant name |
| RegistryEngine.BuildFieldMergeIndex | cpp/src/schema_registry/schema_registry.cc:57-66 | the index describes the whole vector |
| RegistryEngine.LogicalTypeEqual | cpp/src/schema_registry/schema_registry_types.cc:72-95 | the field-by-field comparison decides equality |
| RegistryEngine.FindExact | cpp/src/schema_registry/schema_registry.cc:131-146 | the newest-first loop finds an exact type when there is one |
| RegistryEngine.FindCompatible | cpp/src/schema_registry/schema_registry.cc:148-186 | the newest-first loop finds the newest compatible member, its merged type and its drifts |
| RegistryEngine.MergeIntoExistingFamilyVariant | cpp/src/schema_registry/schema_registry.cc:121-187 | updates vector and log as the family's landing says, and says whether there was one |
| RegistryEngine.MergeStructWithWrappedScalar | cpp/src/schema_registry/schema_registry.cc:190-239 | the wrapped-scalar merge and its log |
| RegistryEngine.MergeField | cpp/src/schema_registry/schema_registry.cc:255-350 | one turn of the field loop: new vector, new index and new log, as the landing of the field says (RegistryReconciling.StepLands) |
| RegistryEngine.MergeAllFields | cpp/src/schema_registry/schema_registry.cc:244-352 | the loop computes the fold of single steps and logs their events in order |
| RegistryEngine.MergeTypes | cpp/src/schema_registry/schema_registry.cc:357-407 | the recursive merge with its log; it succeeds exactly where types reconcile (RegistryReconciling.MergesExactly), and a failure leaves the log as it was |
| RegistryNumericEngine.PlanFamilies | cpp/src/schema_registry/schema_registry_numeric.cc:77-103 | one pass gives every field the plan of its family |
| RegistryNumericEngine.EmitSurvivors | cpp/src/schema_registry/schema_registry_numeric.cc:105-134 | the emitting loop keeps exactly the survivors |
| RegistryNumericEngine.NormalizeIntegerFloatFields | cpp/src/schema_registry/schema_registry_numeric.cc:71-135 | the vector is replaced by its normal form |
| RegistryEntry.MergeSchemaRegistryWithPrevious | cpp/src/schema_registry/schema_registry_entry.cc:31-96 | validation errors, first schema, strict contract and additive merge publish what the specification says |
| RegistryEntry.RefusedExactly | cpp/src/schema_registry/schema_registry_entry.cc:34-79 | a merge is refused exactly without a policy or a default key, or in strict mode without a previous schema that has every observed name |
| RegistryEntry.StrictPublishesContract | cpp/src/schema_registry/schema_registry_entry.cc:69-85 | strict mode accepts exactly inferences whose top-level names the contract has, and publishes the contract without drift: as it is, or the first field of each name in order, which is a permutation when names are unique |
| SchemaOrder.ReorderPermutes | cpp/src/planning/schema_evolution.cc:217-272 | reordering permutes the fields of every struct level under both policies |
| SchemaOrder.AlphabeticalSorted | cpp/src/planning/schema_evolution.cc:203-213 | the alphabetical form ascends by name at every level |
| SchemaOrder.AlphabeticalPermutes | cpp/src/planning/schema_evolution.cc:203-248 | the alphabetical form permutes the fields of every level, whatever the contract |
| SchemaOrder.AlphabeticalCanonical | cpp/src/planning/schema_evolution.cc:203-291 | two schemas have one alphabetical form if and only if they are equal up to recursive order, whatever their contracts |
| SchemaOrder.AlphabeticalTwice | cpp/src/planning/schema_evolution.cc:203-291 | alphabetical order is idempotent |
| SchemaEvolve.EvolveTwice | cpp/src/planning/schema_evolution.cc:294-313 | additive evolution is idempotent for both order policies |
| SchemaEvolve.ContractKeepsPlace | cpp/src/planning/schema_evolution.cc:165-248 | under contract-first order every contract field keeps its place at each described level |
| SchemaEvolve.UndescribedKept | cpp/src/planning/schema_evolution.cc:217-272 | without a contract, contract-first order leaves every type as it is |
| SchemaEvolve.MergeIncludes | cpp/src/planning/schema_evolution.cc:68-111 | an additive merge includes what it merged and keeps names unique |
| SchemaEvolve.IncludedAddsNothing | cpp/src/planning/schema_evolution.cc:68-111 | what is included adds nothing |
| SchemaContractOrder.ContractOrderHolds | cpp/src/planning/schema_evolution.cc:165-248 | at every described level the contract's fields come first, in contract order, and all others follow ascending by name |
| SchemaContractOrder.ContractFirstIs | cpp/src/planning/schema_evolution.cc:165-248 | the two parts of a contract-first struct: the contract's names it has, then exactly the names outside the contract, in order |
| SchemaContractOrder.EvolvesExactly | cpp/src/planning/schema_evolution.cc:68-313 | an evolved schema has every base field in its place with its type evolved, then exactly the inferred fields the base does not name, ascending by name, at every level |
| SchemaEvolve.StrictAccepts | cpp/src/planning/schema_evolution.cc:33-47 | strict checking accepts exactly known names, and its error names the first unknown one |
| SchemaEvolutionEngine.BuildFieldMap | cpp/src/planning/schema_evolution.cc:22-29 | the map finds the first field of every name |
| SchemaEvolutionEngine.CheckStrictCompatible | cpp/src/planning/schema_evolution.cc:33-47 | an empty contract is refused, and else the first inferred field it does not name |
| SchemaEvolutionEngine.MergeEachAdditive | cpp/src/planning/schema_evolution.cc:68-89 | the two loops compute the additive merge of fields |
| SchemaEvolutionEngine.AppendBaseOrdered | cpp/src/planning/schema_evolution.cc:165-180 | the contract's fields in contract order, with exactly their names marked used |
| SchemaEvolutionEngine.AppendNamed | cpp/src/planning/schema_evolution.cc:203-213 | the sorted fields, each reordered against its own contract |
| SchemaEvolutionEngine.ReorderStructFields | cpp/src/planning/schema_evolution.cc:217-248 | the loops compute the reordering of one struct, whose order SchemaContractOrder.ContractOrderHolds gives |
| SchemaEvolutionEngine.EvolveSchema | cpp/src/planning/schema_evolution.cc:294-313 | both modes and both orders |
| StructLayouts.CapacityFits | cpp/src/planning/struct_layout.cpp:57-60 | the entry bound keeps the doubled count and the capacity below 32 bits, and leaves a free slot |
| StructLayouts.CeilLog | cpp/src/planning/struct_layout.cpp:35-37 | the capacity is the least power of two that is not below the doubled count |
| StructLayouts.LowBits | cpp/src/planning/struct_layout.cpp:43-44 | truncating a hash to 32 bits before masking does not change its home slot |
| StructLayouts.NextIsMasked | cpp/src/planning/struct_layout.cpp:45-46 | the next slot is the next position reduced by the capacity, as the mask does |
| StructLayouts.FreeSlot | cpp/src/planning/struct_layout.cpp:45-46 | a table with fewer entries than slots has an empty slot, so probing ends |
| StructLayouts.FillOne | cpp/src/planning/struct_layout.cpp:42-50 | writing an entry where its probe stopped keeps every entry reachable from its home |
| StructLayouts.Miss | cpp/src/sanitize/planning/plan.hh:60-73 | a probe that meets an empty slot before its key shows the key is absent |
| StructLayouts.DispatchTable.constructor | cpp/src/planning/struct_layout.cpp:23-51 | every insertion ends; the table holds exactly the entries |
| StructLayouts.DispatchTable.Insert | cpp/src/planning/struct_layout.cpp:42-50 | one insertion adds exactly its entry |
| StructLayouts.DispatchTable.Find | cpp/src/sanitize/planning/plan.hh:59-73 | the probe answers as a linear scan, with or without a precomputed hash |
| StructLayouts.UniqueEntries | cpp/src/planning/struct_layout.cpp:70-88 | the entries answer every key as the first field of that name |
| StructLayouts.SearchSorted | cpp/src/sanitize/planning/plan.hh:88-93 | the lower-bound search answers as a linear scan |
| StructLayouts.StructLayout.Find | cpp/src/sanitize/planning/plan.hh:83-94 | both lookup strategies find the first field of a name, and nothing for any other key |
| ChunkStreams.FileChunkSource.NextChunk | cpp/src/ingest/chunk_source_file.cc:167-194 | the next bytes of the file at their offset, with short reads; empty exactly at the end |
| ChunkStreams.MultiPathChunkSource.NextChunk | cpp/src/ingest/chunk_source_multi_path.cc:58-108 | the next bytes of the joined stream, at the offset of the bytes delivered so far, with their path's label; empty exactly at the end |
| ChunkStreams.MultiPathChunkSource.TakeSeparatorChunk | cpp/src/ingest/chunk_source_multi_path.cc:149-168 | separators are delivered in bounded slices |
| ChunkStreams.MultiPathChunkSource.View | cpp/src/ingest/chunk_source_multi_path.cc:111-144 | the joined contents, exactly when their length is within the limit |
| ChunkStreams.MultiPathChunkSource.Reset | cpp/src/ingest/chunk_source_multi_path.cc:45-55 | nothing is delivered and nothing is open |
| ChunkStreams.Pull | cpp/src/ingest/chunk_source_multi_path.cc:58-168 | any valid request sizes and any short reads give a transcript: prefixes, offsets and labels in order |
| ChunkStreams.StreamIsJoined | cpp/src/ingest/chunk_source_multi_path.cc:58-168 | the chunks before an empty one concatenate to the joined contents, and the end is stable |
| ChunkStreams.StreamEnds | cpp/src/ingest/chunk_source_multi_path.cc:58-168 | more calls than there are bytes reach the end |
| SchemaJson.SchemaRoundTrip | cpp/src/schema_registry/schema_registry_json.cc:235-250 | decoding an encoded schema returns it when names, node count, depth and field counts are within limits, and fails otherwise |
| SchemaJson.TypeRoundTrip | cpp/src/schema_registry/schema_registry_json.cc:149-212 | the same for a type at a depth and budget, charging exactly its node count |
| SchemaJson.TypeCharged | cpp/src/schema_registry/schema_registry_json.cc:23-35 | whatever JSON is read, an accepted type is within the limits and was charged one unit per field and per type |
| SchemaJson.AcceptedSchemasRoundTrip | cpp/src/schema_registry/schema_registry_json.cc:72-212 | reading, writing and reading again changes nothing |
| SchemaJsonMeaning.TypeReadExactly | cpp/src/schema_registry/schema_registry_json.cc:149-212 | a type is read from a node if and only if the node means it, whatever else it holds, and it is within the limits |
| SchemaJsonMeaning.FieldReadExactly | cpp/src/schema_registry/schema_registry_json.cc:73-116 | the same for a field; a field that does not say whether it is nullable is |
| SchemaJsonMeaning.SchemaReadExactly | cpp/src/schema_registry/schema_registry_json.cc:119-250 | the same for a whole schema |
| SchemaJsonCanonical.CanonicalExactly | cpp/src/schema_registry/schema_registry_json_schema_write.cc:46-92 | a type with named fields has exactly one node that means it and says everything once, in the fixed order, at every level: the written one |
| SchemaJsonCanonical.CanonicalSchema | cpp/src/schema_registry/schema_registry_json_schema_write.cc:96-103 | the same for a whole schema |
| SchemaText.QuoteReads | cpp/src/internal/json_encoding/token_writer.cc:24-85 | a quoted string read by section 7 of RFC 8259 is the original string |
| SchemaText.BodyShortest | cpp/src/internal/json_encoding/token_writer.cc:24-85 | no text that section 7 of RFC 8259 reads as a string is shorter than the written one |
| SchemaText.TextReads | cpp/src/schema_registry/schema_registry_json_schema_write.cc:46-103 | every written value read by the grammar of RFC 8259 is that value, whatever follows |
| SchemaText.TextRoundTrip | cpp/src/schema_registry/schema_registry_json_schema_write.cc:96-103 | a schema is read back from its canonical text exactly when it is within the limits |
| SchemaText.TextDeterminesSchema | cpp/src/schema_registry/schema_registry_json_schema_write.cc:96-103 | two schemas have the same canonical text if and only if they are equal |
| SchemaJsonEngine.JsonWriter.AppendString | cpp/src/internal/json_encoding/token_writer.cc:67-85 | the run-copying loop appends the quoted string |
| SchemaJsonEngine.JsonWriter.AppendKey | cpp/src/internal/json_encoding/token_writer.cc:97-103 | a comma unless first, then the quoted key and a colon |
| SchemaJsonEngine.JsonWriter.AppendLogicalTypeJson | cpp/src/schema_registry/schema_registry_json_schema_write.cc:75-92 | appends the text of the encoded type |
| SchemaJsonEngine.JsonWriter.AppendLogicalFieldJson | cpp/src/schema_registry/schema_registry_json_schema_write.cc:46-59 | appends the text of the encoded field |
| SchemaJsonEngine.JsonWriter.AppendCanonicalSchemaJson | cpp/src/schema_registry/schema_registry_json_schema_write.cc:96-103 | appends the canonical text |
| SchemaJsonEngine.FindMember | cpp/src/schema_registry/schema_registry_json.cc:38-52 | the last member of a key wins |
| SchemaJsonEngine.LogicalTypeFromRegistryNode | cpp/src/schema_registry/schema_registry_json.cc:149-212 | the recursive reader returns what the decoding says and draws the budget down by it |
| SchemaJsonEngine.LogicalFieldFromRegistryNode | cpp/src/schema_registry/schema_registry_json.cc:73-116 | the same for a field |
| SchemaJsonEngine.LogicalFieldsFromRegistryArray | cpp/src/schema_registry/schema_registry_json.cc:119-145 | the same for an array, stopping at the first error |
| SchemaJsonEngine.CanonicalSchemaFromJson | cpp/src/schema_registry/schema_registry_json.cc:235-250 | the root object is read with a fresh budget, each malformed root refused |
| NameCleaning.CleanFormsAreFixed | cpp/src/planning/field_name_sanitizer.cc:144-183 | cleaning leaves a name as it is if and only if it already has the policy's form |
| NameCleaning.SnakeBase | cpp/src/planning/field_name_sanitizer.cc:151-173 | a lower-snake base is non-empty, starts with a letter and has single inner underscores only |
| NameCleaning.CleanLowerSnake | cpp/src/planning/field_name_sanitizer.cc:151-173 | the collapsing, trimming and prefixing loops compute that base, spelled as NameSpelling.SnakeSpells says |
| NameCleaning.CleanFieldNameBase | cpp/src/planning/field_name_sanitizer.cc:144-192 | each policy's base, with the default key exempt |
| NameSpelling.LoweredByAlphabet | cpp/src/planning/field_name_sanitizer.cc:44-51 | lowering sends the n-th capital to the n-th small letter and changes no other character |
| NameSpelling.SnakeSpells | cpp/src/planning/field_name_sanitizer.cc:151-173 | a lower-snake base is the filtered name, prefixed when it starts with a digit, or "field" |
| NameSpelling.SpelledAt | cpp/src/planning/field_name_sanitizer.cc:151-173 | it has exactly the letters and digits of the name, lowered and in order, adjacent where they were and one underscore apart where others stood between |
| NameSpelling.AlphaSpells | cpp/src/planning/field_name_sanitizer.cc:174-183 | a lower-alphabetic base has exactly the letters of the name, lowered and in order, or is "field" |
| NameCleaning.CleanWithSuffix | cpp/src/planning/field_name_sanitizer.cc:121-137 | the suffix loop, with its reseeding |
| NameCleaning.SuffixLetters | cpp/src/planning/field_name_sanitizer.cc:121-137 | a suffix has the asked length and consists of letters, for any hash |
| NameChoices.SuffixByNumerals | cpp/src/planning/field_name_sanitizer.cc:121-137 | a suffix is the base-26 numeral of the hash, cut off at its length; a used-up numeral is followed by that of the hash of the suffix so far |
| NameChoices.NumeralIs | cpp/src/planning/field_name_sanitizer.cc:129-131 | the numeral of a value is the one word of letters with that value and no needless zero, lowest digit first |
| SiblingNames.SiblingsDistinct | cpp/src/planning/field_name_sanitizer.cc:233-296 | sibling names come out pairwise distinct for any hash, even for equal inputs |
| SiblingNames.SiblingsInAlphabet | cpp/src/planning/field_name_sanitizer.cc:233-296 | apart from the default key every name has the policy's form, and each is its base followed by letters |
| SiblingNames.Equivariant | cpp/src/planning/field_name_sanitizer.cc:259-296 | for distinct inputs, permuting the siblings permutes the final names the same way |
| SiblingNames.DistinctBasesKept | cpp/src/planning/field_name_sanitizer.cc:257-258 | when no two bases are equal, the early return agrees with the full procedure |
| NameChoices.ChosenIsFirstFree | cpp/src/planning/field_name_sanitizer.cc:276-290 | a chosen name is the first candidate not taken: the base unless shared, longer and longer suffixes, padding |
| NameChoices.NamedExactly | cpp/src/planning/field_name_sanitizer.cc:233-296 | every sibling gets the first of its candidates that no sibling before it in name order has |
| NameOrder.BelowAtDifference | cpp/src/planning/field_name_sanitizer.cc:265-269 | one name is before another where they first differ, or where it ends |
| SchemaNames.ChooseName | cpp/src/planning/field_name_sanitizer.cc:276-290 | longer suffixes, then padding; the padding loop ends |
| SchemaNames.CleanSiblingFieldNames | cpp/src/planning/field_name_sanitizer.cc:233-296 | counting, sorting and choosing compute the siblings' final names |
| SchemaNames.SanitizedUnique | cpp/src/planning/field_name_sanitizer.cc:66-109 | after cleaning, siblings differ at every struct level of a type |
| SchemaRenaming.OnlyNamesChange | cpp/src/planning/field_name_sanitizer.cc:66-109 | cleaning a type changes nothing but names, and nothing under the preserving policy |
| SchemaRenaming.TopLevelRenamed | cpp/src/planning/field_name_sanitizer.cc:298-309 | at the top level likewise, where reserved names stay and all others are the clean siblings' |
| SchemaRenaming.SanitizeTwiceExactly | cpp/src/planning/field_name_sanitizer.cc:66-109 | cleaning a type twice is cleaning it once if and only if no level repeats a default key that letters cannot make clean |
| SchemaRenaming.CleanedTwiceExactly | cpp/src/planning/field_name_sanitizer.cc:233-296 | the same for the names of siblings |
| SchemaRenaming.RepeatedDefaultKey | cpp/src/planning/field_name_sanitizer.cc:233-296 | two siblings under such a default key whose names cleaning changes twice, for any hash |
| ReservedNames.SanitizeSchemaFieldNames | cpp/src/planning/field_name_sanitizer.cc:298-309 | the loop puts reserved names back over the cleaned top level and changes nothing else |
| ReservedNames.RestoredExactly | cpp/src/planning/field_name_sanitizer.cc:298-309 | siblings then differ at every level if and only if no reserved name is repeated or given to another sibling |
| ReservedNames.RestoredUnique | cpp/src/planning/field_name_sanitizer.cc:298-309 | they do for every hash when reserved names occur once and no base that siblings share is a reserved sibling short of six or more letters |
| ReservedNames.ReservedNameTaken | cpp/src/planning/field_name_sanitizer.cc:298-309 | with an unlucky hash two top-level siblings end up with one name |
| ReservedNames.ChosenGrows | cpp/src/planning/field_name_sanitizer.cc:276-290 | a chosen name is the base alone, or at least six letters longer exactly when the base is shared or taken |
| ReservedNames.CleanedGrows | cpp/src/planning/field_name_sanitizer.cc:233-296 | a sibling keeps its base unless others share it or another one was given it |
| EpochOrders.EpochPermutes | benchmarks/readers/linear_scaling.py:65-75 | every epoch order is a permutation, for every list and epoch |
| EpochOrders.WalkVisitsAll | benchmarks/readers/linear_scaling.py:75 | a coprime stride visits every position exactly once |
| EpochOrders.EachLeadsOnce | benchmarks/readers/linear_scaling.py:71-75 | in any n consecutive epochs each of n distinct items is first in the order exactly once |
| EpochStrides.EvenSteps | benchmarks/readers/linear_scaling.py:75 | within an epoch every item is equally far from the one before it |
| EpochStrides.EachStrideOnce | benchmarks/readers/linear_scaling.py:65-75 | in as many consecutive epochs as there are coprime distances, the distance from the first item to the second takes each of them exactly once |
| EpochStrides.StrideChanges | benchmarks/readers/linear_scaling.py:68-75 | from three items on, consecutive epochs have different distances |
| EpochStrides.LeaderMoves | benchmarks/readers/linear_scaling.py:70-75 | the first epoch starts with the first item, each next one further on by the least rotation above half the length that is coprime to it |
| EpochStrides.StrideRanks | benchmarks/readers/linear_scaling.py:68-69 | the distance of an epoch is coprime to the length, and as many coprime distances are smaller as the epoch leaves over, counted in rounds of all of them |
| EpochStrides.GcdDivides | benchmarks/readers/linear_scaling.py:69 | the common divisor that the strides are chosen by divides both numbers |
| EpochOrders.FindRotation | benchmarks/readers/linear_scaling.py:70-72 | the rotation search ends, at the latest one past the length |
| EpochOrders.ComputeEpochOrder | benchmarks/readers/linear_scaling.py:65-75 | the order of an epoch, short lists included; its steps are those of EpochStrides.EachStrideOnce |
| EpochOrders.MeasureRoundRobin | benchmarks/readers/linear_scaling.py:78-98 | every key gets exactly one sample per measured epoch and none from warm-ups, each the duration of its own call |
| FuzzMutator.ExactlyUniform | cpp/fuzz/standalone_main.cc:220-226 | every residue below the bound is the image of equally many accepted 64-bit words |
| FuzzMutator.DrawsOne | cpp/fuzz/standalone_main.cc:215-227 | a draw is determined by the words: its value and the number of words it uses |
| FuzzMutator.Engine.RandomBelow | cpp/fuzz/standalone_main.cc:215-227 | the first accepted word reduced by the bound, every word before it refused; a zero bound is refused |
| FuzzMutator.Engine.RandomIndex | cpp/fuzz/standalone_main.cc:230-238 | the draw below the size, and zero without a draw for an empty range |
| FuzzMutator.Input.Draw | cpp/fuzz/standalone_main.cc:244-318 | each operation draws exactly its edit: every position, length and byte is the next draw of its own bound, or nothing when the guard fails |
| FuzzMutator.Input.Mutate | cpp/fuzz/standalone_main.cc:241-319 | the operation is drawn first, its drawn edit is applied in place, and the length limit is kept |
| FuzzMutator.EditsBytes | cpp/fuzz/standalone_main.cc:250-318 | what every edit replaces, byte by byte, and that every other byte stays |
| FuzzMutator.RunStaysBounded | cpp/fuzz/standalone_main.cc:241-319 | over any run of mutations every input stays within the limit |
| FuzzMutator.FlipUndone | cpp/fuzz/standalone_main.cc:250-256 | a flip is undone by the same flip and by no other |
| FuzzMutator.InsertUndone | cpp/fuzz/standalone_main.cc:262-268 | an insertion is undone by exactly the erasures within the run of equal bytes that it joined |

## Left out

- RegistryDriftEvents.EventsExact: asks for one field per family and for names on non-null fields, because a family observed twice in one input passes through types in between (RegistryDriftEvents.PassesBetween); RegistryDriftEvents.EventsFound covers every input, and RegistryDriftEvents.WideningReported and AppendReported give the exact types of every single step.
- SchemaContractOrder.EvolvesExactly: stated for contracts whose names are unique at every level; a repeated name stands for its first field.
- Version numbers are unbounded: names whose version does not fit a C++ `int`, and overflow of the next version, are not modelled.
- Trees are well formed: every field has a type and every list an element, so the branches for missing ones are not modelled.
- Drift events carry the types before and after; their rendering to text, timestamps and the drift JSON are not modelled.
- The registry document around the canonical schema is a number and a list of fields here: the text scan for the generation, the variant listing and the byte limit on the whole document are not modelled.
- Replay under alphabetical registry order: sorting changes which variant is newest, so replay is stated for contract-first order.
- RegistryReplayExact.ReplayExactly: stated for normalised states in which no two siblings have the same name, and for a default key that is not a version name. Every state that a contract-first step publishes is normalised; for a previous schema in which two siblings settle on one name the property can fail (RegistryReplayExact.RepeatedName), and the exact condition there is not stated.
- RegistryRun.AdvanceTwice: the same conditions on a non-empty previous schema, also in RegistryRun.AdvanceTwiceExactly.
- RegistryRun.NothingLost: for later steps of an alphabetical run, coverage has its if and only if on the combined schema (RegistryRun.AdvanceCoversExactly), and unique names have theirs on inputs with one field per family at the top level (RegistryJoining.JoinsExactly).
- StructLayouts.StructLayout.Find: the alternate-name lists of flattened and versioned names are not modelled; field indices are unbounded, and the hash is any function without zeros.
- ChunkStreams.MultiPathChunkSource.NextChunk: nothing is promised after the error for an offset beyond the address space, because the bytes of that read are lost.
- Files are immutable byte sequences whose reads may be short; opening and reading errors, compressed or transcoded input and memory mapping are not modelled.
- SchemaText.TextReads: reads text without insignificant whitespace and without numbers, which the writer never produces; the on-demand JSON parser itself is not modelled.
- ReservedNames.RestoredUnique: a sufficient condition; that every schema outside it clashes for some hash is not stated.
- A character stands for a byte in name cleaning, so a multi-byte character counts as several.
- Library sorts are modelled as insertion sorts; only their result matters here.
- FuzzMutator.Engine.RandomBelow: asks that the engine never stops producing words in the upper half of its range; a constant stream of rejected words would make the loop run for ever.
- EpochOrders.MeasureRoundRobin: the measured calls have no effects of their own here; only the clock readings around them are kept.
- Options deserialisation, temporal parsing, the Python facade, cloud clients and the other benchmarks: input and output plumbing, or easy members.
