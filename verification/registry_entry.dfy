/** The public merge operation: validate, normalise, merge, normalise, order, publish. */
module RegistryEntry {
  import opened Basics
  import opened LogicalSchemas
  import opened SchemaEvolution
  import opened SchemaOrder
  import opened SchemaEvolve
  import opened SchemaEvolutionEngine
  import opened RegistryDrift
  import opened RegistryNumeric
  import opened RegistryEngine
  import opened RegistryNumericEngine
  import opened RegistryOrdering
  import opened RegistrySorting
  import opened RegistryRun

  datatype MergeInput = MergeInput(
    policy: string, dk: string, mode: EvolutionMode, order: FieldOrder, inferred: seq<LogicalField>)

  datatype Published = Published(fields: seq<LogicalField>, drifts: seq<DriftEvent>, generation: nat)

  /** What a merge publishes, or why it is rejected. */
  function Publish(input: MergeInput, previous: Option<seq<LogicalField>>, generation: nat): Result<Published> {
    var base := if previous.Some? then previous.value else [];
    if input.policy == "" then Err("schema registry merge: field_name_policy is empty")
    else if input.dk == "" then Err("schema registry merge: default_key_name is empty")
    else if base == [] && input.mode == Strict then
      Err("Strict schema evolution requires a non-empty canonical schema")
    else if input.mode == Strict then
      match Evolve(NormalizeFields(base), NormalizeFields(input.inferred), Strict, input.order)
      case Ok(s) => Ok(Published(NormalizeFields(s), [], generation))
      case Err(m) => Err(m)
    else
      var next := Advance(input.dk, input.order, Registry(base, generation), input.inferred);
      Ok(Published(next.fields, Drifts(input.dk, base, input.inferred), next.generation))
  }

  method NormalizeSchema(s: seq<LogicalField>) returns (r: seq<LogicalField>)
    ensures r == NormalizeFields(s)
  {
    var fields := new FieldVector(s);
    NormalizeIntegerFloatFields(fields);
    r := fields.items;
  }

  /** Logs every field of a first schema. */
  method LogFirstSchema(s: seq<LogicalField>, drifts: DriftLog)
    modifies drifts
    ensures drifts.events == old(drifts.events) + FirstDrifts(s)
  {
    for k := 0 to |s|
      invariant drifts.events == old(drifts.events) + FirstDrifts(s)[..k]
    {
      drifts.Append([DriftEvent(s[k].name, s[k].name, NewlyAdded, None, s[k].typ)]);
      assert FirstDrifts(s)[..k + 1] == FirstDrifts(s)[..k] + [FirstDrifts(s)[k]];
    }
    assert FirstDrifts(s)[..|s|] == FirstDrifts(s);
  }

  /** Starts a registry, or merges into its normalised previous fields. */
  method CombineAdditive(dk: string, base: seq<LogicalField>, inferred: seq<LogicalField>, drifts: DriftLog)
    returns (schema: seq<LogicalField>)
    requires drifts.events == []
    modifies drifts
    ensures schema == Combined(dk, base, inferred)
    ensures drifts.events == Drifts(dk, base, inferred)
  {
    hide NormalizeFields;
    var observed := NormalizeSchema(inferred);
    if base == [] {
      LogFirstSchema(observed, drifts);
      schema := observed;
    } else {
      var canonical := NormalizeSchema(base);
      schema := MergeAllFields(dk, canonical, observed, "", drifts);
    }
    schema := NormalizeSchema(schema);
  }

  method MergeSchemaRegistryWithPrevious(input: MergeInput, previous: Option<seq<LogicalField>>, generation: nat)
    returns (r: Result<Published>)
    ensures r == Publish(input, previous, generation)
  {
    hide Combined, Drifts, NormalizeFields, Evolve, ReorderFields;
    if input.policy == "" { return Err("schema registry merge: field_name_policy is empty"); }
    if input.dk == "" { return Err("schema registry merge: default_key_name is empty"); }
    var drifts := new DriftLog();
    var base := if previous.Some? then previous.value else [];
    if base == [] && input.mode == Strict {
      return Err("Strict schema evolution requires a non-empty canonical schema");
    }
    if input.mode == Strict {
      var canonical := NormalizeSchema(base);
      var inferred := NormalizeSchema(input.inferred);
      var evolved := EvolveSchema(canonical, inferred, Strict, input.order);
      if evolved.Err? { return Err(evolved.error); }
      var schema := NormalizeSchema(evolved.value);
      return Ok(Published(schema, drifts.events, generation));
    }
    var schema := CombineAdditive(input.dk, base, input.inferred, drifts);
    if input.order == Alphabetically { schema := ReorderSchemaFields(schema, [], input.order); }
    return Ok(Published(schema, drifts.events, generation + if drifts.events == [] then 0 else 1));
  }

  // ----------------------------------------------------------------- strictness

  /** A merge is refused without a policy or a default key, and in strict mode without a previous schema that
      has every observed name; nothing else is. */
  lemma {:induction false} RefusedExactly(input: MergeInput, previous: Option<seq<LogicalField>>, generation: nat)
    ensures var base := if previous.Some? then previous.value else [];
            Publish(input, previous, generation).Err? <==>
            || input.policy == "" || input.dk == ""
            || (input.mode == Strict &&
                (base == [] || exists f :: f in NormalizeFields(input.inferred) && !Has(NormalizeFields(base), f.name)))
  {
    hide NormalizeFields, Advance, Drifts, CheckStrict, ReorderSchema;
    var base := if previous.Some? then previous.value else [];
    if base != [] {
      StaysNonEmpty(base);
      StrictAccepts(NormalizeFields(base), NormalizeFields(input.inferred), 0);
    }
  }

  /** The first field of each name, in order; with unique names the whole contract. */
  ghost predicate SortedContract(p: seq<LogicalField>, r: seq<LogicalField>) {
    && SortedFields(r) && SameFields(UnshadowedFields(p, |p|), r)
    && (UniqueFields(p) ==> SameFields(p, r))
  }

  lemma {:induction false} ContractSorted(p: seq<LogicalField>)
    requires p != [] && NormalFields(p)
    ensures SortedContract(p, NormalizeFields(ReorderSchema(p, p, Alphabetically)))
  {
    hide UniqueFields, UnshadowedFields, SameFields, SortedFields, NormalFields, ReorderFields;
    SortedFieldsForm(p, Some(Struct(p)));
    if UniqueFields(p) {
      UniqueFieldsUnshadowed(p, |p|);
      assert p[..|p|] == p;
    }
  }

  /** Strict mode accepts exactly the inferences whose top-level names the contract has. It publishes the
      normalised contract with no drift and no new generation: as it is, or the first field of each name
      in order, which is the whole contract when names are unique. */
  lemma {:induction false} StrictPublishesContract(input: MergeInput, previous: seq<LogicalField>, generation: nat)
    requires input.mode == Strict && input.policy != "" && input.dk != "" && previous != []
    ensures var p, r := NormalizeFields(previous), Publish(input, Some(previous), generation);
            && (r.Ok? <==> forall f :: f in NormalizeFields(input.inferred) ==> Has(p, f.name))
            && (r.Ok? ==> r.value.drifts == [] && r.value.generation == generation)
            && (r.Ok? && input.order == SchemaContractFirst ==> r.value.fields == p)
            && (r.Ok? && input.order == Alphabetically ==> SortedContract(p, r.value.fields))
  {
    hide SortedContract, ReorderSchema;
    var p, i := NormalizeFields(previous), NormalizeFields(input.inferred);
    StaysNonEmpty(previous);
    StrictAccepts(p, i, 0);
    assert (forall f :: f in i ==> Has(p, f.name)) <==> (forall j :: 0 <= j < |i| ==> Has(p, i[j].name));
    NormalizeTwice(previous);
    NormalizeFieldsIsNormal(previous);
    ContractSorted(p);
  }
}
