/**
 * The container value the tool hands to the (foreign) Setup.bin encoder, and
 * the checks it makes on the value the (foreign) decoder returns. The encoder
 * and decoder themselves, and the bytes between them, are not modelled.
 */
module Container {
  import opened Results
  import opened Values
  import opened Registry

  /** File format version 4, the only one the tool writes or reads. */
  const Version4: nat := 4
  /** Consume-records flag 1: the firmware does not consume the records. */
  const DoNotConsumeRecords: nat := 1
  /** Record type identifier 1: a data record (0 would be an invalid record). */
  const DataRecord: nat := 1
  /** Record flag bits. */
  const ValidFlag: bv8 := 1
  const ScrambledFlag: bv8 := 2

  datatype RecordVariable = RecordVariable(moduleid: nat, varid: nat, value: Value)

  datatype Record = Record(typeIdentifier: nat, flags: bv8, variables: seq<RecordVariable>)

  datatype SetupBin = SetupBin(fileType: nat, consumeRecordsFlag: nat, records: seq<Record>)

  /** A (name, value) pair of the tool's variable list. */
  type NamedValue = (string, Value)

  /** Pair `i` is the first whose name the registry does not know. */
  ghost predicate FirstUnknown<D>(registry: VariableTable<D>, variables: seq<NamedValue>, i: nat)
  {
    i < |variables| && variables[i].0 !in registry
    && forall j :: 0 <= j < i ==> variables[j].0 in registry
  }

  /** The record variable `v` is the pair `p` resolved through the registry: its ids, its value unchanged. */
  ghost predicate Resolves<D>(registry: VariableTable<D>, p: NamedValue, v: RecordVariable)
  {
    p.0 in registry && v == RecordVariable(registry[p.0].moduleId, registry[p.0].id, p.1)
  }

  /** The `variables.map(...)` of `createAmtSetupBin`: resolves each pair in order, failing at the first unknown name. */
  function RecordVariables<D>(registry: VariableTable<D>, variables: seq<NamedValue>): (r: Result<seq<RecordVariable>>)
    ensures r.Success? <==> forall i :: 0 <= i < |variables| ==> variables[i].0 in registry
    ensures r.Failure? ==> exists i: nat :: FirstUnknown(registry, variables, i) && r.error == UnknownVariableName(variables[i].0)
    ensures r.Success? ==>
              && |r.value| == |variables|
              && forall i :: 0 <= i < |variables| ==> Resolves(registry, variables[i], r.value[i])
  {
    if variables == [] then Success([])
    else
      var (name, value) := variables[0];
      if name !in registry then
        assert FirstUnknown(registry, variables, 0);
        Failure(UnknownVariableName(name))
      else
        var definition := registry[name];
        match RecordVariables(registry, variables[1..])
        case Failure(e) =>
          ghost var k: nat :| FirstUnknown(registry, variables[1..], k) && e == UnknownVariableName(variables[1..][k].0);
          assert FirstUnknown(registry, variables, k + 1);
          Failure(e)
        case Success(rest) =>
          Success([RecordVariable(definition.moduleId, definition.id, value)] + rest)
  }

  /**
   * `createAmtSetupBin` up to the call of the encoder: the version 4 container
   * with the do-not-consume flag and one valid, scrambled data record holding
   * the resolved variables.
   */
  function CreateSetup<D>(registry: VariableTable<D>, variables: seq<NamedValue>): (r: Result<SetupBin>)
    ensures r.Success? <==> forall i :: 0 <= i < |variables| ==> variables[i].0 in registry
    ensures r.Failure? ==> exists i: nat :: FirstUnknown(registry, variables, i) && r.error == UnknownVariableName(variables[i].0)
    ensures r.Success? ==>
      && r.value.fileType == 4 && r.value.consumeRecordsFlag == 1 && |r.value.records| == 1
      && r.value.records[0].typeIdentifier == 1 && r.value.records[0].flags == 3
    ensures r.Success? ==>
              && |r.value.records[0].variables| == |variables|
              && forall i :: 0 <= i < |variables| ==> Resolves(registry, variables[i], r.value.records[0].variables[i])
  {
    match RecordVariables(registry, variables)
    case Failure(e) => Failure(e)
    case Success(recordVariables) =>
      Success(SetupBin(Version4, DoNotConsumeRecords,
                       [Record(DataRecord, ValidFlag | ScrambledFlag, recordVariables)]))
  }

  /** The parts of the decoder's result that the tool reads. */
  datatype DecodedVariable = DecodedVariable(desc: string, value: Value)

  datatype DecodedRecord = DecodedRecord(variables: seq<DecodedVariable>)

  datatype DecodedSetupBin = DecodedSetupBin(fileType: int, records: seq<DecodedRecord>)

  /**
   * `readAmtSetupBin` after the decoder: `None` stands for a falsy decoder
   * result. Checks, in order, that there is a result, that it is version 4 and
   * that it holds exactly one record, and returns that record's variables as
   * (description, value) pairs.
   */
  function ReadSetup(decoded: Option<DecodedSetupBin>): (r: Result<seq<NamedValue>>)
    ensures decoded.None? ==> r == Failure(LoadFailed)
    ensures decoded.Some? && decoded.value.fileType != 4 ==> r == Failure(UnsupportedVersion)
    ensures decoded.Some? && decoded.value.fileType == 4 && |decoded.value.records| != 1 ==>
      r == Failure(UnsupportedRecordCount)
    ensures r.Success? <==> decoded.Some? && decoded.value.fileType == 4 && |decoded.value.records| == 1
    ensures r.Success? ==>
              && |r.value| == |decoded.value.records[0].variables|
              && forall i :: 0 <= i < |r.value| ==>
                   r.value[i] == (decoded.value.records[0].variables[i].desc, decoded.value.records[0].variables[i].value)
  {
    match decoded
    case None => Failure(LoadFailed)
    case Some(d) =>
      if d.fileType != Version4 as int then Failure(UnsupportedVersion)
      else if |d.records| != 1 then Failure(UnsupportedRecordCount)
      else
        var vs := d.records[0].variables;
        Success(seq(|vs|, i requires 0 <= i < |vs| => (vs[i].desc, vs[i].value)))
  }

  /**
   * `decoded` is what a decoder that inverts the encoder returns for `c`: the
   * same version and records, each variable with its value and the
   * description `describe` gives its ids.
   */
  ghost predicate DecodesTo(c: SetupBin, describe: (nat, nat) -> string, decoded: DecodedSetupBin)
  {
    && decoded.fileType == c.fileType as int
    && |decoded.records| == |c.records|
    && forall k :: 0 <= k < |c.records| ==>
         && |decoded.records[k].variables| == |c.records[k].variables|
         && forall i :: 0 <= i < |c.records[k].variables| ==>
              var v := c.records[k].variables[i];
              decoded.records[k].variables[i] == DecodedVariable(describe(v.moduleid, v.varid), v.value)
  }

  /**
   * Reading back what was created gives the original list, provided the
   * decoder inverts the encoder and describes each registered id pair by its
   * registry name.
   */
  lemma ReadAfterCreate<D>(registry: VariableTable<D>, variables: seq<NamedValue>,
                           describe: (nat, nat) -> string, decoded: DecodedSetupBin)
    requires CreateSetup(registry, variables).Success?
    requires forall n :: n in registry ==> describe(registry[n].moduleId, registry[n].id) == n
    requires DecodesTo(CreateSetup(registry, variables).value, describe, decoded)
    ensures ReadSetup(Some(decoded)) == Success(variables)
  {
    var c := CreateSetup(registry, variables).value;
    var r := ReadSetup(Some(decoded));
    forall i | 0 <= i < |variables| ensures r.value[i] == variables[i] {
      assert Resolves(registry, variables[i], c.records[0].variables[i]);
    }
    assert r.value == variables;
  }
}
