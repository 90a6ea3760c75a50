/**
 * JsonNullRemover: removes from each JSON record's top-level object the fields that are
 * null or whose text trims to nothing.
 */
module JsonNullRemover {

  import opened Wrappers
  import opened Document
  import opened Flow
  import Helper

  /**
   * What onTrigger does with one input: the record's text is parsed, taken as an object
   * and pruned.
   */
  function Trigger(input: Option<FlowFile>): Outcome
  {
    if IsRejected(input) then Rejected
    else
      var flowFile := input.value;
      Route(flowFile,
        match ParseString(flowFile.content)
        case Err(e) => Err(e)
        case Ok(element) =>
          match GetAsJsonObject(element)
          case Err(e) => Err(e)
          case Ok(ms) =>
            match Helper.Prune(ms)
            case Err(e) => Err(e)
            case Ok(r) => Ok(Written(JObj(r))))
  }

  /** `onTrigger` for one input flow file. */
  method OnTrigger(input: Option<FlowFile>) returns (outcome: Outcome)
    requires ValidInput(input)
    ensures outcome == Trigger(input)
  {
    if input.None? || input.value.size == 0 {
      return Rejected;
    }
    var flowFile := input.value;
    var element := ParseString(flowFile.content);
    if element.Err? {
      return Route(flowFile, Err(element.error));
    }
    var fields := GetAsJsonObject(element.value);
    if fields.Err? {
      return Route(flowFile, Err(fields.error));
    }
    var jsonObject := new JsonObject(fields.value);
    var thrown := Helper.RemoveNullEmptyAndWhitespaceFields(jsonObject);
    if thrown.Some? {
      return Route(flowFile, Err(thrown.value));
    }
    return Route(flowFile, Ok(Written(JObj(jsonObject.members))));
  }

  /* ---------- what onTrigger promises ---------- */

  /** No flow file, or an empty one, is rejected before any transform. */
  lemma RejectsEmptyInput(input: Option<FlowFile>)
    ensures Trigger(input) == Rejected <==> IsRejected(input)
  {
  }

  /**
   * For an object-rooted record whose fields are all null or readable as text, the output
   * keeps exactly the fields that are not null and do not trim to nothing, in their order
   * and with their values.
   */
  lemma SuccessKeepsCleanFields(flowFile: FlowFile)
    requires flowFile.size > 0 && flowFile.content.Parsed? && WellFormed(flowFile.content.doc)
    requires flowFile.content.doc.JObj?
    requires forall i :: 0 <= i < |flowFile.content.doc.members| ==>
               Helper.FieldVerdict(flowFile.content.doc.members[i].1).Ok?
    ensures Trigger(Some(flowFile)) == Success(JObj(Helper.Kept(flowFile.content.doc.members)))
    ensures forall i :: 0 <= i < |Helper.Kept(flowFile.content.doc.members)| ==>
              Helper.FieldVerdict(Helper.Kept(flowFile.content.doc.members)[i].1) == Ok(false)
  {
    Helper.PruneMeaning(flowFile.content.doc.members);
    Helper.KeptClean(flowFile.content.doc.members);
    Helper.KeptNullFree(flowFile.content.doc.members);
  }

  /**
   * The NullPointerException handler is never reached (`jsonObject` is never null and
   * the pruning raises none), so no record is routed to failure.
   */
  lemma NeverRoutesToFailure(input: Option<FlowFile>)
    requires ValidInput(input)
    ensures !Trigger(input).Failure?
  {
    if !IsRejected(input) && input.value.content.Parsed? && input.value.content.doc.JObj? {
      var ms := input.value.content.doc.members;
      Helper.PruneMeaning(ms);
      if Helper.Prune(ms).Err? {
        var i :| 0 <= i < |ms| && Helper.FieldVerdict(ms[i].1) == Err(Helper.Prune(ms).error) &&
                 forall j :: 0 <= j < i ==> Helper.FieldVerdict(ms[j].1).Ok?;
        assert Helper.FieldVerdict(ms[i].1).Err?;
      }
    }
  }

  /**
   * Blank text (parsed as JSON null) and a root other than an object fail in
   * getAsJsonObject with IllegalStateException; text that is not JSON fails in the parser.
   * Neither is caught.
   */
  lemma NonObjectEscapes(flowFile: FlowFile)
    requires flowFile.size > 0
    ensures flowFile.content.Blank? || (flowFile.content.Parsed? && !flowFile.content.doc.JObj?) ==>
              Trigger(Some(flowFile)) == Escaped(IllegalState)
    ensures flowFile.content.Malformed? ==> Trigger(Some(flowFile)) == Escaped(JsonSyntax)
  {
  }

  /**
   * A field holding a nested object is never cleaned recursively: when it is the first
   * field that cannot be read as text, the UnsupportedOperationException of getAsString
   * escapes.
   */
  lemma NestedObjectEscapes(flowFile: FlowFile, i: nat)
    requires flowFile.size > 0 && flowFile.content.Parsed? && WellFormed(flowFile.content.doc)
    requires flowFile.content.doc.JObj? && i < |flowFile.content.doc.members|
    requires flowFile.content.doc.members[i].1.JObj?
    requires forall j :: 0 <= j < i ==> Helper.FieldVerdict(flowFile.content.doc.members[j].1).Ok?
    ensures Trigger(Some(flowFile)) == Escaped(UnsupportedOperation)
  {
    var ms := flowFile.content.doc.members;
    Helper.CollectMeaning(ms, i + 1);
    assert Helper.Collect(ms, i + 1) == Err(UnsupportedOperation) by {
      Helper.CollectMeaning(ms, i);
    }
    Helper.CollectErrSticky(ms, i + 1, |ms|);
  }

  /** Cleaning an already cleaned record gives the same record. */
  lemma TriggerIdempotent(flowFile: FlowFile, size: nat)
    requires flowFile.size > 0 && size > 0 && flowFile.content.Parsed? && WellFormed(flowFile.content.doc)
    requires Trigger(Some(flowFile)).Success?
    ensures Trigger(Some(FlowFile(size, Parsed(Trigger(Some(flowFile)).doc)))) == Trigger(Some(flowFile))
  {
    var ms := flowFile.content.doc.members;
    Helper.PruneMeaning(ms);
    Helper.KeptNullFree(ms);
    Helper.PruneIdempotent(ms);
  }

  /**
   * The sample record `{"name":"John","age":30,"address":null,"phone":"  ","email":" "}`
   * produces exactly one success output, `{"name":"John","age":30}`.
   */
  lemma RemoverSample()
    ensures Trigger(Some(FlowFile(71, Parsed(JObj([("name", JStr("John")), ("age", JNum("30")), ("address", JNull),
                                                   ("phone", JStr("  ")), ("email", JStr(" "))])))))
         == Success(JObj([("name", JStr("John")), ("age", JNum("30"))]))
  {
    Helper.PruneSample();
    var out := JObj([("name", JStr("John")), ("age", JNum("30"))]);
    assert NullFree(out);
    WrittenOfNullFree(out);
  }
}
