/**
 * RangeConverter: reads a number from one field of each JSON record and writes the
 * label of its bucket of width 10 (after scaling by 100) into another field.
 */
module RangeConverter {

  import opened Wrappers
  import opened Document
  import opened Flow
  import Helper

  /** Property names and their defaults. */
  const KeyProperty: string := "REGEX_NAME"
  const KeyDefault: string := "@(.*)$"
  const NewKeyProperty: string := "FIELD_NAME"
  const NewKeyDefault: string := "cc_merch_name"

  /**
   * The transform of one parsed object: `get(specifiedKey)` is null when the field is
   * missing, so `getAsDouble()` raises NullPointerException; otherwise the number's range
   * label is written under `specifiedNewKey`.
   */
  function Convert(ms: seq<Member>, specifiedKey: string, specifiedNewKey: string,
                   parseDouble: string -> Option<real>): Result<seq<Member>, Exception>
  {
    match Lookup(ms, specifiedKey)
    case None => Err(NullPointer)
    case Some(v) =>
      match GetAsDouble(v, parseDouble)
      case Err(e) => Err(e)
      case Ok(inputValue) => Ok(Put(ms, specifiedNewKey, JStr(Helper.ConvertToRange(inputValue))))
  }

  /** What onTrigger does with one input, given the scheduled configuration. */
  function Trigger(input: Option<FlowFile>, specifiedKey: string, specifiedNewKey: string,
                   parseDouble: string -> Option<real>): Outcome
  {
    if IsRejected(input) then Rejected
    else
      var flowFile := input.value;
      Route(flowFile,
        match FromJsonObject(flowFile.content)
        case Err(e) => Err(e)
        case Ok(None) => Err(NullPointer)
        case Ok(Some(ms)) =>
          match Convert(ms, specifiedKey, specifiedNewKey, parseDouble)
          case Err(e) => Err(e)
          case Ok(r) => Ok(Written(JObj(r))))
  }

  /** The processor with the configuration loaded by onScheduled. */
  class Processor {
    var specifiedKey: string
    var specifiedNewKey: string

    /** A processor that has been scheduled with `context`. */
    constructor (context: map<string, string>)
      ensures specifiedKey == PropertyValue(context, KeyProperty, KeyDefault)
      ensures specifiedNewKey == PropertyValue(context, NewKeyProperty, NewKeyDefault)
    {
      specifiedKey := PropertyValue(context, KeyProperty, KeyDefault);
      specifiedNewKey := PropertyValue(context, NewKeyProperty, NewKeyDefault);
    }

    /** `onScheduled`: loads the source and target field names once, for every later record. */
    method OnScheduled(context: map<string, string>)
      modifies this
      ensures specifiedKey == PropertyValue(context, KeyProperty, KeyDefault)
      ensures specifiedNewKey == PropertyValue(context, NewKeyProperty, NewKeyDefault)
    {
      specifiedKey := PropertyValue(context, KeyProperty, KeyDefault);
      specifiedNewKey := PropertyValue(context, NewKeyProperty, NewKeyDefault);
    }

    /** `onTrigger` for one input flow file. */
    method OnTrigger(input: Option<FlowFile>, parseDouble: string -> Option<real>) returns (outcome: Outcome)
      requires ValidInput(input)
      ensures outcome == Trigger(input, specifiedKey, specifiedNewKey, parseDouble)
    {
      if input.None? || input.value.size == 0 {
        return Rejected;
      }
      var flowFile := input.value;
      var parsed := FromJsonObject(flowFile.content);
      if parsed.Err? {
        return Route(flowFile, Err(parsed.error));
      }
      if parsed.value.None? {
        // jsonObject.get(...) on a null jsonObject
        return Route(flowFile, Err(NullPointer));
      }
      assert UniqueKeys(parsed.value.value);
      var jsonObject := new JsonObject(parsed.value.value);
      var element := jsonObject.Get(specifiedKey);
      if element.None? {
        // getAsDouble() on the null that get returns for a missing field
        return Route(flowFile, Err(NullPointer));
      }
      var inputValue := GetAsDouble(element.value, parseDouble);
      if inputValue.Err? {
        return Route(flowFile, Err(inputValue.error));
      }
      var range := Helper.ConvertToRange(inputValue.value);
      jsonObject.AddProperty(specifiedNewKey, JStr(range));
      return Route(flowFile, Ok(Written(JObj(jsonObject.members))));
    }
  }

  /* ---------- what onTrigger promises ---------- */

  /** No flow file, or an empty one, is rejected before any transform. */
  lemma RejectsEmptyInput(input: Option<FlowFile>, specifiedKey: string, specifiedNewKey: string,
                          parseDouble: string -> Option<real>)
    ensures Trigger(input, specifiedKey, specifiedNewKey, parseDouble) == Rejected <==> IsRejected(input)
  {
  }

  /**
   * On success the output is the input object with the range label of the source field's
   * number under the target field, as Gson writes it: the target keeps its position when
   * it exists and is appended otherwise, the target reads as the label, and every other
   * field reads as in the written input (a null field is left out).
   */
  lemma SuccessWritesRange(flowFile: FlowFile, specifiedKey: string, specifiedNewKey: string,
                           parseDouble: string -> Option<real>)
    requires flowFile.size > 0 && flowFile.content.Parsed? && WellFormed(flowFile.content.doc)
    requires Trigger(Some(flowFile), specifiedKey, specifiedNewKey, parseDouble).Success?
    ensures var ms := flowFile.content.doc.members;
            var o := Trigger(Some(flowFile), specifiedKey, specifiedNewKey, parseDouble);
            flowFile.content.doc.JObj? && Lookup(ms, specifiedKey).Some? &&
            GetAsDouble(Lookup(ms, specifiedKey).value, parseDouble).Ok? &&
            var rangeLabel := Helper.ConvertToRange(GetAsDouble(Lookup(ms, specifiedKey).value, parseDouble).value);
            var r := Put(ms, specifiedNewKey, JStr(rangeLabel));
            o.doc == Written(JObj(r)) &&
            (HasKey(ms, specifiedNewKey) ==> |r| == |ms|) &&
            (!HasKey(ms, specifiedNewKey) ==> r == ms + [(specifiedNewKey, JStr(rangeLabel))]) &&
            Lookup(o.doc.members, specifiedNewKey) == Some(JStr(rangeLabel)) &&
            (forall k :: k != specifiedNewKey ==> Lookup(o.doc.members, k) == Lookup(Written(JObj(ms)).members, k))
  {
    var ms := flowFile.content.doc.members;
    var rangeValue := JStr(Helper.ConvertToRange(GetAsDouble(Lookup(ms, specifiedKey).value, parseDouble).value));
    PutFrame(ms, specifiedNewKey, rangeValue);
    var r := Put(ms, specifiedNewKey, rangeValue);
    forall k ensures k != specifiedNewKey ==> Lookup(Written(JObj(r)).members, k) == Lookup(Written(JObj(ms)).members, k) {
      WrittenLookup(r, k);
      WrittenLookup(ms, k);
    }
    WrittenLookup(r, specifiedNewKey);
  }

  /**
   * A missing source field raises NullPointerException, so the original flow file goes
   * to failure; so does blank text, which Gson reads as a null object.
   */
  lemma MissingKeyGoesToFailure(flowFile: FlowFile, specifiedKey: string, specifiedNewKey: string,
                                parseDouble: string -> Option<real>)
    requires flowFile.size > 0
    requires flowFile.content.Blank? ||
             (flowFile.content.Parsed? && flowFile.content.doc.JObj? && !HasKey(flowFile.content.doc.members, specifiedKey))
    ensures Trigger(Some(flowFile), specifiedKey, specifiedNewKey, parseDouble) == Failure(flowFile)
  {
  }

  /**
   * Failure happens only for those two causes; a value that is not a number
   * (NumberFormatException), a null or object value (UnsupportedOperationException) and
   * text that is not a JSON object escape onTrigger.
   */
  lemma FailureOnlyOnNull(input: Option<FlowFile>, specifiedKey: string, specifiedNewKey: string,
                          parseDouble: string -> Option<real>)
    ensures var o := Trigger(input, specifiedKey, specifiedNewKey, parseDouble);
            o.Failure? <==>
              !IsRejected(input) &&
              (input.value.content.Blank? ||
               (input.value.content.Parsed? && input.value.content.doc.JObj? &&
                !HasKey(input.value.content.doc.members, specifiedKey)))
    ensures var o := Trigger(input, specifiedKey, specifiedNewKey, parseDouble);
            o.Failure? ==> o.original == input.value
  {
    if !IsRejected(input) && input.value.content.Parsed? && input.value.content.doc.JObj? {
      var ms := input.value.content.doc.members;
      assert Lookup(ms, specifiedKey).None? <==> !HasKey(ms, specifiedKey);
    }
  }

  /** A one-field record whose number converts: the label is appended under the new key. */
  lemma ConvertAppends(size: nat, key: string, newKey: string, text: string, value: real,
                       parseDouble: string -> Option<real>)
    requires size > 0 && key != newKey && parseDouble(text) == Some(value)
    ensures Trigger(Some(FlowFile(size, Parsed(JObj([(key, JNum(text))])))), key, newKey, parseDouble)
         == Success(JObj([(key, JNum(text)), (newKey, JStr(Helper.ConvertToRange(value)))]))
  {
    var ms := [(key, JNum(text))];
    var rangeValue := JStr(Helper.ConvertToRange(value));
    assert FromJsonObject(Parsed(JObj(ms))) == Ok(Some(ms));
    assert Lookup(ms, key) == Some(JNum(text)) by {
      assert Find(ms, key) == Some(0);
    }
    assert GetAsDouble(JNum(text), parseDouble) == Ok(value);
    assert Convert(ms, key, newKey, parseDouble) == Ok(Put(ms, newKey, rangeValue));
    assert Put(ms, newKey, rangeValue) == ms + [(newKey, rangeValue)] by {
      assert !HasKey(ms, newKey);
    }
    assert ms + [(newKey, rangeValue)] == [(key, JNum(text)), (newKey, rangeValue)];
    var flowFile := FlowFile(size, Parsed(JObj(ms)));
    assert !IsRejected(Some(flowFile));
    var out := JObj([(key, JNum(text)), (newKey, rangeValue)]);
    assert NullFree(out);
    WrittenOfNullFree(out);
    assert Trigger(Some(flowFile), key, newKey, parseDouble) == Route(flowFile, Ok(Written(out)));
  }

  /** The documented sample: `{"value": 0.35}` gains `"range": "30-40"`. */
  lemma ConvertSample(parseDouble: string -> Option<real>)
    requires parseDouble("0.35") == Some(0.35)
    ensures Trigger(Some(FlowFile(15, Parsed(JObj([("value", JNum("0.35"))])))), "value", "range", parseDouble)
         == Success(JObj([("value", JNum("0.35")), ("range", JStr("30-40"))]))
  {
    Helper.ConvertToRangeSample();
    assert "value" != "range" by { assert "value"[0] != "range"[0]; }
    ConvertAppends(15, "value", "range", "0.35", 0.35, parseDouble);
  }
}
