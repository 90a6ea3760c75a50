/**
 * JSONRegexMatcher: rewrites one field of each JSON record to the first match of a
 * regular expression in the field's text.
 */
module JsonRegexMatcher {

  import opened Wrappers
  import opened Document
  import opened Flow
  import Helper

  /** Property names and their defaults. */
  const RegexProperty: string := "REGEX_NAME"
  const RegexDefault: string := "@(.*)$"
  const FieldProperty: string := "FIELD_NAME"
  const FieldDefault: string := "cc_merch_name"

  /**
   * The transform of one parsed object: when `keyToMatch` is present its value is read
   * as text, the pattern applied, and the result written back as a string; otherwise
   * the object is left alone.
   */
  function Rewrite(ms: seq<Member>, keyToMatch: string, regexPattern: string, engine: Helper.RegexEngine)
    : Result<seq<Member>, Exception>
    requires Helper.Sound(engine)
  {
    match Lookup(ms, keyToMatch)
    case None => Ok(ms)
    case Some(v) =>
      match GetAsString(v)
      case Err(e) => Err(e)
      case Ok(originalValue) =>
        match Helper.ApplyRegexPattern(originalValue, regexPattern, engine)
        case Err(e) => Err(e)
        case Ok(newValue) => Ok(Put(ms, keyToMatch, JStr(newValue)))
  }

  /** What onTrigger does with one input, given the scheduled configuration. */
  function Trigger(input: Option<FlowFile>, keyToMatch: string, regexPattern: string, engine: Helper.RegexEngine)
    : Outcome
    requires Helper.Sound(engine)
  {
    if IsRejected(input) then Rejected
    else
      var flowFile := input.value;
      Route(flowFile,
        match FromJsonObject(flowFile.content)
        case Err(e) => Err(e)
        case Ok(None) => Err(NullPointer)
        case Ok(Some(ms)) =>
          match Rewrite(ms, keyToMatch, regexPattern, engine)
          case Err(e) => Err(e)
          case Ok(r) => Ok(Written(JObj(r))))
  }

  /** The processor with the configuration loaded by onScheduled. */
  class Processor {
    var regexPattern: string
    var keyToMatch: string

    /** A processor that has been scheduled with `context`. */
    constructor (context: map<string, string>)
      ensures regexPattern == PropertyValue(context, RegexProperty, RegexDefault)
      ensures keyToMatch == PropertyValue(context, FieldProperty, FieldDefault)
    {
      regexPattern := PropertyValue(context, RegexProperty, RegexDefault);
      keyToMatch := PropertyValue(context, FieldProperty, FieldDefault);
    }

    /** `onScheduled`: loads the pattern and the field name once, for every later record. */
    method OnScheduled(context: map<string, string>)
      modifies this
      ensures regexPattern == PropertyValue(context, RegexProperty, RegexDefault)
      ensures keyToMatch == PropertyValue(context, FieldProperty, FieldDefault)
    {
      regexPattern := PropertyValue(context, RegexProperty, RegexDefault);
      keyToMatch := PropertyValue(context, FieldProperty, FieldDefault);
    }

    /** `onTrigger` for one input flow file. */
    method OnTrigger(input: Option<FlowFile>, engine: Helper.RegexEngine) returns (outcome: Outcome)
      requires Helper.Sound(engine) && ValidInput(input)
      ensures outcome == Trigger(input, keyToMatch, regexPattern, engine)
    {
      if input.None? || input.value.size == 0 {
        return Rejected;
      }
      var flowFile := input.value;
      var parsed := FromJsonObject(flowFile.content);
      if parsed.Err? {
        return Route(flowFile, Err(parsed.error));
      }
      if parsed.value.None? {
        // jsonObject.has(...) on a null jsonObject
        return Route(flowFile, Err(NullPointer));
      }
      assert UniqueKeys(parsed.value.value);
      var jsonObject := new JsonObject(parsed.value.value);
      if jsonObject.Has(keyToMatch) {
        var originalValue := GetAsString(jsonObject.Get(keyToMatch).value);
        if originalValue.Err? {
          return Route(flowFile, Err(originalValue.error));
        }
        var newValue := Helper.ApplyRegexPattern(originalValue.value, regexPattern, engine);
        if newValue.Err? {
          return Route(flowFile, Err(newValue.error));
        }
        jsonObject.AddProperty(keyToMatch, JStr(newValue.value));
      }
      return Route(flowFile, Ok(Written(JObj(jsonObject.members))));
    }
  }

  /* ---------- what onTrigger promises ---------- */

  /** No flow file, or an empty one, is rejected before any transform. */
  lemma RejectsEmptyInput(input: Option<FlowFile>, keyToMatch: string, regexPattern: string,
                          engine: Helper.RegexEngine)
    requires Helper.Sound(engine)
    ensures Trigger(input, keyToMatch, regexPattern, engine) == Rejected <==> IsRejected(input)
  {
  }

  /**
   * Without the field, the record passes through unchanged except that Gson leaves out
   * its null fields when writing it.
   */
  lemma KeyAbsentPassesThrough(flowFile: FlowFile, keyToMatch: string, regexPattern: string,
                               engine: Helper.RegexEngine)
    requires Helper.Sound(engine) && flowFile.size > 0
    requires flowFile.content.Parsed? && flowFile.content.doc.JObj?
    requires !HasKey(flowFile.content.doc.members, keyToMatch)
    ensures Trigger(Some(flowFile), keyToMatch, regexPattern, engine) == Success(Written(flowFile.content.doc))
  {
  }

  /** `{"a":null}` without the field is written as `{}`. */
  lemma NullFieldOmitted(keyToMatch: string, regexPattern: string, engine: Helper.RegexEngine)
    requires Helper.Sound(engine) && keyToMatch != "a"
    ensures Trigger(Some(FlowFile(1, Parsed(JObj([("a", JNull)])))), keyToMatch, regexPattern, engine)
         == Success(JObj([]))
  {
    var ms := [("a", JNull)];
    assert !HasKey(ms, keyToMatch);
    var written := seq(|ms|, i requires 0 <= i < |ms| => (ms[i].0, Written(ms[i].1)));
    assert written == ms;
    assert DropNullFields(written) == [];
  }

  /**
   * With the field present and readable as text under a valid pattern, only that field
   * changes: it keeps its position and becomes the string the pattern extracts from its
   * old text — the whole first match, or the old text when nothing matches. The object is
   * written as Gson writes it, so every other field reads as in the written input.
   */
  lemma KeyPresentRewritesOnlyThatField(flowFile: FlowFile, keyToMatch: string, regexPattern: string,
                                        engine: Helper.RegexEngine)
    requires Helper.Sound(engine) && flowFile.size > 0
    requires flowFile.content.Parsed? && WellFormed(flowFile.content.doc) && flowFile.content.doc.JObj?
    requires Lookup(flowFile.content.doc.members, keyToMatch).Some?
    requires GetAsString(Lookup(flowFile.content.doc.members, keyToMatch).value).Ok?
    requires engine.compiles(regexPattern)
    ensures var ms := flowFile.content.doc.members;
            var text := GetAsString(Lookup(ms, keyToMatch).value).value;
            var newValue := Helper.ApplyRegexPattern(text, regexPattern, engine).value;
            var r := Put(ms, keyToMatch, JStr(newValue));
            var o := Trigger(Some(flowFile), keyToMatch, regexPattern, engine);
            o == Success(Written(JObj(r))) && |r| == |ms| &&
            (forall i :: 0 <= i < |ms| ==> r[i].0 == ms[i].0) &&
            (forall k :: k != keyToMatch ==> Lookup(o.doc.members, k) == Lookup(Written(JObj(ms)).members, k)) &&
            Lookup(o.doc.members, keyToMatch) == Some(JStr(newValue)) &&
            (engine.firstMatch(regexPattern, text).None? ==> Lookup(o.doc.members, keyToMatch) == Some(JStr(text)))
  {
    var ms := flowFile.content.doc.members;
    var text := GetAsString(Lookup(ms, keyToMatch).value).value;
    var newValue := Helper.ApplyRegexPattern(text, regexPattern, engine).value;
    assert HasKey(ms, keyToMatch);
    PutFrame(ms, keyToMatch, JStr(newValue));
    var r := Put(ms, keyToMatch, JStr(newValue));
    forall i | 0 <= i < |ms| ensures r[i].0 == ms[i].0 {
      if ms[i].0 != keyToMatch {
        assert r[i] == ms[i];
      } else {
        FindUnique(r, keyToMatch, i);
      }
    }
    forall k ensures k != keyToMatch ==> Lookup(Written(JObj(r)).members, k) == Lookup(Written(JObj(ms)).members, k) {
      WrittenLookup(r, k);
      WrittenLookup(ms, k);
    }
    WrittenLookup(r, keyToMatch);
  }

  /**
   * A record is routed to failure only when a NullPointerException is raised, which here
   * happens exactly when the text is blank (Gson returns null for it); the original flow
   * file goes to failure.
   */
  lemma FailureOnlyOnNullObject(input: Option<FlowFile>, keyToMatch: string, regexPattern: string,
                                engine: Helper.RegexEngine)
    requires Helper.Sound(engine)
    ensures var o := Trigger(input, keyToMatch, regexPattern, engine);
            o.Failure? <==> !IsRejected(input) && input.value.content.Blank?
    ensures var o := Trigger(input, keyToMatch, regexPattern, engine);
            o.Failure? ==> o.original == input.value
  {
  }

  /**
   * Other exceptions are not caught: text that is not a JSON object, a null or non-text
   * field value, and an invalid pattern all escape onTrigger.
   */
  lemma OtherErrorsEscape(flowFile: FlowFile, keyToMatch: string, regexPattern: string,
                          engine: Helper.RegexEngine)
    requires Helper.Sound(engine) && flowFile.size > 0
    ensures flowFile.content.Malformed? || (flowFile.content.Parsed? && !flowFile.content.doc.JObj?) ==>
              Trigger(Some(flowFile), keyToMatch, regexPattern, engine) == Escaped(JsonSyntax)
    ensures flowFile.content.Parsed? && flowFile.content.doc.JObj? &&
            Lookup(flowFile.content.doc.members, keyToMatch) == Some(JNull) ==>
              Trigger(Some(flowFile), keyToMatch, regexPattern, engine) == Escaped(UnsupportedOperation)
    ensures flowFile.content.Parsed? && flowFile.content.doc.JObj? &&
            Lookup(flowFile.content.doc.members, keyToMatch).Some? &&
            GetAsString(Lookup(flowFile.content.doc.members, keyToMatch).value).Ok? &&
            !engine.compiles(regexPattern) ==>
              Trigger(Some(flowFile), keyToMatch, regexPattern, engine) == Escaped(PatternSyntax)
  {
  }

  /** A number is rewritten to a string: `{"cc_merch_name": 123}` with a pattern matching nothing gives `"123"`. */
  lemma NumberBecomesString(keyToMatch: string, regexPattern: string, engine: Helper.RegexEngine)
    requires Helper.Sound(engine) && engine.compiles(regexPattern)
    requires engine.firstMatch(regexPattern, "123").None?
    ensures Trigger(Some(FlowFile(1, Parsed(JObj([(keyToMatch, JNum("123"))])))), keyToMatch, regexPattern, engine)
         == Success(JObj([(keyToMatch, JStr("123"))]))
  {
    var ms := [(keyToMatch, JNum("123"))];
    assert Find(ms, keyToMatch) == Some(0);
    assert Put(ms, keyToMatch, JStr("123")) == [(keyToMatch, JStr("123"))];
    assert NullFree(JObj([(keyToMatch, JStr("123"))]));
    WrittenOfNullFree(JObj([(keyToMatch, JStr("123"))]));
  }
}
