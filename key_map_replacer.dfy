/**
 * KeyMapReplacer: for each configured pair of a check field and a new field, looks the
 * check field's text up in a fixed key/value table and writes the result into the new field.
 */
module KeyMapReplacer {

  import opened Wrappers
  import opened Document
  import opened Flow
  import JavaText
  import Helper

  /** Property names and their defaults. */
  const KeysProperty: string := "KEYS"
  const KeysDefault: string := "AD,AF,BG"
  const ValuesProperty: string := "VALUES"
  const ValuesDefault: string := "H1,H2,H3"
  const KeyToCheckProperty: string := "KEY_TO_CHECK"
  const KeyToCheckDefault: string := "key1,key3"
  const NewKeyNamesProperty: string := "NEW_KEY_NAMES"
  const NewKeyNamesDefault: string := "cc_newField,cc_newField2"

  /**
   * The try block for one record: the replacement map is rebuilt from the raw property
   * strings, then the record's text is parsed and the pairs applied.
   */
  function Transform(content: Content, mapKeys: string, mapValues: string,
                     keyToCheckArray: seq<string>, newKeyNamesArray: seq<string>): Result<Json, Exception>
  {
    if |JavaText.Split(mapKeys)| != |JavaText.Split(mapValues)| then Err(IllegalArgument)
    else
      match ParseString(content)
      case Err(e) => Err(e)
      case Ok(doc) =>
        Helper.MapValues(doc, Helper.ZipMap(JavaText.Split(mapKeys), JavaText.Split(mapValues)),
                         keyToCheckArray, newKeyNamesArray)
  }

  /**
   * What onTrigger does with one input: the empty checks, then the arity check outside the
   * try block, then the transform routed through the NullPointerException catch.
   */
  function Trigger(input: Option<FlowFile>, mapKeys: string, mapValues: string,
                   keyToCheckArray: seq<string>, newKeyNamesArray: seq<string>): Outcome
  {
    if IsRejected(input) then Rejected
    else if |keyToCheckArray| != |newKeyNamesArray| then Escaped(IllegalArgument)
    else Route(input.value, Transform(input.value.content, mapKeys, mapValues, keyToCheckArray, newKeyNamesArray))
  }

  /** The processor with the configuration loaded by onScheduled. */
  class Processor {
    var propertyValueMapKeys: string
    var propertyValueMapValues: string
    var keyToCheckArray: seq<string>
    var newKeyNamesArray: seq<string>

    /** A processor that has been scheduled with `context`. */
    constructor (context: map<string, string>)
      ensures propertyValueMapKeys == PropertyValue(context, KeysProperty, KeysDefault)
      ensures propertyValueMapValues == PropertyValue(context, ValuesProperty, ValuesDefault)
      ensures keyToCheckArray == JavaText.Split(PropertyValue(context, KeyToCheckProperty, KeyToCheckDefault))
      ensures newKeyNamesArray == JavaText.Split(PropertyValue(context, NewKeyNamesProperty, NewKeyNamesDefault))
    {
      propertyValueMapKeys := PropertyValue(context, KeysProperty, KeysDefault);
      propertyValueMapValues := PropertyValue(context, ValuesProperty, ValuesDefault);
      keyToCheckArray := JavaText.Split(PropertyValue(context, KeyToCheckProperty, KeyToCheckDefault));
      newKeyNamesArray := JavaText.Split(PropertyValue(context, NewKeyNamesProperty, NewKeyNamesDefault));
    }

    /**
     * `onScheduled`: keeps the table's key and value lists as raw strings and splits the
     * check and new field lists on commas.
     */
    method OnScheduled(context: map<string, string>)
      modifies this
      ensures propertyValueMapKeys == PropertyValue(context, KeysProperty, KeysDefault)
      ensures propertyValueMapValues == PropertyValue(context, ValuesProperty, ValuesDefault)
      ensures keyToCheckArray == JavaText.Split(PropertyValue(context, KeyToCheckProperty, KeyToCheckDefault))
      ensures newKeyNamesArray == JavaText.Split(PropertyValue(context, NewKeyNamesProperty, NewKeyNamesDefault))
    {
      propertyValueMapKeys := PropertyValue(context, KeysProperty, KeysDefault);
      propertyValueMapValues := PropertyValue(context, ValuesProperty, ValuesDefault);
      var keyToCheck := PropertyValue(context, KeyToCheckProperty, KeyToCheckDefault);
      var newKeyNames := PropertyValue(context, NewKeyNamesProperty, NewKeyNamesDefault);
      newKeyNamesArray := JavaText.Split(newKeyNames);
      keyToCheckArray := JavaText.Split(keyToCheck);
    }

    /** `onTrigger` for one input flow file. */
    method OnTrigger(input: Option<FlowFile>) returns (outcome: Outcome)
      requires ValidInput(input)
      ensures outcome == Trigger(input, propertyValueMapKeys, propertyValueMapValues, keyToCheckArray, newKeyNamesArray)
    {
      if input.None? || input.value.size == 0 {
        return Rejected;
      }
      if |keyToCheckArray| != |newKeyNamesArray| {
        return Escaped(IllegalArgument);
      }
      var flowFile := input.value;
      var replacementMap := Helper.CreateReplacementMap(propertyValueMapKeys, propertyValueMapValues);
      if replacementMap.Err? {
        return Route(flowFile, Err(replacementMap.error));
      }
      var doc := ParseString(flowFile.content);
      if doc.Err? {
        return Route(flowFile, Err(doc.error));
      }
      var newJson := Helper.AddMapValueToJson(doc.value, replacementMap.value, keyToCheckArray, newKeyNamesArray);
      return Route(flowFile, newJson);
    }
  }

  /* ---------- what onTrigger promises ---------- */

  /** The empty checks come before the arity check: an empty input is rejected whatever the configuration. */
  lemma RejectsEmptyInputFirst(input: Option<FlowFile>, mapKeys: string, mapValues: string,
                               keyToCheckArray: seq<string>, newKeyNamesArray: seq<string>)
    ensures Trigger(input, mapKeys, mapValues, keyToCheckArray, newKeyNamesArray) == Rejected <==> IsRejected(input)
  {
  }

  /**
   * Both arity checks raise IllegalArgumentException, which escapes: check and new field
   * lists of different lengths, and, per record, table key and value lists of different lengths.
   */
  lemma ArityMismatchEscapes(input: Option<FlowFile>, mapKeys: string, mapValues: string,
                             keyToCheckArray: seq<string>, newKeyNamesArray: seq<string>)
    requires !IsRejected(input)
    ensures |keyToCheckArray| != |newKeyNamesArray| ==>
              Trigger(input, mapKeys, mapValues, keyToCheckArray, newKeyNamesArray) == Escaped(IllegalArgument)
    ensures |JavaText.Split(mapKeys)| != |JavaText.Split(mapValues)| ==>
              Trigger(input, mapKeys, mapValues, keyToCheckArray, newKeyNamesArray) == Escaped(IllegalArgument)
  {
  }

  /**
   * The NullPointerException handler is never reached: nothing in the transform raises
   * one (a table miss stores JSON null), so no record is routed to failure.
   */
  lemma NeverRoutesToFailure(input: Option<FlowFile>, mapKeys: string, mapValues: string,
                             keyToCheckArray: seq<string>, newKeyNamesArray: seq<string>)
    ensures !Trigger(input, mapKeys, mapValues, keyToCheckArray, newKeyNamesArray).Failure?
  {
    if !IsRejected(input) && |keyToCheckArray| == |newKeyNamesArray| &&
       |JavaText.Split(mapKeys)| == |JavaText.Split(mapValues)| {
      var doc := ParseString(input.value.content);
      if doc.Ok? && doc.value.JObj? {
        Helper.MapStepsErrors(doc.value.members, Helper.ZipMap(JavaText.Split(mapKeys), JavaText.Split(mapValues)),
                              keyToCheckArray, newKeyNamesArray, |keyToCheckArray|);
      }
    }
  }

  /**
   * Blank text parses to JSON null and text with another root than an object fails in
   * getAsJsonObject: both raise IllegalStateException, which escapes.
   */
  lemma NonObjectEscapes(flowFile: FlowFile, mapKeys: string, mapValues: string,
                         keyToCheckArray: seq<string>, newKeyNamesArray: seq<string>)
    requires flowFile.size > 0 && |keyToCheckArray| == |newKeyNamesArray|
    requires |JavaText.Split(mapKeys)| == |JavaText.Split(mapValues)|
    requires flowFile.content.Blank? || (flowFile.content.Parsed? && !flowFile.content.doc.JObj?)
    ensures Trigger(Some(flowFile), mapKeys, mapValues, keyToCheckArray, newKeyNamesArray) == Escaped(IllegalState)
  {
  }

  /**
   * On success the record is what addMapValueToJSON makes of it with the table built
   * from the key and value lists.
   */
  lemma SuccessIsMapped(flowFile: FlowFile, mapKeys: string, mapValues: string,
                        keyToCheckArray: seq<string>, newKeyNamesArray: seq<string>)
    requires Trigger(Some(flowFile), mapKeys, mapValues, keyToCheckArray, newKeyNamesArray).Success?
    ensures flowFile.size > 0 && flowFile.content.Parsed? && flowFile.content.doc.JObj?
    ensures Trigger(Some(flowFile), mapKeys, mapValues, keyToCheckArray, newKeyNamesArray).doc ==
            Helper.MapValues(flowFile.content.doc, Helper.ZipMap(JavaText.Split(mapKeys), JavaText.Split(mapValues)),
                             keyToCheckArray, newKeyNamesArray).value
  {
  }

  /** A one-field record whose check field's text is in the table: the mapped value is appended. */
  lemma MapsOneField(size: nat, mapKeys: string, mapValues: string, checkKey: string, newKey: string,
                     text: string, mapped: string)
    requires size > 0 && checkKey != newKey
    requires |JavaText.Split(mapKeys)| == |JavaText.Split(mapValues)|
    requires Helper.MapGet(Helper.ZipMap(JavaText.Split(mapKeys), JavaText.Split(mapValues)), text) == Some(mapped)
    ensures Trigger(Some(FlowFile(size, Parsed(JObj([(checkKey, JStr(text))])))), mapKeys, mapValues, [checkKey], [newKey])
         == Success(JObj([(checkKey, JStr(text)), (newKey, JStr(mapped))]))
  {
    var table := Helper.ZipMap(JavaText.Split(mapKeys), JavaText.Split(mapValues));
    var ms := [(checkKey, JStr(text))];
    assert Lookup(ms, checkKey) == Some(JStr(text)) by {
      assert Find(ms, checkKey) == Some(0);
    }
    assert Put(ms, newKey, JStr(mapped)) == ms + [(newKey, JStr(mapped))] by {
      assert !HasKey(ms, newKey);
    }
    assert Helper.MapStep(ms, table, checkKey, [newKey], 0) == Ok(ms + [(newKey, JStr(mapped))]);
    assert Helper.MapSteps(ms, table, [checkKey], [newKey], 1) == Ok(ms + [(newKey, JStr(mapped))]);
    var out := JObj([(checkKey, JStr(text)), (newKey, JStr(mapped))]);
    assert ms + [(newKey, JStr(mapped))] == out.members;
    assert NullFree(out);
    WrittenOfNullFree(out);
  }

  /**
   * A check field whose text is not in the table stores JSON null under the new field,
   * which Gson leaves out when writing: the new field is absent from the output, even if
   * the record had one, and every other field reads as in the written input.
   */
  lemma MissLeavesTargetOut(flowFile: FlowFile, mapKeys: string, mapValues: string,
                            checkKey: string, newKey: string)
    requires flowFile.size > 0 && flowFile.content.Parsed? && WellFormed(flowFile.content.doc)
    requires flowFile.content.doc.JObj?
    requires |JavaText.Split(mapKeys)| == |JavaText.Split(mapValues)|
    requires Lookup(flowFile.content.doc.members, checkKey).Some?
    requires GetAsString(Lookup(flowFile.content.doc.members, checkKey).value).Ok?
    requires Helper.MapGet(Helper.ZipMap(JavaText.Split(mapKeys), JavaText.Split(mapValues)),
                           GetAsString(Lookup(flowFile.content.doc.members, checkKey).value).value).None?
    ensures var o := Trigger(Some(flowFile), mapKeys, mapValues, [checkKey], [newKey]);
            o.Success? && o.doc.JObj? && !HasKey(o.doc.members, newKey) &&
            forall k :: k != newKey ==> Lookup(o.doc.members, k) == Lookup(Written(flowFile.content.doc).members, k)
  {
    var ms := flowFile.content.doc.members;
    var table := Helper.ZipMap(JavaText.Split(mapKeys), JavaText.Split(mapValues));
    var r := Put(ms, newKey, JNull);
    assert Helper.MapStep(ms, table, checkKey, [newKey], 0) == Ok(r);
    assert Helper.MapSteps(ms, table, [checkKey], [newKey], 1) == Ok(r);
    PutFrame(ms, newKey, JNull);
    WrittenLookup(r, newKey);
    forall k ensures k != newKey ==> Lookup(Written(JObj(r)).members, k) == Lookup(Written(JObj(ms)).members, k) {
      WrittenLookup(r, k);
      WrittenLookup(ms, k);
    }
  }

  /**
   * A two-field record whose check field's text is not in the table: the new field it
   * already had is overwritten with JSON null and so is not written.
   */
  lemma MissDropsOneField(size: nat, mapKeys: string, mapValues: string, checkKey: string, newKey: string,
                          text: string, previous: string)
    requires size > 0 && checkKey != newKey
    requires |JavaText.Split(mapKeys)| == |JavaText.Split(mapValues)|
    requires Helper.MapGet(Helper.ZipMap(JavaText.Split(mapKeys), JavaText.Split(mapValues)), text).None?
    ensures Trigger(Some(FlowFile(size, Parsed(JObj([(checkKey, JStr(text)), (newKey, JStr(previous))])))),
                    mapKeys, mapValues, [checkKey], [newKey])
         == Success(JObj([(checkKey, JStr(text))]))
  {
    var table := Helper.ZipMap(JavaText.Split(mapKeys), JavaText.Split(mapValues));
    var ms := [(checkKey, JStr(text)), (newKey, JStr(previous))];
    assert Lookup(ms, checkKey) == Some(JStr(text)) by {
      assert Find(ms, checkKey) == Some(0);
    }
    var r := [(checkKey, JStr(text)), (newKey, JNull)];
    assert Put(ms, newKey, JNull) == r by {
      assert Find(ms, newKey) == Some(1);
    }
    assert Helper.MapSteps(ms, table, [checkKey], [newKey], 1) == Ok(r) by {
      assert Helper.MapStep(ms, table, checkKey, [newKey], 0) == Ok(r);
    }
    var written := seq(|r|, i requires 0 <= i < |r| => (r[i].0, Written(r[i].1)));
    assert written == r;
    assert DropNullFields(written[1..]) == [];
    assert DropNullFields(written) == [(checkKey, JStr(text))];
  }

  /**
   * The sample table `AD -> H1, AF -> H2` and record `{"key1":"ZZ","cc_new":"old"}`: `ZZ`
   * is not in the table, so the output is `{"key1":"ZZ"}`.
   */
  lemma MissSample()
    ensures Trigger(Some(FlowFile(25, Parsed(JObj([("key1", JStr("ZZ")), ("cc_new", JStr("old"))])))),
                    "AD,AF", "H1,H2", ["key1"], ["cc_new"])
         == Success(JObj([("key1", JStr("ZZ"))]))
  {
    SampleTable();
    assert "key1" != "cc_new" by { assert "key1"[0] != "cc_new"[0]; }
    MissDropsOneField(25, "AD,AF", "H1,H2", "key1", "cc_new", "ZZ", "old");
  }

  /**
   * The documented sample: table `AD -> H1, AF -> H2`, check field `key1`, new field
   * `cc_new`, record `{"key1":"AD"}` gives `{"key1":"AD","cc_new":"H1"}`.
   */
  lemma MappingSample()
    ensures Trigger(Some(FlowFile(12, Parsed(JObj([("key1", JStr("AD"))])))), "AD,AF", "H1,H2", ["key1"], ["cc_new"])
         == Success(JObj([("key1", JStr("AD")), ("cc_new", JStr("H1"))]))
  {
    SampleTable();
    assert "key1" != "cc_new" by { assert "key1"[0] != "cc_new"[0]; }
    MapsOneField(12, "AD,AF", "H1,H2", "key1", "cc_new", "AD", "H1");
  }

  /** The sample table `AD,AF` / `H1,H2` maps `AD` to `H1` and has no `ZZ`. */
  lemma SampleTable()
    ensures |JavaText.Split("AD,AF")| == |JavaText.Split("H1,H2")|
    ensures Helper.MapGet(Helper.ZipMap(JavaText.Split("AD,AF"), JavaText.Split("H1,H2")), "AD") == Some("H1")
    ensures Helper.MapGet(Helper.ZipMap(JavaText.Split("AD,AF"), JavaText.Split("H1,H2")), "ZZ") == None
  {
    JavaText.SplitPair("AD", "AF");
    JavaText.SplitPair("H1", "H2");
    assert "AD" + "," + "AF" == "AD,AF";
    assert "H1" + "," + "H2" == "H1,H2";
    var keys: seq<string> := ["AD", "AF"];
    var values: seq<string> := ["H1", "H2"];
    assert keys[1] != keys[0] by { assert "AF"[1] != "AD"[1]; }
    Helper.ZipMapLastWins(keys, values);
    assert keys[0] in keys;
    assert "ZZ" !in keys by { assert "ZZ"[0] != "AD"[0] && "ZZ"[0] != "AF"[0]; }
  }

  /** The default check fields are `key1` and `key3`. */
  lemma DefaultCheckFields()
    ensures JavaText.Split(KeyToCheckDefault) == ["key1", "key3"]
  {
    JavaText.SplitPair("key1", "key3");
    assert "key1" + "," + "key3" == KeyToCheckDefault;
  }

  /** The default new fields are `cc_newField` and `cc_newField2`, as many as the check fields. */
  lemma DefaultNewFields()
    ensures JavaText.Split(NewKeyNamesDefault) == ["cc_newField", "cc_newField2"]
  {
    JavaText.SplitPair("cc_newField", "cc_newField2");
    assert "cc_newField" + "," + "cc_newField2" == NewKeyNamesDefault;
  }

  /** The default table keys are `AD`, `AF` and `BG`. */
  lemma DefaultTableKeys()
    ensures JavaText.Split(KeysDefault) == ["AD", "AF", "BG"]
  {
    assert ',' !in "AD" && ',' !in "AF" && ',' !in "BG";
    JavaText.SplitTriple("AD", "AF", "BG");
    assert "AD" + "," + "AF" + "," + "BG" == KeysDefault;
  }

  /** The default table values are `H1`, `H2` and `H3`, as many as the keys. */
  lemma DefaultTableValues()
    ensures JavaText.Split(ValuesDefault) == ["H1", "H2", "H3"]
  {
    assert ',' !in "H1" && ',' !in "H2" && ',' !in "H3";
    JavaText.SplitTriple("H1", "H2", "H3");
    assert "H1" + "," + "H2" + "," + "H3" == ValuesDefault;
  }
}
