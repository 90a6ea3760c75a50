# NiFi JSON record transforms — a verified model

This project models the record-level logic of a set of Apache NiFi processors that
transform JSON records, written in Java on Gson. It covers:

- `Helper.java`'s transforms: the key/value replacement map and its application to a
  record (`createReplacementMap`, `addMapValueToJSON`), the regex rewrite
  (`applyRegexPattern`), the numeric range label (`convertToRange`), the XML element
  conversion (`convertElementToJson`) and the pruning of null and blank fields
  (`removeNullEmptyAndWhitespaceFields`);
- `CustomValidator.customPropertyValidator`, the validator of comma-separated properties;
- the `onScheduled` and `onTrigger` bodies of `JSONRegexMatcher`, `RangeConverter`,
  `KeyMapReplacer` and `JsonNullRemover`: configuration loading, the per-record
  transform, and the routing of each record to success, to failure, or out of
  `onTrigger` as an uncaught exception.

Modules:

- `Wrappers` holds `Option` and `Result`.
- `JavaText` models Java's `String.split(",")`, `trim().isEmpty()` and int-to-text.
- `Document` models Gson's element tree, `JsonObject`'s ordered unique-keyed fields, `add`/`remove`, and the partial coercions `getAsString`/`getAsDouble`. It also has a mutable `JsonObject` class.
- `Helper` holds one section per helper method.
- `Flow` holds the flow file, the outcome of one `onTrigger`, the NullPointerException-only catch, Gson's two ways of reading a record as an object, and property defaults.
- `CustomValidator` holds the property validator.
- There is one module per processor.

Code that changes state in place is modelled as imperative Dafny and proved against a
specification function:

- the helper loops (`CreateReplacementMap`, `AddMapValueToJson`, `ConvertElementToJson`, `RemoveNullEmptyAndWhitespaceFields`) work on a `JsonObject` object;
- each processor with configuration is a `Processor` class, whose `OnScheduled` sets its fields and whose `OnTrigger` reads them.

The properties are lemmas about those specification functions.

Some behaviour of the code differs from the intent its documentation states. The
model follows the code:

- **The XML self-named text field.** It is not trimmed, and it is named after the element that has the single text child. So `<a id="1"><b>text</b></a>` converts to `{"id":"1","b":{"b":"text"}}`, not `{"id":"1","b":{"a":"text"}}` (see `Helper.ElementToJsonSample`).
- **Only `NullPointerException` is caught.**
  - Parse errors, non-numeric values, invalid patterns, arity mismatches and non-object roots escape `onTrigger`; they do not send the original record to failure.
  - In `KeyMapReplacer` and `JsonNullRemover` the catch is never reached at all (`NeverRoutesToFailure`).
- **No configuration is checked at scheduling time.**
  - The table lists are compared per record.
  - The field lists are compared at the top of every `onTrigger`.
  - The pattern is compiled per record.
- **`removeNullEmptyAndWhitespaceFields` never recurses.** It calls `getAsString()` (Helper.java line 165) before testing for a nested object (line 167), so a nested object raises `UnsupportedOperationException` (`Helper.FieldVerdict`, `JsonNullRemover.NestedObjectEscapes`). Because removal is deferred, such a failure leaves the object unchanged.
- **Null fields are not written.** Every success output is produced by Gson's `toJson`, which by default leaves out object fields whose value is JSON null, at every depth (nulls inside arrays are kept). So a `KeyMapReplacer` table miss, which stores JSON null under the new field, removes that field from the written record, even when the record had one (`KeyMapReplacer.MissLeavesTargetOut`, `KeyMapReplacer.MissSample`). `Document.Written` models this.
- **`convertToRange` uses Java int arithmetic.** Above the int range the cast saturates and `rangeMin + 10` wraps, giving `"2147483647--2147483639"` (`Helper.RangeSaturatesHigh`).

## Model

| member | source | states |
|---|---|---|
| `JavaText.FieldsJoin` | nifi-generic-custom-processors/src/main/java/org/example/processors/generic/util/Helper.java:57-58 | joining the comma-separated fields of a text with commas gives the text back: the fields lose nothing |
| `JavaText.SplitEmptyIff` | nifi-generic-custom-processors/src/main/java/org/example/processors/generic/util/CustomValidator.java:19-20 | `split(",")` yields no parts exactly when the text is a non-empty run of commas; `""` yields one part |
| `JavaText.SplitParts` | nifi-generic-custom-processors/src/main/java/org/example/processors/generic/util/Helper.java:57-58 | every part of a split is comma-free and, when the text has a comma, the parts are its leading fields (only trailing empty fields are dropped) |
| `JavaText.SplitPair` | nifi-generic-custom-processors/src/main/java/org/example/processors/generic/KeyMapReplacer.java:156-157 | `"a,b"` splits into `[a, b]` for comma-free `a` and non-empty comma-free `b` |
| `JavaText.SplitTriple` | nifi-generic-custom-processors/src/main/java/org/example/processors/generic/util/Helper.java:57-58 | `"a,b,c"` splits into `[a, b, c]` for comma-free parts, the last non-empty |
| `JavaText.IntToStringRoundTrip` | nifi-generic-custom-processors/src/main/java/org/example/processors/generic/util/Helper.java:96 | reading back the decimal text of an int gives the int |
| `Document.Put` | nifi-generic-custom-processors/src/main/java/org/example/processors/generic/util/Helper.java:42 | `addProperty` on an existing name replaces that field in place (length and other fields kept); on a new name appends it; the name then reads the new value |
| `Document.PutFrame` | nifi-generic-custom-processors/src/main/java/org/example/processors/generic/util/Helper.java:42 | `addProperty` keeps names unique, and every other name reads exactly as before |
| `Document.DeleteFrame` | nifi-generic-custom-processors/src/main/java/org/example/processors/generic/util/Helper.java:175 | `remove` keeps names unique, the name is gone and every other name reads as before |
| `Document.GetAsString` | nifi-generic-custom-processors/src/main/java/org/example/processors/generic/util/Helper.java:40 | `getAsString` gives the text of a string, number or boolean, unwrapping a one-element array; fails with UnsupportedOperationException on null and objects and with IllegalStateException on arrays of other than one element |
| `Document.GetAsDouble` | nifi-generic-custom-processors/src/main/java/org/example/processors/generic/RangeConverter.java:154 | `getAsDouble` succeeds exactly when `getAsString` does, the value is not a boolean and `Double.parseDouble` accepts the text; a boolean (Gson's `getAsDouble` on a boolean primitive parses "true"/"false") or a rejected text gives NumberFormatException, and the other failures are those of `getAsString` |
| `Document.WrittenLookup` | nifi-generic-custom-processors/src/main/java/org/example/processors/generic/util/Helper.java:45 | `gson.toJson` of an object: a field that was null or absent is not in the output, every other field reads as its own value written, and names stay unique |
| `Document.WrittenNullFree` | nifi-generic-custom-processors/src/main/java/org/example/processors/generic/JSONRegexMatcher.java:165 | no object of a written document has a null field, at any depth |
| `Document.WrittenOfNullFree` | nifi-generic-custom-processors/src/main/java/org/example/processors/generic/JsonNullRemover.java:114 | a document without null fields is written exactly as it is |
| `Document.WrittenIdempotent` | nifi-generic-custom-processors/src/main/java/org/example/processors/generic/RangeConverter.java:159 | writing a written document changes nothing |
| `Document.ReadableIsNullFree` | nifi-generic-custom-processors/src/main/java/org/example/processors/generic/util/Helper.java:40 | a value `getAsString` can read is neither null nor holds a null field |
| `Document.JsonObject.AddProperty` | nifi-generic-custom-processors/src/main/java/org/example/processors/generic/util/Helper.java:42 | the mutable object becomes `Put` of its old fields and stays unique-keyed |
| `Document.JsonObject.Remove` | nifi-generic-custom-processors/src/main/java/org/example/processors/generic/util/Helper.java:175 | the mutable object becomes `Delete` of its old fields and stays unique-keyed |
| `Helper.ZipMapLastWins` | nifi-generic-custom-processors/src/main/java/org/example/processors/generic/util/Helper.java:64-68 | the replacement map has exactly the split keys, each mapped to the value paired with its last occurrence |
| `Helper.CreateReplacementMap` | nifi-generic-custom-processors/src/main/java/org/example/processors/generic/util/Helper.java:54-69 | fails with IllegalArgumentException exactly when the split key and value lists differ in length; otherwise returns the map the loop builds pair by pair |
| `Helper.MapStepsErrors` | nifi-generic-custom-processors/src/main/java/org/example/processors/generic/util/Helper.java:40-42 | the pair loop raises only what `getAsString` raises and the out-of-range new-key index, never NullPointerException (a map miss stores JSON null) |
| `Helper.MapStepsFrame` | nifi-generic-custom-processors/src/main/java/org/example/processors/generic/util/Helper.java:39-45 | after any number of pairs names stay unique, existing fields keep their positions, fields no present pair targets are unchanged, and appended fields are targets |
| `Helper.MapStepsOkIff` | nifi-generic-custom-processors/src/main/java/org/example/processors/generic/util/Helper.java:37-43 | when no target is also a check field, the loop succeeds exactly when every present check field reads as text and has a target name |
| `Helper.MapStepsLastWins` | nifi-generic-custom-processors/src/main/java/org/example/processors/generic/util/Helper.java:37-43 | when no target is also a check field, each target holds the mapped value (JSON null on a miss) of the last pair whose check field is present, and untargeted fields are unchanged |
| `Helper.MapPair` | nifi-generic-custom-processors/src/main/java/org/example/processors/generic/util/Helper.java:39-43 | one turn of the loop on the mutable object does what `MapStep` specifies: on a present check field, the target is set to the mapped text or JSON null on a miss; the object is left unchanged when it throws |
| `Helper.MapAllPairs` | nifi-generic-custom-processors/src/main/java/org/example/processors/generic/util/Helper.java:37-44 | the loop over the index pairs on the object in place ends as `MapSteps` over all pairs says, stopping at the first exception |
| `Helper.AddMapValueToJson` | nifi-generic-custom-processors/src/main/java/org/example/processors/generic/util/Helper.java:34-46 | the loop returns `MapValues`: IllegalStateException unless the document is an object, otherwise the object after every pair in index order, as `gson.toJson` writes it (null fields, among them table misses, left out) |
| `Helper.ApplyRegexPattern` | nifi-generic-custom-processors/src/main/java/org/example/processors/generic/util/Helper.java:79-87 | fails with PatternSyntaxException exactly when the pattern does not compile; otherwise returns the whole first match, or the input unchanged when nothing matches; the result is always a slice of the input |
| `Helper.SaturateInt` | nifi-generic-custom-processors/src/main/java/org/example/processors/generic/util/Helper.java:93 | the `(int)` cast of an integral double clamps to the int bounds and keeps in-range values |
| `Helper.WrapInt` | nifi-generic-custom-processors/src/main/java/org/example/processors/generic/util/Helper.java:94 | int addition wraps into the int bounds and keeps in-range values |
| `Helper.RangeBucket` | nifi-generic-custom-processors/src/main/java/org/example/processors/generic/util/Helper.java:89-96 | without saturation the bounds differ by 10, the lower bound is a multiple of 10, and 100 * value lies in [min, max) |
| `Helper.RangeSaturatesHigh` | nifi-generic-custom-processors/src/main/java/org/example/processors/generic/util/Helper.java:93-94 | above the int range the lower bound saturates at 2147483647 and the upper bound wraps to -2147483639 |
| `Helper.RangeLabelRoundTrip` | nifi-generic-custom-processors/src/main/java/org/example/processors/generic/util/Helper.java:96 | the label `"min-max"` reads back as exactly the two bounds |
| `Helper.ConvertToRangeSample` | nifi-generic-custom-processors/src/main/java/org/example/processors/generic/util/Helper.java:89-97 | 0.35 gives the label `"30-40"` |
| `Helper.PutAllLastWins` | nifi-generic-custom-processors/src/main/java/org/example/processors/generic/util/Helper.java:129-132 | adding pairs in order keeps names unique: a name reads its last pair's value, other names read as before |
| `Helper.ChildPairsKeys` | nifi-generic-custom-processors/src/main/java/org/example/processors/generic/util/Helper.java:136-143 | the fields added for the child nodes are named by exactly the child elements' tags |
| `Helper.ChildPairsLastWins` | nifi-generic-custom-processors/src/main/java/org/example/processors/generic/util/Helper.java:136-143 | under each child tag stands the conversion of the last child element with that tag |
| `Helper.ElementToJsonKeys` | nifi-generic-custom-processors/src/main/java/org/example/processors/generic/util/Helper.java:124-150 | the converted element is an object with unique names: the attribute names, the child tags and, for a single text child, the element's own tag |
| `Helper.ElementToJsonWellFormed` | nifi-generic-custom-processors/src/main/java/org/example/processors/generic/util/Helper.java:124-150 | every object in the converted tree, nested child objects included, has unique field names |
| `Helper.ElementToJsonValues` | nifi-generic-custom-processors/src/main/java/org/example/processors/generic/util/Helper.java:127-147 | a single text child's untrimmed text stands under the element's own tag; each child tag holds its last child's conversion; an attribute nothing overwrites keeps its last value as a string |
| `Helper.AddAttributes` | nifi-generic-custom-processors/src/main/java/org/example/processors/generic/util/Helper.java:127-133 | the attribute loop adds each attribute as a string field, in order |
| `Helper.AddChildren` | nifi-generic-custom-processors/src/main/java/org/example/processors/generic/util/Helper.java:135-143 | the child loop adds each child element's conversion under its tag, in order |
| `Helper.ConvertElementToJson` | nifi-generic-custom-processors/src/main/java/org/example/processors/generic/util/Helper.java:124-150 | the recursive method returns exactly `ElementToJson` of the element |
| `Helper.TextElementToJson` | nifi-generic-custom-processors/src/main/java/org/example/processors/generic/util/Helper.java:145-147 | an element with only a text child converts to one field named after its own tag |
| `Helper.NestedElementToJson` | nifi-generic-custom-processors/src/main/java/org/example/processors/generic/util/Helper.java:124-150 | an element with one attribute and one text-only child converts to the attribute field followed by the nested child object |
| `Helper.ElementToJsonSample` | nifi-generic-custom-processors/src/main/java/org/example/processors/generic/util/Helper.java:124-150 | `<a id="1"><b>text</b></a>` converts to `{"id":"1","b":{"b":"text"}}` |
| `Helper.FieldVerdict` | nifi-generic-custom-processors/src/main/java/org/example/processors/generic/util/Helper.java:165-170 | null is removed; any other value is read with `getAsString` first, so a nested object raises UnsupportedOperationException instead of being visited; a readable value is removed exactly when its text trims to nothing |
| `Helper.CollectMeaning` | nifi-generic-custom-processors/src/main/java/org/example/processors/generic/util/Helper.java:157-171 | the scan fails exactly when some field is unreadable, with the first such field's exception, and otherwise collects exactly the names of the fields to remove |
| `Helper.DeleteAllIsFilter` | nifi-generic-custom-processors/src/main/java/org/example/processors/generic/util/Helper.java:174-176 | removing the collected names one by one from unique-keyed fields drops exactly those fields and keeps the order of the others |
| `Helper.PruneMeaning` | nifi-generic-custom-processors/src/main/java/org/example/processors/generic/util/Helper.java:156-177 | pruning fails exactly when some field is unreadable (first failure reported); otherwise exactly the non-null, non-blank fields are kept, in order, with their values |
| `Helper.KeptClean` | nifi-generic-custom-processors/src/main/java/org/example/processors/generic/util/Helper.java:165-166 | no kept field is null or trims to nothing |
| `Helper.KeptNullFree` | nifi-generic-custom-processors/src/main/java/org/example/processors/generic/JsonNullRemover.java:114 | the pruned object has no null field at any depth, so `toJson` writes it as it stands |
| `Helper.PruneIdempotent` | nifi-generic-custom-processors/src/main/java/org/example/processors/generic/util/Helper.java:156-177 | pruning a pruned object succeeds and changes nothing |
| `Helper.PruneSample` | nifi-generic-custom-processors/src/main/java/org/example/processors/generic/util/Helper.java:156-177 | `{"name":"John","age":30,"address":null,"phone":"  ","email":" "}` prunes to `{"name":"John","age":30}` |
| `Helper.RemoveNullEmptyAndWhitespaceFields` | nifi-generic-custom-processors/src/main/java/org/example/processors/generic/util/Helper.java:156-177 | the two-loop method leaves the object as `Prune` says and, when the scan throws, unchanged |
| `CustomValidator.CustomPropertyValidator` | nifi-generic-custom-processors/src/main/java/org/example/processors/generic/util/CustomValidator.java:18-33 | subject and input are echoed; the result is invalid exactly when the split has no parts, and then and only then carries the fixed explanation |
| `CustomValidator.InvalidIffOnlyCommas` | nifi-generic-custom-processors/src/main/java/org/example/processors/generic/util/CustomValidator.java:19-32 | a value is rejected exactly when it is a non-empty run of commas; `""` and any value with another character are accepted |
| `CustomValidator.DefaultsAreValid` | nifi-generic-custom-processors/src/main/java/org/example/processors/generic/util/Constant.java:14-22 | the default lists `AD,AF,BG` and `key1,key3` are accepted and `","` is rejected |
| `Flow.Route` | nifi-generic-custom-processors/src/main/java/org/example/processors/generic/JSONRegexMatcher.java:170-172 | a result is written to success; NullPointerException and only it sends the original flow file to failure; every other exception escapes |
| `Flow.FromJsonObject` | nifi-generic-custom-processors/src/main/java/org/example/processors/generic/JSONRegexMatcher.java:154 | `gson.fromJson(text, JsonObject.class)`: blank text gives null, an object its fields, anything else JsonSyntaxException |
| `Flow.ParseString` | nifi-generic-custom-processors/src/main/java/org/example/processors/generic/JsonNullRemover.java:108 | `JsonParser.parseString`: blank text gives JSON null, non-JSON text JsonSyntaxException |
| `Flow.GetAsJsonObject` | nifi-generic-custom-processors/src/main/java/org/example/processors/generic/JsonNullRemover.java:108 | `getAsJsonObject` gives an object's fields and raises IllegalStateException for any other element |
| `Flow.PropertyValue` | nifi-generic-custom-processors/src/main/java/org/example/processors/generic/JSONRegexMatcher.java:122-123 | a property reads its configured value, or its default when none is configured |
| `JsonRegexMatcher.Processor.constructor` | nifi-generic-custom-processors/src/main/java/org/example/processors/generic/JSONRegexMatcher.java:120-124 | a scheduled processor holds the configured pattern and field name (defaults `@(.*)$`, `cc_merch_name`) |
| `JsonRegexMatcher.Processor.OnScheduled` | nifi-generic-custom-processors/src/main/java/org/example/processors/generic/JSONRegexMatcher.java:120-124 | loads the pattern and the field name once, for every later record |
| `JsonRegexMatcher.Processor.OnTrigger` | nifi-generic-custom-processors/src/main/java/org/example/processors/generic/JSONRegexMatcher.java:132-175 | the imperative onTrigger returns exactly the outcome `Trigger` specifies for the loaded configuration |
| `JsonRegexMatcher.RejectsEmptyInput` | nifi-generic-custom-processors/src/main/java/org/example/processors/generic/JSONRegexMatcher.java:137-146 | an input is rejected without transform exactly when it is missing or empty |
| `JsonRegexMatcher.KeyAbsentPassesThrough` | nifi-generic-custom-processors/src/main/java/org/example/processors/generic/JSONRegexMatcher.java:155-165 | without the field the success output is the parsed input object as `toJson` writes it: unchanged except that its null fields are left out |
| `JsonRegexMatcher.NullFieldOmitted` | nifi-generic-custom-processors/src/main/java/org/example/processors/generic/JSONRegexMatcher.java:165 | `{"a":null}` without the configured field is written as `{}` |
| `JsonRegexMatcher.KeyPresentRewritesOnlyThatField` | nifi-generic-custom-processors/src/main/java/org/example/processors/generic/JSONRegexMatcher.java:155-159 | with the field present only that field changes, in place, to the string the pattern extracts from its old text (the old text when nothing matches); the output is that object as `toJson` writes it, so the field reads as the new string and every other field as in the written input |
| `JsonRegexMatcher.FailureOnlyOnNullObject` | nifi-generic-custom-processors/src/main/java/org/example/processors/generic/JSONRegexMatcher.java:154-172 | the original flow file goes to failure exactly when the text is blank (Gson returns a null object) |
| `JsonRegexMatcher.OtherErrorsEscape` | nifi-generic-custom-processors/src/main/java/org/example/processors/generic/JSONRegexMatcher.java:154-157 | non-object text, a null field value and an invalid pattern raise exceptions that escape |
| `JsonRegexMatcher.NumberBecomesString` | nifi-generic-custom-processors/src/main/java/org/example/processors/generic/JSONRegexMatcher.java:156-159 | a numeric field is rewritten as a JSON string |
| `RangeConverter.Processor.constructor` | nifi-generic-custom-processors/src/main/java/org/example/processors/generic/RangeConverter.java:117-123 | a scheduled processor holds the configured source and target names (defaults `@(.*)$`, `cc_merch_name`) |
| `RangeConverter.Processor.OnScheduled` | nifi-generic-custom-processors/src/main/java/org/example/processors/generic/RangeConverter.java:117-123 | loads the source and target field names once, for every later record |
| `RangeConverter.Processor.OnTrigger` | nifi-generic-custom-processors/src/main/java/org/example/processors/generic/RangeConverter.java:130-170 | the imperative onTrigger returns exactly the outcome `Trigger` specifies for the loaded configuration |
| `RangeConverter.RejectsEmptyInput` | nifi-generic-custom-processors/src/main/java/org/example/processors/generic/RangeConverter.java:135-144 | an input is rejected without transform exactly when it is missing or empty |
| `RangeConverter.SuccessWritesRange` | nifi-generic-custom-processors/src/main/java/org/example/processors/generic/RangeConverter.java:153-159 | on success the output is the object with the range label of the source number under the target, in place or appended, as `toJson` writes it: the target reads as the label and every other field as in the written input |
| `RangeConverter.MissingKeyGoesToFailure` | nifi-generic-custom-processors/src/main/java/org/example/processors/generic/RangeConverter.java:153-167 | a missing source field (or blank text) raises NullPointerException and sends the original flow file to failure |
| `RangeConverter.FailureOnlyOnNull` | nifi-generic-custom-processors/src/main/java/org/example/processors/generic/RangeConverter.java:147-168 | failure happens exactly for blank text or a missing source field, always with the original flow file |
| `RangeConverter.ConvertAppends` | nifi-generic-custom-processors/src/main/java/org/example/processors/generic/RangeConverter.java:154-157 | a one-field record gains the label of its number under the new name |
| `RangeConverter.ConvertSample` | nifi-generic-custom-processors/src/main/java/org/example/processors/generic/RangeConverter.java:154-157 | `{"value":0.35}` gains `"range":"30-40"` |
| `KeyMapReplacer.Processor.constructor` | nifi-generic-custom-processors/src/main/java/org/example/processors/generic/KeyMapReplacer.java:148-160 | a scheduled processor holds the raw key and value lists and the comma-split check and new field lists |
| `KeyMapReplacer.Processor.OnScheduled` | nifi-generic-custom-processors/src/main/java/org/example/processors/generic/KeyMapReplacer.java:148-160 | keeps the table lists as raw strings and splits the check and new field lists on commas |
| `KeyMapReplacer.Processor.OnTrigger` | nifi-generic-custom-processors/src/main/java/org/example/processors/generic/KeyMapReplacer.java:167-208 | the imperative onTrigger returns exactly the outcome `Trigger` specifies for the loaded configuration |
| `KeyMapReplacer.RejectsEmptyInputFirst` | nifi-generic-custom-processors/src/main/java/org/example/processors/generic/KeyMapReplacer.java:172-186 | empty input is rejected whatever the configuration: the empty checks run before the arity check |
| `KeyMapReplacer.ArityMismatchEscapes` | nifi-generic-custom-processors/src/main/java/org/example/processors/generic/KeyMapReplacer.java:186-194 | field lists of different lengths, and per record table lists of different lengths, raise IllegalArgumentException, which escapes |
| `KeyMapReplacer.NeverRoutesToFailure` | nifi-generic-custom-processors/src/main/java/org/example/processors/generic/KeyMapReplacer.java:187-205 | no record ever goes to failure: nothing in the try block raises NullPointerException |
| `KeyMapReplacer.NonObjectEscapes` | nifi-generic-custom-processors/src/main/java/org/example/processors/generic/KeyMapReplacer.java:197 | blank text and a non-object root raise IllegalStateException, which escapes |
| `KeyMapReplacer.SuccessIsMapped` | nifi-generic-custom-processors/src/main/java/org/example/processors/generic/KeyMapReplacer.java:194-201 | a success output is what addMapValueToJSON makes of the object with the table built from the raw lists, written text included |
| `KeyMapReplacer.MapsOneField` | nifi-generic-custom-processors/src/main/java/org/example/processors/generic/KeyMapReplacer.java:194-201 | a one-field record whose text is in the table gains the mapped value under the new name |
| `KeyMapReplacer.MissLeavesTargetOut` | nifi-generic-custom-processors/src/main/java/org/example/processors/generic/util/Helper.java:39-45 | when the check field's text is not in the table, the new field is absent from the written record (JSON null is not written), even if the record had one, and every other field reads as in the written input |
| `KeyMapReplacer.MissDropsOneField` | nifi-generic-custom-processors/src/main/java/org/example/processors/generic/util/Helper.java:39-45 | `{check: text, new: old}` with `text` not in the table is written as `{check: text}` |
| `KeyMapReplacer.MissSample` | nifi-generic-custom-processors/src/main/java/org/example/processors/generic/KeyMapReplacer.java:194-201 | with the table `AD -> H1, AF -> H2`, `{"key1":"ZZ","cc_new":"old"}` is written as `{"key1":"ZZ"}` |
| `KeyMapReplacer.SampleTable` | nifi-generic-custom-processors/src/main/java/org/example/processors/generic/KeyMapReplacer.java:194 | the table `AD,AF` / `H1,H2` maps `AD` to `H1` |
| `KeyMapReplacer.MappingSample` | nifi-generic-custom-processors/src/main/java/org/example/processors/generic/KeyMapReplacer.java:194-201 | table `AD -> H1, AF -> H2`, pair `key1`/`cc_new`, record `{"key1":"AD"}` gives `{"key1":"AD","cc_new":"H1"}` |
| `KeyMapReplacer.DefaultCheckFields` | nifi-generic-custom-processors/src/main/java/org/example/processors/generic/util/Constant.java:22 | the default check fields split into `key1`, `key3` |
| `KeyMapReplacer.DefaultNewFields` | nifi-generic-custom-processors/src/main/java/org/example/processors/generic/util/Constant.java:26 | the default new fields split into `cc_newField`, `cc_newField2`, as many as the check fields |
| `KeyMapReplacer.DefaultTableKeys` | nifi-generic-custom-processors/src/main/java/org/example/processors/generic/util/Constant.java:14 | the default table keys split into `AD`, `AF`, `BG` |
| `KeyMapReplacer.DefaultTableValues` | nifi-generic-custom-processors/src/main/java/org/example/processors/generic/util/Constant.java:18 | the default table values split into `H1`, `H2`, `H3`, as many as the keys |
| `JsonNullRemover.OnTrigger` | nifi-generic-custom-processors/src/main/java/org/example/processors/generic/JsonNullRemover.java:86-124 | the imperative onTrigger returns exactly the outcome `Trigger` specifies |
| `JsonNullRemover.RejectsEmptyInput` | nifi-generic-custom-processors/src/main/java/org/example/processors/generic/JsonNullRemover.java:91-100 | an input is rejected without transform exactly when it is missing or empty |
| `JsonNullRemover.SuccessKeepsCleanFields` | nifi-generic-custom-processors/src/main/java/org/example/processors/generic/JsonNullRemover.java:108-118 | for an object whose fields are all readable the output keeps exactly the clean fields, in order, and none of them is null or blank |
| `JsonNullRemover.NeverRoutesToFailure` | nifi-generic-custom-processors/src/main/java/org/example/processors/generic/JsonNullRemover.java:108-123 | no record ever goes to failure: nothing in the try block raises NullPointerException |
| `JsonNullRemover.NonObjectEscapes` | nifi-generic-custom-processors/src/main/java/org/example/processors/generic/JsonNullRemover.java:108 | blank text and a non-object root raise IllegalStateException, non-JSON text JsonSyntaxException; both escape |
| `JsonNullRemover.NestedObjectEscapes` | nifi-generic-custom-processors/src/main/java/org/example/processors/generic/util/Helper.java:165-169 | a nested object field, when it is the first unreadable field, makes UnsupportedOperationException escape instead of being cleaned recursively |
| `JsonNullRemover.TriggerIdempotent` | nifi-generic-custom-processors/src/main/java/org/example/processors/generic/JsonNullRemover.java:108-118 | feeding a success output back in gives the same output |
| `JsonNullRemover.RemoverSample` | nifi-generic-custom-processors/src/test/java/org/example/processors/generic/JsonNullRemoverTest.java:47-60 | the test record produces exactly one success output, `{"name":"John","age":30}` |

## Left out

- NiFi plumbing is not modelled: `session.get/read/write/transfer`, `putAttribute` of the `filename` attribute, logging, property descriptors, `init` and `getRelationships`. `flowFileReader` (Helper.java:27-31) is replaced by the record's `Content`. A missing or empty flow file is the `Rejected` outcome, without the `transfer(null, REL_FAILURE)` call itself.
- Gson's text parsing and `toJson` serialisation are library code. A record's text is given as `Malformed | Blank | Parsed(doc)`, and a success output is the document `toJson` would write (`Document.Written`: null fields left out), not its text: whitespace, escaping and number formatting of the text are not modelled. Parsed documents are taken to have unique field names at every level (`Flow.ValidInput`), as Gson's object model guarantees.
- `java.util.regex` is a parameter, `Helper.RegexEngine`. It says which patterns compile and where the first match lies. It is only constrained by `Helper.Sound`: a match lies within the searched text.
- `Double.parseDouble` is a parameter returning an exact real or nothing. NaN, the infinities and double rounding are not modelled; `value * 10` is exact real arithmetic.
- `convertXmlToJson` (Helper.java:105-117) is not modelled, because it uses DOM parsing and a catch-all that returns null. The model starts from the element tree. Node kinds other than elements and text are one `OtherNode` case.
- The configuration fields are `private static` in the code, so processor instances share them. The model keeps them per instance. The state before the first `onScheduled`, when those fields are null, is not modelled: a `Processor` is constructed already scheduled.
- `Constant.java`'s names and descriptions are not modelled. Only the property names and defaults that the processors read appear, as constants.
- `Helper.MapStepsOkIff`: the closed-form success condition is stated only when no pair's target is also a check field. The general case, where later pairs read earlier writes, is covered only by `MapSteps` itself and `Helper.MapStepsFrame`.
- `Helper.MapStepsLastWins`: the same restriction as `Helper.MapStepsOkIff` applies.
- `Helper.RangeBucket`: stated only for buckets inside the int range. Above it, `Helper.RangeSaturatesHigh` gives the saturated label. Below it (values under about -2.1e8), no lemma states the label beyond its definition and `Helper.RangeLabelRoundTrip`.
- `JsonRegexMatcher.KeyPresentRewritesOnlyThatField`: stated for a readable field and a compiling pattern. The other cases are in `JsonRegexMatcher.OtherErrorsEscape`.
