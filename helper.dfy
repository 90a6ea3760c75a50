/**
 * The transformations of Helper.java: the key/value replacement map and its application
 * to a document, the regex rewrite, the numeric range label, the XML element conversion
 * and the pruning of null and blank fields.
 */
module Helper {

  import opened Wrappers
  import opened Document
  import JavaText

  /* ================= createReplacementMap ================= */

  /** The map built by putting `keys[i] -> values[i]` for i = 0, 1, ...: a later key wins. */
  function ZipMap(keys: seq<string>, values: seq<string>): map<string, string>
    requires |keys| == |values|
  {
    if keys == [] then map[]
    else ZipMap(keys[..|keys| - 1], values[..|values| - 1])[keys[|keys| - 1] := values[|values| - 1]]
  }

  /**
   * The map's keys are exactly the listed keys, and each maps to the value paired with
   * its last occurrence.
   */
  lemma {:induction false} ZipMapLastWins(keys: seq<string>, values: seq<string>)
    requires |keys| == |values|
    ensures forall k :: k in ZipMap(keys, values) <==> k in keys
    ensures forall i :: 0 <= i < |keys| && (forall j :: i < j < |keys| ==> keys[j] != keys[i]) ==>
              ZipMap(keys, values)[keys[i]] == values[i]
  {
    if keys != [] {
      var n := |keys| - 1;
      ZipMapLastWins(keys[..n], values[..n]);
      assert keys == keys[..n] + [keys[n]];
      forall i | 0 <= i < |keys| && (forall j :: i < j < |keys| ==> keys[j] != keys[i])
        ensures ZipMap(keys, values)[keys[i]] == values[i]
      {
        if i < n {
          assert keys[..n][i] == keys[i];
          assert forall j :: i < j < n ==> keys[..n][j] == keys[j];
        }
      }
    }
  }

  /** One more pair of the lists: the map of the longer prefixes puts that pair last. */
  lemma ZipMapPrefix(keys: seq<string>, values: seq<string>, i: nat)
    requires |keys| == |values| && i < |keys|
    ensures ZipMap(keys[..i + 1], values[..i + 1]) == ZipMap(keys[..i], values[..i])[keys[i] := values[i]]
  {
    assert keys[..i + 1][..i] == keys[..i];
    assert values[..i + 1][..i] == values[..i];
  }

  /**
   * `createReplacementMap(keys, values)`: splits both strings on commas, throws
   * IllegalArgumentException when the part counts differ, and otherwise puts the pairs
   * into a map in order.
   */
  method CreateReplacementMap(keys: string, values: string) returns (r: Result<map<string, string>, Exception>)
    ensures r.Err? <==> |JavaText.Split(keys)| != |JavaText.Split(values)|
    ensures r.Err? ==> r.error == IllegalArgument
    ensures r.Ok? ==> r.value == ZipMap(JavaText.Split(keys), JavaText.Split(values))
  {
    var keyArray := JavaText.Split(keys);
    var valueArray := JavaText.Split(values);
    if |keyArray| != |valueArray| {
      return Err(IllegalArgument);
    }
    var replacementMap: map<string, string> := map[];
    var i := 0;
    while i < |keyArray|
      invariant 0 <= i <= |keyArray|
      invariant replacementMap == ZipMap(keyArray[..i], valueArray[..i])
    {
      ZipMapPrefix(keyArray, valueArray, i);
      replacementMap := replacementMap[keyArray[i] := valueArray[i]];
      i := i + 1;
    }
    assert keyArray[..i] == keyArray && valueArray[..i] == valueArray;
    return Ok(replacementMap);
  }

  /* ================= addMapValueToJSON ================= */

  /** `Map.get(key)`, with None for Java's null. */
  function MapGet(m: map<string, string>, key: string): Option<string>
  {
    if key in m then Some(m[key]) else None
  }

  /**
   * One turn of the loop, for pair `i` with check key `key`: when the object has `key`, its
   * value is read as a string, looked up in `m`, and the result (JSON null on a miss) is
   * written under `newKeys[i]`; an absent key changes nothing.
   */
  function MapStep(ms: seq<Member>, m: map<string, string>, key: string, newKeys: seq<string>, i: nat)
    : Result<seq<Member>, Exception>
  {
    match Lookup(ms, key)
    case None => Ok(ms)
    case Some(v) =>
      match GetAsString(v)
      case Err(e) => Err(e)
      case Ok(s) =>
        if i < |newKeys| then Ok(Put(ms, newKeys[i], StringOrNull(MapGet(m, s))))
        else Err(IndexOutOfBounds)
  }

  /** The object after the first `n` turns of the loop, or the exception that stopped it. */
  function MapSteps(ms: seq<Member>, m: map<string, string>, jsonKeys: seq<string>, newKeys: seq<string>, n: nat)
    : Result<seq<Member>, Exception>
    requires n <= |jsonKeys|
  {
    if n == 0 then Ok(ms)
    else
      match MapSteps(ms, m, jsonKeys, newKeys, n - 1)
      case Err(e) => Err(e)
      case Ok(cur) => MapStep(cur, m, jsonKeys[n - 1], newKeys, n - 1)
  }

  /**
   * `addMapValueToJSON` on an already parsed document: `getAsJsonObject` throws
   * IllegalStateException unless the document is an object; then all pairs in order, and
   * the object is returned as Gson writes it, so a field holding JSON null (a map miss
   * among them) is not in the text.
   */
  function MapValues(doc: Json, m: map<string, string>, jsonKeys: seq<string>, newKeys: seq<string>)
    : Result<Json, Exception>
  {
    if !doc.JObj? then Err(IllegalState)
    else
      match MapSteps(doc.members, m, jsonKeys, newKeys, |jsonKeys|)
      case Ok(ms) => Ok(Written(JObj(ms)))
      case Err(e) => Err(e)
  }

  /**
   * The loop only throws what getAsString throws and the out-of-range array index; never
   * a NullPointerException, since a map miss stores JSON null.
   */
  lemma {:induction false} MapStepsErrors(ms: seq<Member>, m: map<string, string>, jsonKeys: seq<string>,
                                         newKeys: seq<string>, n: nat)
    requires n <= |jsonKeys|
    ensures var r := MapSteps(ms, m, jsonKeys, newKeys, n);
            r.Err? ==> r.error == UnsupportedOperation || r.error == IllegalState || r.error == IndexOutOfBounds
  {
    if n > 0 {
      MapStepsErrors(ms, m, jsonKeys, newKeys, n - 1);
    }
  }

  /** Once a turn has thrown, the loop has thrown that same exception. */
  lemma {:induction false} MapStepsErrSticky(ms: seq<Member>, m: map<string, string>, jsonKeys: seq<string>,
                                            newKeys: seq<string>, i: nat, n: nat)
    requires i <= n <= |jsonKeys|
    requires MapSteps(ms, m, jsonKeys, newKeys, i).Err?
    ensures MapSteps(ms, m, jsonKeys, newKeys, n) == MapSteps(ms, m, jsonKeys, newKeys, i)
  {
    if n > i {
      MapStepsErrSticky(ms, m, jsonKeys, newKeys, i, n - 1);
    }
  }

  /** `key` is the target name of one of the first `n` pairs. */
  predicate IsTarget(newKeys: seq<string>, n: nat, key: string)
  {
    exists i :: 0 <= i < n && i < |newKeys| && newKeys[i] == key
  }

  /**
   * The loop changes only target fields: every other field reads as before, the fields
   * already present keep their positions, a new field is a target appended at the end,
   * and names stay unique.
   */
  lemma {:induction false} MapStepsFrame(ms: seq<Member>, m: map<string, string>, jsonKeys: seq<string>,
                                        newKeys: seq<string>, n: nat)
    requires n <= |jsonKeys| && UniqueKeys(ms)
    requires MapSteps(ms, m, jsonKeys, newKeys, n).Ok?
    ensures var r := MapSteps(ms, m, jsonKeys, newKeys, n).value;
      && UniqueKeys(r)
      && |r| >= |ms|
      && (forall j :: 0 <= j < |ms| ==> r[j].0 == ms[j].0)
      && (forall j :: 0 <= j < |ms| && !IsTarget(newKeys, n, ms[j].0) ==> r[j] == ms[j])
      && (forall j :: |ms| <= j < |r| ==> IsTarget(newKeys, n, r[j].0))
      && (forall k :: !IsTarget(newKeys, n, k) ==> Lookup(r, k) == Lookup(ms, k))
  {
    if n > 0 {
      MapStepsFrame(ms, m, jsonKeys, newKeys, n - 1);
      var cur := MapSteps(ms, m, jsonKeys, newKeys, n - 1).value;
      var r := MapSteps(ms, m, jsonKeys, newKeys, n).value;
      assert r == MapStep(cur, m, jsonKeys[n - 1], newKeys, n - 1).value;
      assert forall k :: IsTarget(newKeys, n - 1, k) ==> IsTarget(newKeys, n, k);
      if Lookup(cur, jsonKeys[n - 1]).Some? {
        var key := newKeys[n - 1];
        var value := StringOrNull(MapGet(m, GetAsString(Lookup(cur, jsonKeys[n - 1]).value).value));
        assert r == Put(cur, key, value);
        assert IsTarget(newKeys, n, key);
        PutPlacement(cur, key, value);
      }
    }
  }

  /** No target name of the first `n` pairs is also one of their check keys. */
  predicate TargetsAvoidChecks(jsonKeys: seq<string>, newKeys: seq<string>, n: nat)
    requires n <= |jsonKeys|
  {
    forall i, j :: 0 <= i < n && i < |newKeys| && 0 <= j < n ==> newKeys[i] != jsonKeys[j]
  }

  /** The last of the first `n` pairs that writes `target`: its check key is in the object. */
  function LastFiring(ms: seq<Member>, jsonKeys: seq<string>, newKeys: seq<string>, target: string, n: nat)
    : (r: Option<nat>)
    requires n <= |jsonKeys|
    ensures r.Some? ==> r.value < n && r.value < |newKeys| && newKeys[r.value] == target
                        && HasKey(ms, jsonKeys[r.value])
    ensures r.Some? ==> forall i :: r.value < i < n && i < |newKeys| && newKeys[i] == target ==>
                          !HasKey(ms, jsonKeys[i])
    ensures r.None? ==> forall i :: 0 <= i < n && i < |newKeys| && newKeys[i] == target ==>
                          !HasKey(ms, jsonKeys[i])
  {
    if n == 0 then None
    else if n - 1 < |newKeys| && newKeys[n - 1] == target && HasKey(ms, jsonKeys[n - 1]) then Some(n - 1)
    else LastFiring(ms, jsonKeys, newKeys, target, n - 1)
  }

  /** Every one of the first `n` pairs whose check key is present can be carried out. */
  predicate PairsReadable(ms: seq<Member>, jsonKeys: seq<string>, newKeys: seq<string>, n: nat)
    requires n <= |jsonKeys|
  {
    forall i :: 0 <= i < n && HasKey(ms, jsonKeys[i]) ==>
      i < |newKeys| && GetAsString(Lookup(ms, jsonKeys[i]).value).Ok?
  }

  /** What pair `i` writes when it reads `ms`: the mapped value, or JSON null on a miss. */
  function PairValue(ms: seq<Member>, m: map<string, string>, key: string): Json
  {
    match Lookup(ms, key)
    case Some(v) =>
      (match GetAsString(v)
       case Ok(s) => StringOrNull(MapGet(m, s))
       case Err(_) => JNull)
    case None => JNull
  }

  /** The value a target ends up with when every pair reads the original document. */
  function FinalValue(ms: seq<Member>, m: map<string, string>, jsonKeys: seq<string>, newKeys: seq<string>,
                      target: string, n: nat): Option<Json>
    requires n <= |jsonKeys|
  {
    match LastFiring(ms, jsonKeys, newKeys, target, n)
    case None => Lookup(ms, target)
    case Some(i) => Some(PairValue(ms, m, jsonKeys[i]))
  }

  /**
   * When no pair writes a field another pair checks, the loop throws exactly when some
   * pair with a present check key holds a value getAsString rejects or has no target name.
   */
  lemma {:induction false} MapStepsOkIff(ms: seq<Member>, m: map<string, string>, jsonKeys: seq<string>,
                                        newKeys: seq<string>, n: nat)
    requires n <= |jsonKeys| && UniqueKeys(ms) && TargetsAvoidChecks(jsonKeys, newKeys, n)
    ensures MapSteps(ms, m, jsonKeys, newKeys, n).Ok? <==> PairsReadable(ms, jsonKeys, newKeys, n)
  {
    if n > 0 {
      assert TargetsAvoidChecks(jsonKeys, newKeys, n - 1);
      MapStepsOkIff(ms, m, jsonKeys, newKeys, n - 1);
      var prev := MapSteps(ms, m, jsonKeys, newKeys, n - 1);
      if prev.Ok? {
        var key := jsonKeys[n - 1];
        MapStepsFrame(ms, m, jsonKeys, newKeys, n - 1);
        assert !IsTarget(newKeys, n - 1, key);
        assert Lookup(prev.value, key) == Lookup(ms, key);
        assert HasKey(ms, key) <==> Find(ms, key).Some?;
      }
    }
  }

  /**
   * When no pair writes a field another pair checks, every pair reads the original
   * document: each target holds the mapped value (JSON null on a miss) of the last pair
   * whose check key is present, a later pair overwriting an earlier one, and every field
   * that no firing pair targets is unchanged.
   */
  lemma {:induction false} MapStepsLastWins(ms: seq<Member>, m: map<string, string>, jsonKeys: seq<string>,
                                           newKeys: seq<string>, n: nat)
    requires n <= |jsonKeys| && UniqueKeys(ms) && TargetsAvoidChecks(jsonKeys, newKeys, n)
    requires MapSteps(ms, m, jsonKeys, newKeys, n).Ok?
    ensures forall t :: Lookup(MapSteps(ms, m, jsonKeys, newKeys, n).value, t) ==
                        FinalValue(ms, m, jsonKeys, newKeys, t, n)
  {
    if n > 0 {
      assert TargetsAvoidChecks(jsonKeys, newKeys, n - 1);
      var prev := MapSteps(ms, m, jsonKeys, newKeys, n - 1);
      assert prev.Ok?;
      MapStepsLastWins(ms, m, jsonKeys, newKeys, n - 1);
      var cur := prev.value;
      var key := jsonKeys[n - 1];
      MapStepsFrame(ms, m, jsonKeys, newKeys, n - 1);
      assert !IsTarget(newKeys, n - 1, key);
      assert Lookup(cur, key) == Lookup(ms, key);
      assert HasKey(ms, key) <==> Find(ms, key).Some?;
      if HasKey(ms, key) {
        var value := PairValue(ms, m, key);
        var r := Put(cur, newKeys[n - 1], value);
        assert MapSteps(ms, m, jsonKeys, newKeys, n) == Ok(r);
        PutFrame(cur, newKeys[n - 1], value);
        forall t ensures Lookup(r, t) == FinalValue(ms, m, jsonKeys, newKeys, t, n) {
          if t != newKeys[n - 1] {
            assert FinalValue(ms, m, jsonKeys, newKeys, t, n) == FinalValue(ms, m, jsonKeys, newKeys, t, n - 1);
          }
        }
      } else {
        forall t ensures Lookup(cur, t) == FinalValue(ms, m, jsonKeys, newKeys, t, n) {
          assert FinalValue(ms, m, jsonKeys, newKeys, t, n) == FinalValue(ms, m, jsonKeys, newKeys, t, n - 1);
        }
      }
    }
  }

  /** Where `add` leaves the fields: existing positions keep their names, a new field goes last. */
  lemma PutPlacement(ms: seq<Member>, key: string, value: Json)
    requires UniqueKeys(ms)
    ensures var r := Put(ms, key, value);
      && UniqueKeys(r)
      && |r| >= |ms|
      && (forall j :: 0 <= j < |ms| ==> r[j].0 == ms[j].0)
      && (forall j :: 0 <= j < |ms| && ms[j].0 != key ==> r[j] == ms[j])
      && (forall j :: |ms| <= j < |r| ==> r[j].0 == key)
      && (forall k :: k != key ==> Lookup(r, k) == Lookup(ms, k))
  {
    PutFrame(ms, key, value);
    if HasKey(ms, key) {
      var i :| 0 <= i < |ms| && ms[i].0 == key;
      FindUnique(ms, key, i);
    }
  }

  /** The body of the loop for pair `i`, applied to the object in place. */
  method MapPair(jsonObject: JsonObject, m: map<string, string>, key: string, newKeys: seq<string>, i: nat)
    returns (thrown: Option<Exception>)
    requires jsonObject.Valid()
    modifies jsonObject
    ensures jsonObject.Valid()
    ensures MapStep(old(jsonObject.members), m, key, newKeys, i) ==
              if thrown.Some? then Err(thrown.value) else Ok(jsonObject.members)
    ensures thrown.Some? ==> jsonObject.members == old(jsonObject.members)
  {
    thrown := None;
    if jsonObject.Has(key) {
      var replacementValue := GetAsString(jsonObject.Get(key).value);
      if replacementValue.Err? {
        return Some(replacementValue.error);
      }
      if i >= |newKeys| {
        return Some(IndexOutOfBounds);
      }
      var mapValue := MapGet(m, replacementValue.value);
      jsonObject.AddProperty(newKeys[i], StringOrNull(mapValue));
    }
  }

  /** The loop over the index pairs, on the object in place; stops at the first exception. */
  method MapAllPairs(jsonObject: JsonObject, m: map<string, string>, jsonKeys: seq<string>, newKeys: seq<string>)
    returns (thrown: Option<Exception>)
    requires jsonObject.Valid()
    modifies jsonObject
    ensures jsonObject.Valid()
    ensures MapSteps(old(jsonObject.members), m, jsonKeys, newKeys, |jsonKeys|) ==
              if thrown.Some? then Err(thrown.value) else Ok(jsonObject.members)
  {
    ghost var start := jsonObject.members;
    var i := 0;
    while i < |jsonKeys|
      invariant 0 <= i <= |jsonKeys|
      invariant jsonObject.Valid()
      invariant MapSteps(start, m, jsonKeys, newKeys, i) == Ok(jsonObject.members)
    {
      ghost var before := jsonObject.members;
      thrown := MapPair(jsonObject, m, jsonKeys[i], newKeys, i);
      assert MapSteps(start, m, jsonKeys, newKeys, i + 1) == MapStep(before, m, jsonKeys[i], newKeys, i);
      if thrown.Some? {
        MapStepsErrSticky(start, m, jsonKeys, newKeys, i + 1, |jsonKeys|);
        return;
      }
      i := i + 1;
    }
    thrown := None;
  }

  /**
   * `addMapValueToJSON(json, map, jsonKey, newKeyArray)`: the loop over the index pairs,
   * updating a freshly parsed JsonObject in place.
   */
  method AddMapValueToJson(doc: Json, m: map<string, string>, jsonKeys: seq<string>, newKeys: seq<string>)
    returns (r: Result<Json, Exception>)
    requires WellFormed(doc)
    ensures r == MapValues(doc, m, jsonKeys, newKeys)
  {
    if !doc.JObj? {
      return Err(IllegalState);
    }
    var jsonObject := new JsonObject(doc.members);
    var thrown := MapAllPairs(jsonObject, m, jsonKeys, newKeys);
    if thrown.Some? {
      return Err(thrown.value);
    }
    return Ok(Written(JObj(jsonObject.members)));
  }

  /* ================= applyRegexPattern ================= */

  /** Where a match lies in the searched text: characters start .. end - 1. */
  datatype Span = Span(start: nat, end: nat)

  /**
   * java.util.regex, which the model does not implement: whether a pattern compiles, and
   * the span of the first match `Matcher.find()` reports, if any.
   */
  datatype RegexEngine = RegexEngine(compiles: string -> bool, firstMatch: (string, string) -> Option<Span>)

  /** A match always lies inside the text searched. */
  ghost predicate Sound(engine: RegexEngine)
  {
    forall pattern, text :: engine.firstMatch(pattern, text).Some? ==>
      engine.firstMatch(pattern, text).value.start <= engine.firstMatch(pattern, text).value.end <= |text|
  }

  /** `part` occurs in `text` as a contiguous slice. */
  ghost predicate IsSlice(part: string, text: string)
  {
    exists a, b :: 0 <= a <= b <= |text| && text[a..b] == part
  }

  /**
   * `applyRegexPattern(value, regexPattern)`: compiling a bad pattern throws
   * PatternSyntaxException; otherwise the whole first match (`group()`, not a capture
   * group) when there is one, and the input unchanged when there is none.
   */
  function ApplyRegexPattern(value: string, pattern: string, engine: RegexEngine): (r: Result<string, Exception>)
    requires Sound(engine)
    ensures r.Err? <==> !engine.compiles(pattern)
    ensures r.Err? ==> r.error == PatternSyntax
    ensures r.Ok? ==> IsSlice(r.value, value)
    ensures r.Ok? && engine.firstMatch(pattern, value).None? ==> r.value == value
    ensures r.Ok? && engine.firstMatch(pattern, value).Some? ==>
              var span := engine.firstMatch(pattern, value).value;
              r.value == value[span.start..span.end]
  {
    if !engine.compiles(pattern) then Err(PatternSyntax)
    else
      match engine.firstMatch(pattern, value)
      case Some(span) => Ok(value[span.start..span.end])
      case None => assert value[0..|value|] == value; Ok(value)
  }

  /* ================= convertToRange ================= */

  const IntMin: int := -0x8000_0000
  const IntMax: int := 0x7fff_ffff

  /** `rangeSize` and `rangeCount`, both hard-coded to 10. */
  const RangeSize: int := 10
  const RangeCount: int := 10

  /** Java's `(int)` cast of a double holding an integer: it saturates at the int bounds. */
  function SaturateInt(x: int): (r: int)
    ensures IntMin <= r <= IntMax
    ensures IntMin <= x <= IntMax ==> r == x
    ensures x > IntMax ==> r == IntMax
    ensures x < IntMin ==> r == IntMin
  {
    if x < IntMin then IntMin else if x > IntMax then IntMax else x
  }

  /** Java's 32-bit int addition result: wraps around modulo 2^32. */
  function WrapInt(x: int): (r: int)
    ensures IntMin <= r <= IntMax
    ensures IntMin <= x <= IntMax ==> r == x
    ensures (r - x) % 0x1_0000_0000 == 0
  {
    (x - IntMin) % 0x1_0000_0000 + IntMin
  }

  /** `rangeMin = (int) (Math.floor(value * rangeCount) * rangeSize)`. */
  function RangeMin(value: real): int
  {
    SaturateInt((value * RangeCount as real).Floor * RangeSize)
  }

  /** `rangeMax = rangeMin + (int) rangeSize`, in int arithmetic. */
  function RangeMax(value: real): int
  {
    WrapInt(RangeMin(value) + RangeSize)
  }

  /** `convertToRange(value)`: the label "rangeMin-rangeMax". */
  function ConvertToRange(value: real): string
  {
    JavaText.IntToString(RangeMin(value)) + "-" + JavaText.IntToString(RangeMax(value))
  }

  /** The bucket below the int bounds: rangeMin and rangeMax are neither cut off nor wrapped. */
  predicate InIntRange(value: real)
  {
    IntMin <= (value * RangeCount as real).Floor * RangeSize <= IntMax - RangeSize
  }

  /**
   * Without saturation the label names a bucket of width 10 that starts at a multiple of
   * 10 and contains 100 * value.
   */
  lemma RangeBucket(value: real)
    requires InIntRange(value)
    ensures RangeMax(value) - RangeMin(value) == RangeSize
    ensures RangeMin(value) % RangeSize == 0
    ensures RangeMin(value) as real <= value * 100.0 < RangeMax(value) as real
  {
    var f := (value * 10.0).Floor;
    assert RangeMin(value) == f * 10;
    assert f as real <= value * 10.0 < f as real + 1.0;
  }

  /** Above the int range the cast saturates and the addition wraps: rangeMax lies below rangeMin. */
  lemma RangeSaturatesHigh(value: real)
    requires (value * RangeCount as real).Floor * RangeSize > IntMax
    ensures RangeMin(value) == IntMax
    ensures RangeMax(value) == IntMin + RangeSize - 1
    ensures RangeMax(value) < RangeMin(value)
  {
  }

  /** Position of the first '-' in `s` at or after `i`, or |s| when there is none. */
  function DashFrom(s: string, i: nat): (r: nat)
    requires i <= |s|
    ensures i <= r <= |s|
    ensures r < |s| ==> s[r] == '-'
    ensures forall j :: i <= j < r ==> s[j] != '-'
    decreases |s| - i
  {
    if i == |s| then |s| else if s[i] == '-' then i else DashFrom(s, i + 1)
  }

  /**
   * Reads a label back into its two bounds: the separator is the first '-' after the
   * first character (a leading '-' is the sign of the lower bound).
   */
  function ParseRange(text: string): Option<(int, int)>
  {
    if |text| == 0 then None
    else
      var d := DashFrom(text, 1);
      if d == |text| then None
      else
        match (JavaText.ParseInt(text[..d]), JavaText.ParseInt(text[d + 1..]))
        case (Some(lo), Some(hi)) => Some((lo, hi))
        case _ => None
  }

  lemma {:induction false} DashAfterInt(a: int, rest: string)
    ensures var s := JavaText.IntToString(a) + "-" + rest;
      DashFrom(s, 1) == |JavaText.IntToString(a)|
  {
    var t := JavaText.IntToString(a);
    var s := t + "-" + rest;
    assert forall j :: 1 <= j < |t| ==> s[j] == t[j] && t[j] != '-' by {
      if a < 0 {
        assert forall j :: 1 <= j < |t| ==> t[j] == JavaText.NatDigits(-a)[j - 1];
      }
    }
    assert s[|t|] == '-';
  }

  /** Reading the label of any value gives back the two bounds written into it. */
  lemma RangeLabelRoundTrip(value: real)
    ensures ParseRange(ConvertToRange(value)) == Some((RangeMin(value), RangeMax(value)))
  {
    var lo, hi := RangeMin(value), RangeMax(value);
    var a, b := JavaText.IntToString(lo), JavaText.IntToString(hi);
    var s := a + "-" + b;
    DashAfterInt(lo, b);
    assert s[..|a|] == a;
    assert s[|a| + 1..] == b;
    JavaText.IntToStringRoundTrip(lo);
    JavaText.IntToStringRoundTrip(hi);
  }

  /** The documented sample: 0.35 falls in the bucket "30-40". */
  lemma ConvertToRangeSample()
    ensures ConvertToRange(0.35) == "30-40"
  {
    assert (0.35 * 10.0).Floor == 3;
    assert JavaText.NatDigits(3) == "3";
    assert JavaText.NatDigits(30) == JavaText.NatDigits(3) + "0";
    assert JavaText.NatDigits(4) == "4";
    assert JavaText.NatDigits(40) == JavaText.NatDigits(4) + "0";
  }

  /* ================= convertElementToJson ================= */

  /**
   * A DOM element: its tag, its attributes in the order the element's NamedNodeMap lists
   * them (sorted by name in the JDK's DOM), and its child nodes.
   */
  datatype Element = Element(name: string, attributes: seq<(string, string)>, children: seq<XmlNode>)

  /** A DOM child node: an element, a text node, or any other kind (comment, CDATA, ...). */
  datatype XmlNode = ElementNode(element: Element) | TextNode(text: string) | OtherNode

  /** `add` of each pair in turn. */
  function PutAll(ms: seq<Member>, pairs: seq<Member>): seq<Member>
  {
    if pairs == [] then ms
    else Put(PutAll(ms, pairs[..|pairs| - 1]), pairs[|pairs| - 1].0, pairs[|pairs| - 1].1)
  }

  /** Appending a pair: it supplies its own name's value and hides nothing else. */
  lemma LastLookupSnoc(pairs: seq<Member>, m: Member, key: string)
    ensures LastLookup(pairs + [m], key) == if m.0 == key then Some(m.1) else LastLookup(pairs, key)
  {
    assert (pairs + [m])[..|pairs|] == pairs;
  }

  /** Putting pairs keeps names unique; the names are the old ones and the pairs'. */
  lemma PutAllKeys(ms: seq<Member>, pairs: seq<Member>)
    requires UniqueKeys(ms)
    ensures UniqueKeys(PutAll(ms, pairs))
    ensures forall k :: HasKey(PutAll(ms, pairs), k) <==> HasKey(ms, k) || HasKey(pairs, k)
  {
    PutAllLastWins(ms, pairs);
  }

  /** The value paired with the last occurrence of `key`. */
  function LastLookup(pairs: seq<Member>, key: string): (r: Option<Json>)
    ensures r.Some? <==> HasKey(pairs, key)
  {
    if pairs == [] then None
    else if pairs[|pairs| - 1].0 == key then Some(pairs[|pairs| - 1].1)
    else
      var r := LastLookup(pairs[..|pairs| - 1], key);
      assert HasKey(pairs[..|pairs| - 1], key) ==> HasKey(pairs, key);
      assert HasKey(pairs, key) ==> HasKey(pairs[..|pairs| - 1], key) by {
        if HasKey(pairs, key) {
          var i :| 0 <= i < |pairs| && pairs[i].0 == key;
          assert pairs[..|pairs| - 1][i].0 == key;
        }
      }
      r
  }

  /** Putting pairs in order: the last pair for a name wins and the other names are kept. */
  lemma {:induction false} PutAllLastWins(ms: seq<Member>, pairs: seq<Member>)
    requires UniqueKeys(ms)
    ensures UniqueKeys(PutAll(ms, pairs))
    ensures forall k :: Lookup(PutAll(ms, pairs), k) ==
                        if HasKey(pairs, k) then LastLookup(pairs, k) else Lookup(ms, k)
    ensures forall k :: HasKey(PutAll(ms, pairs), k) <==> HasKey(ms, k) || HasKey(pairs, k)
  {
    if pairs != [] {
      var n := |pairs| - 1;
      PutAllLastWins(ms, pairs[..n]);
      var prev := PutAll(ms, pairs[..n]);
      PutFrame(prev, pairs[n].0, pairs[n].1);
      forall k | k != pairs[n].0
        ensures HasKey(pairs, k) <==> HasKey(pairs[..n], k)
      {
        if HasKey(pairs, k) {
          var i :| 0 <= i < |pairs| && pairs[i].0 == k;
          assert pairs[..n][i].0 == k;
        }
      }
      assert HasKey(pairs, pairs[n].0);
    }
  }

  /** The string fields made from the attributes. */
  function AttributePairs(attributes: seq<(string, string)>): (r: seq<Member>)
    ensures |r| == |attributes|
    ensures forall i :: 0 <= i < |r| ==> r[i] == (attributes[i].0, JStr(attributes[i].1))
  {
    seq(|attributes|, i requires 0 <= i < |attributes| => (attributes[i].0, JStr(attributes[i].1)))
  }

  /** The attribute fields are named by exactly the attribute names. */
  lemma AttributePairsKeys(attributes: seq<(string, string)>)
    ensures forall k :: HasKey(AttributePairs(attributes), k) <==>
              exists i :: 0 <= i < |attributes| && attributes[i].0 == k
  {
    var attrs := AttributePairs(attributes);
    forall k ensures HasKey(attrs, k) <==> exists i :: 0 <= i < |attributes| && attributes[i].0 == k {
      if HasKey(attrs, k) {
        var i :| 0 <= i < |attrs| && attrs[i].0 == k;
        assert attributes[i].0 == k;
      }
    }
  }

  /** The nested-object fields made from the first `n` children that are elements. */
  function ChildPairs(e: Element, n: nat): (r: seq<Member>)
    requires n <= |e.children|
    decreases e, 0, n
  {
    if n == 0 then []
    else
      match e.children[n - 1]
      case ElementNode(c) =>
        assert c < e.children[n - 1];
        ChildPairs(e, n - 1) + [(c.name, ElementToJson(c))]
      case _ => ChildPairs(e, n - 1)
  }

  /** The element's only child node is a text node. */
  predicate SingleText(e: Element)
  {
    |e.children| == 1 && e.children[0].TextNode?
  }

  /**
   * The object `convertElementToJson` builds for an element: the attributes as string
   * fields, then each child element as a nested object under its tag, then, when the
   * only child node is text, that untrimmed text under the element's own tag.
   */
  function ElementToJson(e: Element): Json
    decreases e, 1
  {
    var withAttributes := PutAll([], AttributePairs(e.attributes));
    var withChildren := PutAll(withAttributes, ChildPairs(e, |e.children|));
    if SingleText(e) then JObj(Put(withChildren, e.name, JStr(e.children[0].text)))
    else JObj(withChildren)
  }

  /** One of the first `n` children is an element with this tag. */
  predicate HasChildTagBefore(e: Element, tag: string, n: nat)
    requires n <= |e.children|
  {
    exists i :: 0 <= i < n && e.children[i].ElementNode? && e.children[i].element.name == tag
  }

  /** A child element's tag. */
  predicate HasChildTag(e: Element, tag: string)
  {
    HasChildTagBefore(e, tag, |e.children|)
  }

  /** The child at `i` is an element and no later child among the first `n` is an element with its tag. */
  predicate LastOfTagBefore(e: Element, i: nat, n: nat)
    requires i < n <= |e.children|
  {
    e.children[i].ElementNode? &&
    forall j :: i < j < n && e.children[j].ElementNode? ==> e.children[j].element.name != e.children[i].element.name
  }

  /** The child at `i` is the last child element with its tag. */
  predicate LastOfTag(e: Element, i: nat)
    requires i < |e.children|
  {
    LastOfTagBefore(e, i, |e.children|)
  }

  lemma {:induction false} ChildPairsKeys(e: Element, n: nat)
    requires n <= |e.children|
    ensures forall tag :: HasKey(ChildPairs(e, n), tag) <==> HasChildTagBefore(e, tag, n)
  {
    if n > 0 {
      ChildPairsKeys(e, n - 1);
      var prev := ChildPairs(e, n - 1);
      var cur := ChildPairs(e, n);
      forall tag
        ensures HasChildTagBefore(e, tag, n) <==>
                  (HasChildTagBefore(e, tag, n - 1) ||
                   (e.children[n - 1].ElementNode? && e.children[n - 1].element.name == tag))
      {
      }
      match e.children[n - 1]
      case ElementNode(c) =>
        assert cur == prev + [(c.name, ElementToJson(c))];
        forall tag ensures HasKey(cur, tag) <==> HasKey(prev, tag) || tag == c.name {
          if HasKey(cur, tag) && tag != c.name {
            var i :| 0 <= i < |cur| && cur[i].0 == tag;
            assert prev[i].0 == tag;
          }
          if HasKey(prev, tag) {
            var i :| 0 <= i < |prev| && prev[i].0 == tag;
            assert cur[i].0 == tag;
          }
          assert cur[|prev|].0 == c.name;
        }
      case _ =>
    }
  }

  /** One more child: an element adds its conversion under its tag, any other node nothing. */
  lemma ChildPairsStep(e: Element, n: nat)
    requires 0 < n <= |e.children|
    ensures e.children[n - 1].ElementNode? ==>
              ChildPairs(e, n) == ChildPairs(e, n - 1) +
                [(e.children[n - 1].element.name, ElementToJson(e.children[n - 1].element))]
    ensures !e.children[n - 1].ElementNode? ==> ChildPairs(e, n) == ChildPairs(e, n - 1)
  {
  }

  lemma {:induction false} ChildPairsLastWins(e: Element, n: nat, i: nat)
    requires i < n <= |e.children| && LastOfTagBefore(e, i, n)
    ensures LastLookup(ChildPairs(e, n), e.children[i].element.name) == Some(ElementToJson(e.children[i].element))
  {
    var prev := ChildPairs(e, n - 1);
    var name := e.children[i].element.name;
    ChildPairsStep(e, n);
    if e.children[n - 1].ElementNode? {
      var c := e.children[n - 1].element;
      LastLookupSnoc(prev, (c.name, ElementToJson(c)), name);
      if i < n - 1 {
        assert c.name != name;
        assert LastOfTagBefore(e, i, n - 1);
        ChildPairsLastWins(e, n - 1, i);
      }
    } else {
      assert LastOfTagBefore(e, i, n - 1);
      ChildPairsLastWins(e, n - 1, i);
    }
  }

  /** Every value in the list is a well-formed document. */
  predicate ValuesWellFormed(ms: seq<Member>)
  {
    forall i :: 0 <= i < |ms| ==> WellFormed(ms[i].1)
  }

  lemma PutValuesWellFormed(ms: seq<Member>, key: string, value: Json)
    requires ValuesWellFormed(ms) && WellFormed(value)
    ensures ValuesWellFormed(Put(ms, key, value))
  {
    var r := Put(ms, key, value);
    match Find(ms, key)
    case Some(p) => assert r == ms[p := (key, value)];
    case None =>
  }

  lemma {:induction false} PutAllValuesWellFormed(ms: seq<Member>, pairs: seq<Member>)
    requires ValuesWellFormed(ms) && ValuesWellFormed(pairs)
    ensures ValuesWellFormed(PutAll(ms, pairs))
  {
    if pairs != [] {
      var n := |pairs| - 1;
      PutAllValuesWellFormed(ms, pairs[..n]);
      PutValuesWellFormed(PutAll(ms, pairs[..n]), pairs[n].0, pairs[n].1);
    }
  }

  lemma {:induction false} ChildPairsWellFormed(e: Element, n: nat)
    requires n <= |e.children|
    ensures ValuesWellFormed(ChildPairs(e, n))
    decreases e, 0, n
  {
    if n > 0 {
      ChildPairsWellFormed(e, n - 1);
      match e.children[n - 1]
      case ElementNode(c) =>
        assert c < e.children[n - 1];
        ElementToJsonWellFormed(c);
      case _ =>
    }
  }

  /**
   * The keys of the converted object are the attribute names, the child element tags and,
   * for a single text child, the element's own tag, and they are unique.
   */
  lemma ElementToJsonKeys(e: Element)
    ensures ElementToJson(e).JObj?
    ensures UniqueKeys(ElementToJson(e).members)
    ensures forall k :: HasKey(ElementToJson(e).members, k) <==>
              (exists i :: 0 <= i < |e.attributes| && e.attributes[i].0 == k) ||
              HasChildTag(e, k) || (SingleText(e) && k == e.name)
  {
    var attrs := AttributePairs(e.attributes);
    var children := ChildPairs(e, |e.children|);
    PutAllKeys([], attrs);
    var withAttributes := PutAll([], attrs);
    PutAllKeys(withAttributes, children);
    ChildPairsKeys(e, |e.children|);
    AttributePairsKeys(e.attributes);
    if SingleText(e) {
      PutFrame(PutAll(withAttributes, children), e.name, JStr(e.children[0].text));
    }
  }

  /** The converted object, and every object nested in it, has unique field names. */
  lemma {:induction false} ElementToJsonWellFormed(e: Element)
    ensures WellFormed(ElementToJson(e))
    decreases e, 1
  {
    ElementToJsonKeys(e);
    var attrs := AttributePairs(e.attributes);
    var children := ChildPairs(e, |e.children|);
    var withAttributes := PutAll([], attrs);
    var withChildren := PutAll(withAttributes, children);
    PutAllValuesWellFormed([], attrs);
    ChildPairsWellFormed(e, |e.children|);
    PutAllValuesWellFormed(withAttributes, children);
    if SingleText(e) {
      PutValuesWellFormed(withChildren, e.name, JStr(e.children[0].text));
    }
  }

  /** The last pair with a given name supplies LastLookup's value. */
  lemma {:induction false} LastLookupAt(pairs: seq<Member>, i: nat)
    requires i < |pairs| && forall j :: i < j < |pairs| ==> pairs[j].0 != pairs[i].0
    ensures LastLookup(pairs, pairs[i].0) == Some(pairs[i].1)
  {
    if i < |pairs| - 1 {
      var prefix := pairs[..|pairs| - 1];
      LastLookupAt(prefix, i);
    }
  }

  /**
   * What the converted object holds: a single text child's untrimmed text under the
   * element's own tag; under each child tag the conversion of the last child element with
   * that tag; under an attribute name that no child tag or own-tag text overwrites, the
   * value of the last attribute with that name.
   */
  lemma ElementToJsonValues(e: Element)
    ensures SingleText(e) ==> Lookup(ElementToJson(e).members, e.name) == Some(JStr(e.children[0].text))
    ensures forall i :: 0 <= i < |e.children| && LastOfTag(e, i) ==>
              Lookup(ElementToJson(e).members, e.children[i].element.name) == Some(ElementToJson(e.children[i].element))
    ensures forall i :: 0 <= i < |e.attributes| &&
              (forall j :: i < j < |e.attributes| ==> e.attributes[j].0 != e.attributes[i].0) &&
              !HasChildTag(e, e.attributes[i].0) && !(SingleText(e) && e.attributes[i].0 == e.name)
              ==> Lookup(ElementToJson(e).members, e.attributes[i].0) == Some(JStr(e.attributes[i].1))
  {
    if SingleText(e) {
      ElementTextValue(e);
    }
    forall i | 0 <= i < |e.children| && LastOfTag(e, i)
      ensures Lookup(ElementToJson(e).members, e.children[i].element.name) == Some(ElementToJson(e.children[i].element))
    {
      ElementChildValue(e, i);
    }
    forall i | 0 <= i < |e.attributes| &&
               (forall j :: i < j < |e.attributes| ==> e.attributes[j].0 != e.attributes[i].0) &&
               !HasChildTag(e, e.attributes[i].0) && !(SingleText(e) && e.attributes[i].0 == e.name)
      ensures Lookup(ElementToJson(e).members, e.attributes[i].0) == Some(JStr(e.attributes[i].1))
    {
      ElementAttributeValue(e, i);
    }
  }

  /** A single text child's text stands under the element's own tag. */
  lemma ElementTextValue(e: Element)
    requires SingleText(e)
    ensures Lookup(ElementToJson(e).members, e.name) == Some(JStr(e.children[0].text))
  {
    PutAllKeys([], AttributePairs(e.attributes));
    PutAllKeys(PutAll([], AttributePairs(e.attributes)), ChildPairs(e, |e.children|));
    var withChildren := PutAll(PutAll([], AttributePairs(e.attributes)), ChildPairs(e, |e.children|));
    PutFrame(withChildren, e.name, JStr(e.children[0].text));
  }

  /** Under a child tag stands the conversion of the last child element with that tag. */
  lemma ElementChildValue(e: Element, i: nat)
    requires i < |e.children| && LastOfTag(e, i)
    ensures Lookup(ElementToJson(e).members, e.children[i].element.name) == Some(ElementToJson(e.children[i].element))
  {
    assert !SingleText(e) by {
      assert e.children[i].ElementNode?;
    }
    var attrs := AttributePairs(e.attributes);
    var children := ChildPairs(e, |e.children|);
    PutAllKeys([], attrs);
    var withAttributes := PutAll([], attrs);
    assert ElementToJson(e).members == PutAll(withAttributes, children);
    PutAllLastWins(withAttributes, children);
    var name := e.children[i].element.name;
    ChildPairsKeys(e, |e.children|);
    assert HasChildTag(e, name);
    ChildPairsLastWins(e, |e.children|, i);
  }

  /** An attribute that no later attribute, child tag or text field overwrites keeps its value. */
  lemma ElementAttributeValue(e: Element, i: nat)
    requires i < |e.attributes|
    requires forall j :: i < j < |e.attributes| ==> e.attributes[j].0 != e.attributes[i].0
    requires !HasChildTag(e, e.attributes[i].0) && !(SingleText(e) && e.attributes[i].0 == e.name)
    ensures Lookup(ElementToJson(e).members, e.attributes[i].0) == Some(JStr(e.attributes[i].1))
  {
    var attrs := AttributePairs(e.attributes);
    var children := ChildPairs(e, |e.children|);
    PutAllLastWins([], attrs);
    var withAttributes := PutAll([], attrs);
    PutAllLastWins(withAttributes, children);
    ChildPairsKeys(e, |e.children|);
    var withChildren := PutAll(withAttributes, children);
    LastLookupAt(attrs, i);
    assert HasKey(attrs, attrs[i].0);
    if SingleText(e) {
      PutFrame(withChildren, e.name, JStr(e.children[0].text));
    }
  }

  /**
   * `convertElementToJson(element)`: adds the attributes, then recursively each child
   * element, then the single text child under the element's own tag, to a fresh
   * JsonObject.
   */
  method ConvertElementToJson(e: Element) returns (r: Json)
    ensures r == ElementToJson(e)
    decreases e, 1
  {
    var jsonObject := new JsonObject([]);
    AddAttributes(jsonObject, e.attributes);
    AddChildren(jsonObject, e);
    if SingleText(e) {
      jsonObject.AddProperty(e.name, JStr(e.children[0].text));
    }
    return JObj(jsonObject.members);
  }

  /** The attribute loop of `convertElementToJson`. */
  method AddAttributes(jsonObject: JsonObject, attributes: seq<(string, string)>)
    requires jsonObject.Valid()
    modifies jsonObject
    ensures jsonObject.Valid()
    ensures jsonObject.members == PutAll(old(jsonObject.members), AttributePairs(attributes))
  {
    ghost var pairs := AttributePairs(attributes);
    var i := 0;
    while i < |attributes|
      invariant 0 <= i <= |attributes|
      invariant jsonObject.Valid()
      invariant jsonObject.members == PutAll(old(jsonObject.members), pairs[..i])
    {
      assert pairs[..i + 1][..i] == pairs[..i];
      jsonObject.AddProperty(attributes[i].0, JStr(attributes[i].1));
      i := i + 1;
    }
    assert pairs[..i] == pairs;
  }

  /** The child-node loop of `convertElementToJson`: each child element, converted, under its tag. */
  method AddChildren(jsonObject: JsonObject, e: Element)
    requires jsonObject.Valid()
    modifies jsonObject
    ensures jsonObject.Valid()
    ensures jsonObject.members == PutAll(old(jsonObject.members), ChildPairs(e, |e.children|))
    decreases e, 0
  {
    var i := 0;
    while i < |e.children|
      invariant 0 <= i <= |e.children|
      invariant jsonObject.Valid()
      invariant jsonObject.members == PutAll(old(jsonObject.members), ChildPairs(e, i))
    {
      var child := e.children[i];
      if child.ElementNode? {
        assert child.element < child;
        var childObject := ConvertElementToJson(child.element);
        jsonObject.AddProperty(child.element.name, childObject);
      }
      i := i + 1;
    }
  }

  /** An element whose only child is text maps its tag to that text. */
  lemma TextElementToJson(tag: string, text: string)
    ensures ElementToJson(Element(tag, [], [TextNode(text)])) == JObj([(tag, JStr(text))])
  {
    var e := Element(tag, [], [TextNode(text)]);
    assert ChildPairs(e, 0) == [];
    assert ChildPairs(e, 1) == [];
    assert AttributePairs([]) == [];
    assert PutAll([], []) == [];
    assert SingleText(e);
    assert Put([], tag, JStr(text)) == [(tag, JStr(text))];
  }

  /** An element with one attribute and one text-only child element. */
  lemma NestedElementToJson(tag: string, name: string, value: string, childTag: string, text: string)
    requires name != childTag
    ensures ElementToJson(Element(tag, [(name, value)], [ElementNode(Element(childTag, [], [TextNode(text)]))]))
         == JObj([(name, JStr(value)), (childTag, JObj([(childTag, JStr(text))]))])
  {
    var child := Element(childTag, [], [TextNode(text)]);
    var e := Element(tag, [(name, value)], [ElementNode(child)]);
    var childObject := JObj([(childTag, JStr(text))]);
    TextElementToJson(childTag, text);
    var attrs := AttributePairs(e.attributes);
    var children := ChildPairs(e, 1);
    assert ElementToJson(e) == JObj(PutAll(PutAll([], attrs), children)) by {
      assert !SingleText(e);
    }
    assert PutAll([], attrs) == [(name, JStr(value))] by {
      assert attrs == [(name, JStr(value))];
      assert attrs[..0] == [];
    }
    assert children == [(childTag, childObject)] by {
      assert ChildPairs(e, 0) == [];
    }
    assert PutAll([(name, JStr(value))], children) == [(name, JStr(value)), (childTag, childObject)] by {
      assert children[..0] == [];
      assert !HasKey([(name, JStr(value))], childTag);
    }
  }

  /** The documented sample: `<a id="1"><b>text</b></a>`. */
  lemma ElementToJsonSample()
    ensures ElementToJson(Element("a", [("id", "1")], [ElementNode(Element("b", [], [TextNode("text")]))]))
         == JObj([("id", JStr("1")), ("b", JObj([("b", JStr("text"))]))])
  {
    NestedElementToJson("a", "id", "1", "b", "text");
  }

  /* ================= removeNullEmptyAndWhitespaceFields ================= */

  /**
   * Whether a field is to be removed: null always is; any other value is read with
   * `getAsString()` before its type is examined, so a nested object or an array of other
   * than one element raises instead of being visited, and a value whose text trims to
   * nothing is removed.
   */
  function FieldVerdict(v: Json): (r: Result<bool, Exception>)
    ensures v.JNull? ==> r == Ok(true)
    ensures v.JObj? ==> r == Err(UnsupportedOperation)
    ensures r.Err? <==> !v.JNull? && GetAsString(v).Err?
    ensures r.Ok? && !v.JNull? ==> r.value == JavaText.IsBlank(GetAsString(v).value)
  {
    if v.JNull? then Ok(true)
    else
      match GetAsString(v)
      case Err(e) => Err(e)
      case Ok(s) => Ok(JavaText.IsBlank(s))
  }

  /** The first pass over the first `n` fields: the names to remove, or the first failure. */
  function Collect(ms: seq<Member>, n: nat): (r: Result<seq<string>, Exception>)
    requires n <= |ms|
  {
    if n == 0 then Ok([])
    else
      match Collect(ms, n - 1)
      case Err(e) => Err(e)
      case Ok(keys) =>
        match FieldVerdict(ms[n - 1].1)
        case Err(e) => Err(e)
        case Ok(remove) => if remove then Ok(keys + [ms[n - 1].0]) else Ok(keys)
  }

  /** The second pass: `remove` of each collected name in turn. */
  function DeleteAll(ms: seq<Member>, keys: seq<string>): seq<Member>
  {
    if keys == [] then ms else Delete(DeleteAll(ms, keys[..|keys| - 1]), keys[|keys| - 1])
  }

  /** `removeNullEmptyAndWhitespaceFields` on an object's fields: the fields left, or the exception. */
  function Prune(ms: seq<Member>): Result<seq<Member>, Exception>
  {
    match Collect(ms, |ms|)
    case Err(e) => Err(e)
    case Ok(keys) => Ok(DeleteAll(ms, keys))
  }

  /** The fields that are kept: those readable as text that does not trim to nothing, in order. */
  function Kept(ms: seq<Member>): seq<Member>
  {
    if ms == [] then []
    else (if FieldVerdict(ms[0].1) == Ok(false) then [ms[0]] else []) + Kept(ms[1..])
  }

  /** The fields whose name is not in `keys`, in order. */
  function FilterOut(ms: seq<Member>, keys: seq<string>): seq<Member>
  {
    if ms == [] then []
    else (if ms[0].0 in keys then [] else [ms[0]]) + FilterOut(ms[1..], keys)
  }

  /** The first pass fails exactly when some field cannot be read; it collects the fields to remove. */
  lemma {:induction false} CollectMeaning(ms: seq<Member>, n: nat)
    requires n <= |ms|
    ensures Collect(ms, n).Ok? <==> forall i :: 0 <= i < n ==> FieldVerdict(ms[i].1).Ok?
    ensures Collect(ms, n).Ok? ==>
              forall k :: k in Collect(ms, n).value <==>
                exists i :: 0 <= i < n && ms[i].0 == k && FieldVerdict(ms[i].1) == Ok(true)
    ensures Collect(ms, n).Err? ==>
              exists i :: 0 <= i < n && FieldVerdict(ms[i].1) == Err(Collect(ms, n).error) &&
                forall j :: 0 <= j < i ==> FieldVerdict(ms[j].1).Ok?
  {
    if n > 0 {
      CollectMeaning(ms, n - 1);
      if Collect(ms, n - 1).Err? {
        var i :| 0 <= i < n - 1 && FieldVerdict(ms[i].1) == Err(Collect(ms, n - 1).error) &&
                 forall j :: 0 <= j < i ==> FieldVerdict(ms[j].1).Ok?;
        assert FieldVerdict(ms[i].1).Err?;
      } else if FieldVerdict(ms[n - 1].1).Err? {
        assert FieldVerdict(ms[n - 1].1) == Err(Collect(ms, n).error);
      }
    }
  }

  /** Unique names at the front of a list. */
  lemma UniqueTail(ms: seq<Member>)
    requires UniqueKeys(ms) && ms != []
    ensures UniqueKeys(ms[1..]) && !HasKey(ms[1..], ms[0].0)
  {
    forall j | 0 <= j < |ms[1..]| ensures ms[1..][j].0 != ms[0].0 {
      assert ms[1..][j] == ms[j + 1];
    }
  }

  /** A list of fields none of which has a collected name is left as it is. */
  lemma {:induction false} FilterOutNone(ms: seq<Member>, keys: seq<string>)
    requires forall i :: 0 <= i < |ms| ==> ms[i].0 !in keys
    ensures FilterOut(ms, keys) == ms
  {
    if ms != [] {
      FilterOutNone(ms[1..], keys);
    }
  }

  /** `remove` of a name that the first field does not carry leaves that field in front. */
  lemma DeleteCons(ms: seq<Member>, key: string)
    requires ms != [] && ms[0].0 != key
    ensures Delete(ms, key) == [ms[0]] + Delete(ms[1..], key)
  {
    match Find(ms[1..], key)
    case None =>
    case Some(i) =>
      assert Find(ms, key) == Some(i + 1);
      assert ms[..i + 1] == [ms[0]] + ms[1..][..i];
      assert ms[i + 2..] == ms[1..][i + 1..];
  }

  /** `remove` of the first field's name in unique-keyed fields drops that field alone. */
  lemma DeleteHeadIsFilter(ms: seq<Member>, key: string)
    requires UniqueKeys(ms) && ms != [] && ms[0].0 == key
    ensures Delete(ms, key) == FilterOut(ms, [key])
  {
    UniqueTail(ms);
    var rest := ms[1..];
    assert Find(ms, key) == Some(0);
    assert Delete(ms, key) == rest;
    forall i | 0 <= i < |rest| ensures rest[i].0 !in [key] {
      assert rest[i].0 != key;
    }
    FilterOutNone(rest, [key]);
    assert FilterOut(ms, [key]) == FilterOut(rest, [key]);
  }

  /** In unique-keyed fields, `remove(key)` drops exactly the fields named `key`. */
  lemma {:induction false} DeleteIsFilter(ms: seq<Member>, key: string)
    requires UniqueKeys(ms)
    ensures Delete(ms, key) == FilterOut(ms, [key])
  {
    if ms != [] {
      UniqueTail(ms);
      var rest := ms[1..];
      if ms[0].0 == key {
        DeleteHeadIsFilter(ms, key);
      } else {
        DeleteIsFilter(rest, key);
        DeleteCons(ms, key);
        assert FilterOut(ms, [key]) == [ms[0]] + FilterOut(rest, [key]);
      }
    }
  }

  /** The fields left by a filter are fields of the list, under names not filtered out. */
  lemma {:induction false} FilterOutFrom(ms: seq<Member>, keys: seq<string>, m: Member)
    requires m in FilterOut(ms, keys)
    ensures m in ms && m.0 !in keys
  {
    if ms != [] {
      if m in FilterOut(ms[1..], keys) {
        FilterOutFrom(ms[1..], keys, m);
      } else {
        assert ms[0].0 !in keys && m == ms[0];
      }
    }
  }

  /** Filtering keeps names unique. */
  lemma {:induction false} FilterOutUnique(ms: seq<Member>, keys: seq<string>)
    requires UniqueKeys(ms)
    ensures UniqueKeys(FilterOut(ms, keys))
  {
    if ms != [] {
      UniqueTail(ms);
      FilterOutUnique(ms[1..], keys);
      var rest := FilterOut(ms[1..], keys);
      var r := FilterOut(ms, keys);
      if ms[0].0 !in keys {
        forall j | 0 <= j < |rest| ensures rest[j].0 != ms[0].0 {
          assert rest[j] in rest;
          FilterOutFrom(ms[1..], keys, rest[j]);
        }
        assert r == [ms[0]] + rest;
        forall i, j | 0 <= i < j < |r| ensures r[i].0 != r[j].0 {
          if i > 0 {
            assert r[i] == rest[i - 1] && r[j] == rest[j - 1];
          } else {
            assert r[j] == rest[j - 1];
          }
        }
      }
    }
  }

  /** Filtering out one more name is filtering the filtered list. */
  lemma {:induction false} FilterOutSnoc(ms: seq<Member>, keys: seq<string>, key: string)
    ensures FilterOut(ms, keys + [key]) == FilterOut(FilterOut(ms, keys), [key])
  {
    if ms != [] {
      var rest := ms[1..];
      FilterOutSnoc(rest, keys, key);
      var head := ms[0];
      assert FilterOut(ms, keys + [key]) ==
             (if head.0 in keys + [key] then [] else [head]) + FilterOut(rest, keys + [key]);
      if head.0 in keys {
        assert FilterOut(ms, keys) == FilterOut(rest, keys);
      } else {
        var inner := FilterOut(ms, keys);
        assert inner == [head] + FilterOut(rest, keys);
        assert inner[1..] == FilterOut(rest, keys);
        assert FilterOut(inner, [key]) == (if head.0 in [key] then [] else [head]) + FilterOut(inner[1..], [key]);
      }
    }
  }

  /** The last collected name is removed last. */
  lemma DeleteAllLast(ms: seq<Member>, keys: seq<string>)
    requires keys != []
    ensures DeleteAll(ms, keys) == Delete(DeleteAll(ms, keys[..|keys| - 1]), keys[|keys| - 1])
  {
  }

  /** Removing the collected names one by one is filtering them out. */
  lemma {:induction false} DeleteAllIsFilter(ms: seq<Member>, keys: seq<string>)
    requires UniqueKeys(ms)
    ensures DeleteAll(ms, keys) == FilterOut(ms, keys)
  {
    if keys == [] {
      FilterOutNone(ms, keys);
    } else {
      var prefix := keys[..|keys| - 1];
      var last := keys[|keys| - 1];
      DeleteAllLast(ms, keys);
      DeleteAllIsFilter(ms, prefix);
      var filtered := FilterOut(ms, prefix);
      FilterOutUnique(ms, prefix);
      DeleteIsFilter(filtered, last);
      assert DeleteAll(ms, keys) == FilterOut(filtered, [last]);
      FilterOutSnoc(ms, prefix, last);
      assert prefix + [last] == keys;
    }
  }

  /** Filtering out exactly the names of the fields to remove keeps the clean fields. */
  lemma {:induction false} FilterOutKept(ms: seq<Member>, keys: seq<string>)
    requires forall i :: 0 <= i < |ms| ==> FieldVerdict(ms[i].1).Ok?
    requires forall i :: 0 <= i < |ms| ==> (ms[i].0 in keys <==> FieldVerdict(ms[i].1) == Ok(true))
    ensures FilterOut(ms, keys) == Kept(ms)
  {
    if ms != [] {
      assert FieldVerdict(ms[0].1).Ok?;
      assert forall i :: 0 <= i < |ms[1..]| ==> ms[1..][i] == ms[i + 1];
      FilterOutKept(ms[1..], keys);
    }
  }

  /**
   * What `removeNullEmptyAndWhitespaceFields` does to an object's fields: it fails exactly
   * when some field is neither null nor readable as text (a nested object, an array of
   * other than one element, ...), with the exception of the first such field, and
   * otherwise leaves exactly the clean fields in their order.
   */
  lemma PruneMeaning(ms: seq<Member>)
    requires UniqueKeys(ms)
    ensures Prune(ms).Ok? <==> forall i :: 0 <= i < |ms| ==> FieldVerdict(ms[i].1).Ok?
    ensures Prune(ms).Ok? ==> Prune(ms).value == Kept(ms)
    ensures Prune(ms).Err? ==>
              exists i :: 0 <= i < |ms| && FieldVerdict(ms[i].1) == Err(Prune(ms).error) &&
                forall j :: 0 <= j < i ==> FieldVerdict(ms[j].1).Ok?
  {
    CollectMeaning(ms, |ms|);
    if Collect(ms, |ms|).Ok? {
      var keys := Collect(ms, |ms|).value;
      forall i | 0 <= i < |ms| ensures ms[i].0 in keys <==> FieldVerdict(ms[i].1) == Ok(true) {
        if ms[i].0 in keys {
          var j :| 0 <= j < |ms| && ms[j].0 == ms[i].0 && FieldVerdict(ms[j].1) == Ok(true);
          assert j == i;
        }
      }
      DeleteAllIsFilter(ms, keys);
      FilterOutKept(ms, keys);
    }
  }

  /** Kept fields are all clean, so pruning again changes nothing. */
  lemma {:induction false} KeptIdempotent(ms: seq<Member>)
    ensures Kept(Kept(ms)) == Kept(ms)
  {
    if ms != [] {
      KeptIdempotent(ms[1..]);
      if FieldVerdict(ms[0].1) == Ok(false) {
        assert Kept(ms) == [ms[0]] + Kept(ms[1..]);
        assert Kept(ms)[1..] == Kept(ms[1..]);
      } else {
        assert Kept(ms) == Kept(ms[1..]);
      }
    }
  }

  /** Every kept field is clean. */
  lemma {:induction false} KeptClean(ms: seq<Member>)
    ensures forall i :: 0 <= i < |Kept(ms)| ==> FieldVerdict(Kept(ms)[i].1) == Ok(false)
  {
    if ms != [] {
      KeptClean(ms[1..]);
      if FieldVerdict(ms[0].1) == Ok(false) {
        assert Kept(ms) == [ms[0]] + Kept(ms[1..]);
      } else {
        assert Kept(ms) == Kept(ms[1..]);
      }
    }
  }

  /**
   * Kept fields are readable as text, so no null is left at any depth and Gson writes the
   * pruned object exactly as it stands.
   */
  lemma KeptNullFree(ms: seq<Member>)
    ensures NullFree(JObj(Kept(ms)))
    ensures Written(JObj(Kept(ms))) == JObj(Kept(ms))
  {
    var kept := Kept(ms);
    KeptClean(ms);
    forall i | 0 <= i < |kept| ensures !kept[i].1.JNull? && NullFree(kept[i].1) {
      ReadableIsNullFree(kept[i].1);
    }
    WrittenOfNullFree(JObj(kept));
  }

  /** Pruning a pruned object succeeds and leaves it unchanged. */
  lemma PruneIdempotent(ms: seq<Member>)
    requires UniqueKeys(ms) && Prune(ms).Ok?
    ensures UniqueKeys(Prune(ms).value)
    ensures Prune(Prune(ms).value) == Prune(ms)
  {
    PruneMeaning(ms);
    var kept := Kept(ms);
    KeptIdempotent(ms);
    assert kept == FilterOut(ms, Collect(ms, |ms|).value) by {
      DeleteAllIsFilter(ms, Collect(ms, |ms|).value);
    }
    FilterOutUnique(ms, Collect(ms, |ms|).value);
    KeptClean(ms);
    PruneMeaning(kept);
  }

  /** The documented sample `{"name":"John","age":30,"address":null,"phone":"  ","email":" "}`. */
  lemma PruneSample()
    ensures Prune([("name", JStr("John")), ("age", JNum("30")), ("address", JNull),
                   ("phone", JStr("  ")), ("email", JStr(" "))])
         == Ok([("name", JStr("John")), ("age", JNum("30"))])
  {
    var ms := [("name", JStr("John")), ("age", JNum("30")), ("address", JNull),
               ("phone", JStr("  ")), ("email", JStr(" "))];
    assert UniqueKeys(ms);
    assert !JavaText.IsBlank("John") by { assert "John"[0] > ' '; }
    assert !JavaText.IsBlank("30") by { assert "30"[0] > ' '; }
    assert FieldVerdict(ms[0].1) == Ok(false);
    assert FieldVerdict(ms[1].1) == Ok(false);
    assert FieldVerdict(ms[2].1) == Ok(true);
    assert FieldVerdict(ms[3].1) == Ok(true);
    assert FieldVerdict(ms[4].1) == Ok(true);
    PruneMeaning(ms);
    KeptTwoOfFive(ms);
  }

  /** Five fields whose verdicts are keep, keep, remove, remove, remove: the first two are kept. */
  lemma KeptTwoOfFive(ms: seq<Member>)
    requires |ms| == 5
    requires FieldVerdict(ms[0].1) == Ok(false) && FieldVerdict(ms[1].1) == Ok(false)
    requires FieldVerdict(ms[2].1) == Ok(true) && FieldVerdict(ms[3].1) == Ok(true)
    requires FieldVerdict(ms[4].1) == Ok(true)
    ensures Kept(ms) == [ms[0], ms[1]]
  {
    assert ms[4..][1..] == [] && ms[4..][0] == ms[4];
    assert Kept(ms[4..]) == [];
    assert ms[3..][1..] == ms[4..] && ms[3..][0] == ms[3];
    assert Kept(ms[3..]) == [];
    assert ms[2..][1..] == ms[3..] && ms[2..][0] == ms[2];
    assert Kept(ms[2..]) == [];
    assert ms[1..][1..] == ms[2..] && ms[1..][0] == ms[1];
    assert Kept(ms[1..]) == [ms[1]];
  }

  /** Once the first pass has failed, it stays failed with the same exception. */
  lemma {:induction false} CollectErrSticky(ms: seq<Member>, n: nat, m: nat)
    requires n <= m <= |ms| && Collect(ms, n).Err?
    ensures Collect(ms, m) == Collect(ms, n)
    decreases m
  {
    if m > n {
      CollectErrSticky(ms, n, m - 1);
    }
  }

  /**
   * `removeNullEmptyAndWhitespaceFields(jsonObject)`: a first loop collects the names to
   * remove, a second removes them. An exception in the first loop leaves the object as it was.
   */
  method RemoveNullEmptyAndWhitespaceFields(jsonObject: JsonObject) returns (thrown: Option<Exception>)
    requires jsonObject.Valid()
    modifies jsonObject
    ensures jsonObject.Valid()
    ensures thrown.Some? ==> Prune(old(jsonObject.members)) == Err(thrown.value) &&
                             jsonObject.members == old(jsonObject.members)
    ensures thrown.None? ==> Prune(old(jsonObject.members)) == Ok(jsonObject.members)
  {
    var ms := jsonObject.members;
    var keysToRemove: seq<string> := [];
    var i := 0;
    while i < |ms|
      invariant 0 <= i <= |ms|
      invariant Collect(ms, i) == Ok(keysToRemove)
    {
      var key := ms[i].0;
      var value := ms[i].1;
      if value.JNull? {
        keysToRemove := keysToRemove + [key];
      } else {
        var text := GetAsString(value);
        if text.Err? {
          CollectErrSticky(ms, i + 1, |ms|);
          return Some(text.error);
        }
        if JavaText.IsBlank(text.value) {
          keysToRemove := keysToRemove + [key];
        }
      }
      i := i + 1;
    }
    var j := 0;
    while j < |keysToRemove|
      invariant 0 <= j <= |keysToRemove|
      invariant jsonObject.Valid()
      invariant jsonObject.members == DeleteAll(ms, keysToRemove[..j])
    {
      assert keysToRemove[..j + 1][..j] == keysToRemove[..j];
      jsonObject.Remove(keysToRemove[j]);
      j := j + 1;
    }
    assert keysToRemove[..j] == keysToRemove;
    return None;
  }
}
