/**
 * The JSON document model the processors work on: Gson's JsonElement tree as a datatype,
 * the ordered, unique-keyed member list of a JsonObject, Gson's partial coercions
 * getAsString and getAsDouble, and the mutable JsonObject itself.
 */
module Document {

  import opened Wrappers
  import JavaText

  /** A JSON value. A number keeps its source text, as Gson's lazily parsed numbers do. */
  datatype Json =
    | JNull
    | JBool(b: bool)
    | JNum(lexeme: string)
    | JStr(s: string)
    | JArr(items: seq<Json>)
    | JObj(members: seq<Member>)

  /** One field of an object: its name and its value. */
  type Member = (string, Json)

  /** The Java exceptions the processors can raise while handling one record. */
  datatype Exception =
    | NullPointer           // java.lang.NullPointerException
    | IllegalArgument       // java.lang.IllegalArgumentException
    | IllegalState          // java.lang.IllegalStateException
    | UnsupportedOperation  // java.lang.UnsupportedOperationException
    | NumberFormat          // java.lang.NumberFormatException
    | IndexOutOfBounds      // java.lang.ArrayIndexOutOfBoundsException
    | PatternSyntax         // java.util.regex.PatternSyntaxException
    | JsonSyntax            // com.google.gson.JsonSyntaxException

  /* ---------- member lists ---------- */

  /** No two fields share a name, as in every Gson JsonObject. */
  predicate UniqueKeys(ms: seq<Member>)
  {
    forall i, j :: 0 <= i < j < |ms| ==> ms[i].0 != ms[j].0
  }

  /** `JsonObject.has(key)`. */
  predicate HasKey(ms: seq<Member>, key: string)
  {
    exists i :: 0 <= i < |ms| && ms[i].0 == key
  }

  /** Position of the first field named `key`. */
  function Find(ms: seq<Member>, key: string): (r: Option<nat>)
    ensures r.None? <==> !HasKey(ms, key)
    ensures r.Some? ==> r.value < |ms| && ms[r.value].0 == key
    ensures r.Some? ==> forall j :: 0 <= j < r.value ==> ms[j].0 != key
  {
    if ms == [] then None
    else if ms[0].0 == key then Some(0)
    else
      match Find(ms[1..], key)
      case None => assert forall j :: 1 <= j < |ms| ==> ms[j] == ms[1..][j - 1]; None
      case Some(i) => Some(i + 1)
  }

  /** `JsonObject.get(key)`, with None for Java's null. */
  function Lookup(ms: seq<Member>, key: string): Option<Json>
  {
    match Find(ms, key)
    case Some(i) => Some(ms[i].1)
    case None => None
  }

  /**
   * `JsonObject.add(key, value)`: Gson's LinkedTreeMap replaces the value of an existing
   * field where it stands and appends a new field at the end.
   */
  function Put(ms: seq<Member>, key: string, value: Json): (r: seq<Member>)
    ensures HasKey(ms, key) ==> |r| == |ms|
    ensures HasKey(ms, key) ==> forall j :: 0 <= j < |ms| && ms[j].0 != key ==> r[j] == ms[j]
    ensures !HasKey(ms, key) ==> r == ms + [(key, value)]
    ensures Lookup(r, key) == Some(value)
    ensures HasKey(r, key)
  {
    match Find(ms, key)
    case Some(i) =>
      var r := ms[i := (key, value)];
      assert Find(r, key) == Some(i) by {
        assert r[i].0 == key;
        var f := Find(r, key);
        assert forall j :: 0 <= j < i ==> r[j] == ms[j];
      }
      r
    case None =>
      var r := ms + [(key, value)];
      assert Find(r, key) == Some(|ms|) by {
        assert r[|ms|].0 == key;
        assert forall j :: 0 <= j < |ms| ==> r[j] == ms[j];
      }
      r
  }

  /** `JsonObject.remove(key)`: drops the field if present and keeps the order of the others. */
  function Delete(ms: seq<Member>, key: string): seq<Member>
  {
    match Find(ms, key)
    case Some(i) => ms[..i] + ms[i + 1..]
    case None => ms
  }

  /** In a unique-keyed list the field named `key`, if any, is the one at `i`. */
  lemma FindUnique(ms: seq<Member>, key: string, i: nat)
    requires UniqueKeys(ms) && i < |ms| && ms[i].0 == key
    ensures Find(ms, key) == Some(i)
  {
  }

  /**
   * Writing a field keeps the names unique, and every other field reads as before:
   * `add` changes one field and nothing else.
   */
  lemma PutFrame(ms: seq<Member>, key: string, value: Json)
    requires UniqueKeys(ms)
    ensures UniqueKeys(Put(ms, key, value))
    ensures forall k :: k != key ==> Lookup(Put(ms, key, value), k) == Lookup(ms, k)
    ensures forall k :: HasKey(Put(ms, key, value), k) <==> k == key || HasKey(ms, k)
  {
    var r := Put(ms, key, value);
    forall k | k != key
      ensures Lookup(r, k) == Lookup(ms, k)
      ensures HasKey(r, k) <==> HasKey(ms, k)
    {
      match Find(ms, k)
      case Some(i) =>
        assert r[i] == ms[i];
        FindUnique(r, k, i);
      case None =>
        assert !HasKey(r, k);
    }
  }

  /** Removing a field keeps the names unique and only that field goes. */
  lemma DeleteFrame(ms: seq<Member>, key: string)
    requires UniqueKeys(ms)
    ensures UniqueKeys(Delete(ms, key))
    ensures !HasKey(Delete(ms, key), key)
    ensures forall k :: k != key ==> Lookup(Delete(ms, key), k) == Lookup(ms, k)
  {
    match Find(ms, key)
    case None =>
    case Some(i) =>
      DeleteAtShape(ms, i);
      forall k | k != key
        ensures Lookup(ms[..i] + ms[i + 1..], k) == Lookup(ms, k)
      {
        DeleteAtLookup(ms, i, k);
      }
  }

  /** Dropping the field at `i` of a unique-keyed list keeps names unique and loses that name. */
  lemma DeleteAtShape(ms: seq<Member>, i: nat)
    requires UniqueKeys(ms) && i < |ms|
    ensures UniqueKeys(ms[..i] + ms[i + 1..])
    ensures !HasKey(ms[..i] + ms[i + 1..], ms[i].0)
  {
    var r := ms[..i] + ms[i + 1..];
    assert forall j :: 0 <= j < |r| ==> r[j] == ms[if j < i then j else j + 1];
  }

  /** Dropping the field at `i` leaves the lookup of every other name as it was. */
  lemma DeleteAtLookup(ms: seq<Member>, i: nat, k: string)
    requires UniqueKeys(ms) && i < |ms| && k != ms[i].0
    ensures Lookup(ms[..i] + ms[i + 1..], k) == Lookup(ms, k)
  {
    var r := ms[..i] + ms[i + 1..];
    DeleteAtShape(ms, i);
    match Find(ms, k)
    case Some(p) =>
      var q := if p < i then p else p - 1;
      assert r[q] == ms[p];
      FindUnique(r, k, q);
    case None =>
  }

  /** Every object in the tree has unique field names. */
  predicate WellFormed(j: Json)
  {
    match j
    case JArr(items) => forall i :: 0 <= i < |items| ==> WellFormed(items[i])
    case JObj(ms) => UniqueKeys(ms) && forall i :: 0 <= i < |ms| ==> WellFormed(ms[i].1)
    case _ => true
  }

  /* ---------- Gson coercions ---------- */

  /** Text of a boolean as Java's Boolean.toString writes it. */
  function BoolText(b: bool): string
  {
    if b then "true" else "false"
  }

  /**
   * `JsonElement.getAsString()`: a primitive gives its text; an array gives the text of its
   * only element and fails with IllegalStateException unless it has exactly one; null and
   * objects fail with UnsupportedOperationException.
   */
  function GetAsString(v: Json): (r: Result<string, Exception>)
    ensures v.JNull? || v.JObj? ==> r == Err(UnsupportedOperation)
    ensures v.JStr? ==> r == Ok(v.s)
    ensures v.JNum? ==> r == Ok(v.lexeme)
    ensures v.JBool? ==> r == Ok(BoolText(v.b))
    ensures v.JArr? && |v.items| != 1 ==> r == Err(IllegalState)
    ensures v.JArr? && |v.items| == 1 ==> r == GetAsString(v.items[0])
    ensures r.Err? ==> r.error == UnsupportedOperation || r.error == IllegalState
  {
    match v
    case JNull => Err(UnsupportedOperation)
    case JBool(b) => Ok(BoolText(b))
    case JNum(lexeme) => Ok(lexeme)
    case JStr(s) => Ok(s)
    case JArr(items) => if |items| == 1 then GetAsString(items[0]) else Err(IllegalState)
    case JObj(_) => Err(UnsupportedOperation)
  }

  /** A boolean, possibly wrapped in one-element arrays: its text is never a number. */
  predicate BooleanValue(v: Json)
  {
    match v
    case JBool(_) => true
    case JArr(items) => |items| == 1 && BooleanValue(items[0])
    case _ => false
  }

  /**
   * `JsonElement.getAsDouble()`: a number or a string is read by `parseDouble` (Java's
   * Double.parseDouble, given as a parameter); a boolean's text "true" or "false" is
   * never a number, so it raises NumberFormatException, as does text `parseDouble`
   * rejects; arrays unwrap one element as in GetAsString.
   */
  function GetAsDouble(v: Json, parseDouble: string -> Option<real>): (r: Result<real, Exception>)
    ensures v.JNull? || v.JObj? ==> r == Err(UnsupportedOperation)
    ensures v.JArr? && |v.items| != 1 ==> r == Err(IllegalState)
    ensures BooleanValue(v) ==> r == Err(NumberFormat)
    ensures r.Err? && r.error == NumberFormat <==>
              (GetAsString(v).Ok? && (BooleanValue(v) || parseDouble(GetAsString(v).value).None?))
    ensures r.Ok? <==> GetAsString(v).Ok? && !BooleanValue(v) && parseDouble(GetAsString(v).value).Some?
    ensures r.Ok? ==> r.value == parseDouble(GetAsString(v).value).value
    ensures r.Err? ==> r.error == UnsupportedOperation || r.error == IllegalState || r.error == NumberFormat
  {
    match v
    case JNull => Err(UnsupportedOperation)
    case JBool(_) => Err(NumberFormat)
    case JNum(lexeme) => ParseOrFail(lexeme, parseDouble)
    case JStr(s) => ParseOrFail(s, parseDouble)
    case JArr(items) => if |items| == 1 then GetAsDouble(items[0], parseDouble) else Err(IllegalState)
    case JObj(_) => Err(UnsupportedOperation)
  }

  function ParseOrFail(text: string, parseDouble: string -> Option<real>): Result<real, Exception>
  {
    match parseDouble(text)
    case Some(d) => Ok(d)
    case None => Err(NumberFormat)
  }

  /** `addProperty(key, (String) s)`: a Java null string is stored as JSON null. */
  function StringOrNull(s: Option<string>): (r: Json)
    ensures s.None? <==> r == JNull
    ensures s.Some? ==> r == JStr(s.value)
  {
    match s
    case Some(t) => JStr(t)
    case None => JNull
  }

  /* ---------- Gson's toJson ---------- */

  /** The fields of a list whose value is not JSON null, in order. */
  function DropNullFields(ms: seq<Member>): seq<Member>
  {
    if ms == [] then []
    else (if ms[0].1.JNull? then [] else [ms[0]]) + DropNullFields(ms[1..])
  }

  /**
   * The document as `new Gson().toJson` writes it: Gson does not serialise nulls by
   * default, so a field whose value is JSON null is left out of every object at every
   * depth, while a null inside an array is written.
   */
  function Written(v: Json): (r: Json)
    ensures r.JNull? <==> v.JNull?
    ensures r.JObj? <==> v.JObj?
    ensures v.JArr? ==> r.JArr? && |r.items| == |v.items|
    ensures !v.JArr? && !v.JObj? ==> r == v
  {
    match v
    case JArr(items) => JArr(seq(|items|, i requires 0 <= i < |items| => Written(items[i])))
    case JObj(ms) => JObj(DropNullFields(seq(|ms|, i requires 0 <= i < |ms| => (ms[i].0, Written(ms[i].1)))))
    case _ => v
  }

  /** No object in the tree has a field whose value is JSON null. */
  predicate NullFree(v: Json)
  {
    match v
    case JArr(items) => forall i :: 0 <= i < |items| ==> NullFree(items[i])
    case JObj(ms) => forall i :: 0 <= i < |ms| ==> !ms[i].1.JNull? && NullFree(ms[i].1)
    case _ => true
  }

  /** The fields kept are fields of the list, none of them null. */
  lemma {:induction false} DropNullFieldsFrom(ms: seq<Member>, m: Member)
    requires m in DropNullFields(ms)
    ensures m in ms && !m.1.JNull?
  {
    if ms != [] {
      if m in DropNullFields(ms[1..]) {
        DropNullFieldsFrom(ms[1..], m);
      } else {
        assert m == ms[0] && !ms[0].1.JNull?;
      }
    }
  }

  /** Every non-null field of the list is kept. */
  lemma {:induction false} DropNullFieldsKeeps(ms: seq<Member>, m: Member)
    requires m in ms && !m.1.JNull?
    ensures m in DropNullFields(ms)
  {
    if m != ms[0] {
      assert m in ms[1..];
      DropNullFieldsKeeps(ms[1..], m);
    }
  }

  /** Dropping fields keeps names unique. */
  lemma {:induction false} DropNullFieldsUnique(ms: seq<Member>)
    requires UniqueKeys(ms)
    ensures UniqueKeys(DropNullFields(ms))
  {
    if ms != [] {
      var rest := DropNullFields(ms[1..]);
      assert UniqueKeys(ms[1..]) by {
        forall i, j | 0 <= i < j < |ms[1..]| ensures ms[1..][i].0 != ms[1..][j].0 {
          assert ms[1..][i] == ms[i + 1] && ms[1..][j] == ms[j + 1];
        }
      }
      DropNullFieldsUnique(ms[1..]);
      if !ms[0].1.JNull? {
        var r := DropNullFields(ms);
        assert r == [ms[0]] + rest;
        forall j | 0 <= j < |rest| ensures rest[j].0 != ms[0].0 {
          assert rest[j] in rest;
          DropNullFieldsFrom(ms[1..], rest[j]);
          var k :| 0 <= k < |ms[1..]| && ms[1..][k] == rest[j];
          assert ms[k + 1] == rest[j];
        }
        forall i, j | 0 <= i < j < |r| ensures r[i].0 != r[j].0 {
          if i > 0 {
            assert r[i] == rest[i - 1] && r[j] == rest[j - 1];
          } else {
            assert r[j] == rest[j - 1];
          }
        }
      }
    }
  }

  /** In a unique-keyed list, a field that is present is what `get` returns. */
  lemma LookupMember(ms: seq<Member>, m: Member)
    requires UniqueKeys(ms) && m in ms
    ensures Lookup(ms, m.0) == Some(m.1)
  {
    var i :| 0 <= i < |ms| && ms[i] == m;
    FindUnique(ms, m.0, i);
  }

  /** A list without nulls is left as it is. */
  lemma {:induction false} DropNullFieldsNone(ms: seq<Member>)
    requires forall i :: 0 <= i < |ms| ==> !ms[i].1.JNull?
    ensures DropNullFields(ms) == ms
  {
    if ms != [] {
      assert forall i :: 0 <= i < |ms[1..]| ==> ms[1..][i] == ms[i + 1];
      DropNullFieldsNone(ms[1..]);
    }
  }

  /**
   * Reading a written object: a field that was null, or absent, is absent; any other
   * field reads as its own value written; names stay unique.
   */
  lemma WrittenLookup(ms: seq<Member>, key: string)
    requires UniqueKeys(ms)
    ensures Written(JObj(ms)).JObj? && UniqueKeys(Written(JObj(ms)).members)
    ensures Lookup(Written(JObj(ms)).members, key) ==
              match Lookup(ms, key)
              case None => None
              case Some(v) => if v.JNull? then None else Some(Written(v))
    ensures HasKey(Written(JObj(ms)).members, key) <==> Lookup(ms, key).Some? && !Lookup(ms, key).value.JNull?
  {
    var mapped := seq(|ms|, i requires 0 <= i < |ms| => (ms[i].0, Written(ms[i].1)));
    var r := DropNullFields(mapped);
    assert Written(JObj(ms)).members == r;
    assert UniqueKeys(mapped) by {
      forall i, j | 0 <= i < j < |mapped| ensures mapped[i].0 != mapped[j].0 {
        assert mapped[i].0 == ms[i].0 && mapped[j].0 == ms[j].0;
      }
    }
    DropNullFieldsUnique(mapped);
    match Find(ms, key)
    case Some(i) =>
      if ms[i].1.JNull? {
        if HasKey(r, key) {
          var j :| 0 <= j < |r| && r[j].0 == key;
          assert r[j] in r;
          DropNullFieldsFrom(mapped, r[j]);
          assert false;
        }
      } else {
        assert mapped[i] in mapped;
        DropNullFieldsKeeps(mapped, mapped[i]);
        LookupMember(r, mapped[i]);
      }
    case None =>
      if HasKey(r, key) {
        var j :| 0 <= j < |r| && r[j].0 == key;
        assert r[j] in r;
        DropNullFieldsFrom(mapped, r[j]);
        assert false;
      }
  }

  /** A written document has no null field anywhere. */
  lemma {:induction false} WrittenNullFree(v: Json)
    ensures NullFree(Written(v))
  {
    match v
    case JArr(items) =>
      forall i | 0 <= i < |items| ensures NullFree(Written(items[i])) {
        WrittenNullFree(items[i]);
      }
    case JObj(ms) =>
      var mapped := seq(|ms|, i requires 0 <= i < |ms| => (ms[i].0, Written(ms[i].1)));
      var r := DropNullFields(mapped);
      forall i | 0 <= i < |r| ensures !r[i].1.JNull? && NullFree(r[i].1) {
        assert r[i] in r;
        DropNullFieldsFrom(mapped, r[i]);
        var k :| 0 <= k < |mapped| && mapped[k] == r[i];
        WrittenNullFree(ms[k].1);
      }
    case _ =>
  }

  /** A document without null fields is written as it is. */
  lemma {:induction false} WrittenOfNullFree(v: Json)
    requires NullFree(v)
    ensures Written(v) == v
  {
    match v
    case JArr(items) =>
      forall i | 0 <= i < |items| ensures Written(items[i]) == items[i] {
        WrittenOfNullFree(items[i]);
      }
      assert Written(v).items == items;
    case JObj(ms) =>
      var mapped := seq(|ms|, i requires 0 <= i < |ms| => (ms[i].0, Written(ms[i].1)));
      forall i | 0 <= i < |ms| ensures mapped[i] == ms[i] {
        WrittenOfNullFree(ms[i].1);
      }
      assert mapped == ms;
      DropNullFieldsNone(ms);
    case _ =>
  }

  /** Writing a written document changes nothing. */
  lemma WrittenIdempotent(v: Json)
    ensures Written(Written(v)) == Written(v)
  {
    WrittenNullFree(v);
    WrittenOfNullFree(Written(v));
  }

  /** A value `getAsString` can read is not null and holds no object, so no null field. */
  lemma {:induction false} ReadableIsNullFree(v: Json)
    requires GetAsString(v).Ok?
    ensures !v.JNull? && NullFree(v)
  {
    if v.JArr? {
      ReadableIsNullFree(v.items[0]);
    }
  }

  /* ---------- the mutable object ---------- */

  /** A Gson JsonObject: an ordered map from field names to values, updated in place. */
  class JsonObject {
    var members: seq<Member>

    ghost predicate Valid()
      reads this
    {
      UniqueKeys(members)
    }

    constructor (ms: seq<Member>)
      requires UniqueKeys(ms)
      ensures Valid() && members == ms
    {
      members := ms;
    }

    /** `has(key)`. */
    function Has(key: string): (r: bool)
      reads this
      ensures r <==> exists i :: 0 <= i < |members| && members[i].0 == key
    {
      Find(members, key).Some?
    }

    /** `get(key)`, with None for Java's null. */
    function Get(key: string): Option<Json>
      reads this
    {
      Lookup(members, key)
    }

    /** `add(key, value)` / `addProperty(key, value)`. */
    method AddProperty(key: string, value: Json)
      requires Valid()
      modifies this
      ensures Valid()
      ensures members == Put(old(members), key, value)
    {
      PutFrame(members, key, value);
      match Find(members, key)
      case Some(i) => members := members[i := (key, value)];
      case None => members := members + [(key, value)];
    }

    /** `remove(key)`. */
    method Remove(key: string)
      requires Valid()
      modifies this
      ensures Valid()
      ensures members == Delete(old(members), key)
    {
      DeleteFrame(members, key);
      match Find(members, key)
      case Some(i) => members := members[..i] + members[i + 1..];
      case None =>
    }
  }
}
