/**
 * The few pieces of java.lang.String and Integer.toString that the processors rely on:
 * String.split(",") with its rule for trailing empty strings, String.trim().isEmpty(),
 * and the decimal text of an int.
 */
module JavaText {

  import opened Wrappers

  /* ---------- String.split(",") ---------- */

  /** The comma-separated fields of `s`, every empty field kept (always at least one field). */
  function Fields(s: string): (fs: seq<string>)
    ensures |fs| >= 1
    ensures forall i :: 0 <= i < |fs| ==> ',' !in fs[i]
  {
    if s == [] then [""]
    else if s[0] == ',' then [""] + Fields(s[1..])
    else
      var rest := Fields(s[1..]);
      [[s[0]] + rest[0]] + rest[1..]
  }

  /** Joins fields with commas: the inverse of Fields. */
  function JoinCommas(fs: seq<string>): string
    requires |fs| >= 1
  {
    if |fs| == 1 then fs[0] else fs[0] + [','] + JoinCommas(fs[1..])
  }

  /** Drops the empty strings at the end of a list, as split does with limit 0. */
  function DropTrailingEmpty(fs: seq<string>): (r: seq<string>)
    ensures |r| <= |fs| && r == fs[..|r|]
    ensures |r| > 0 ==> r[|r| - 1] != ""
    ensures forall i :: |r| <= i < |fs| ==> fs[i] == ""
  {
    if |fs| > 0 && fs[|fs| - 1] == "" then DropTrailingEmpty(fs[..|fs| - 1]) else fs
  }

  /**
   * Java's `s.split(",")`: when no comma occurs the result is `[s]` (so "" gives [""]);
   * otherwise the fields with the trailing empty ones removed.
   */
  function Split(s: string): seq<string>
  {
    if ',' !in s then [s] else DropTrailingEmpty(Fields(s))
  }

  /** Every character of `s` is a comma. */
  predicate AllCommas(s: string)
  {
    forall i :: 0 <= i < |s| ==> s[i] == ','
  }

  /** Joining the fields of a text with commas gives back the text. */
  lemma {:induction false} FieldsJoin(s: string)
    ensures JoinCommas(Fields(s)) == s
  {
    if s == [] {
    } else if s[0] == ',' {
      FieldsJoin(s[1..]);
      assert Fields(s)[1..] == Fields(s[1..]);
    } else {
      FieldsJoin(s[1..]);
      var rest := Fields(s[1..]);
      if |rest| == 1 {
        assert rest == [rest[0]];
      } else {
        assert JoinCommas(rest) == rest[0] + [','] + JoinCommas(rest[1..]);
        assert Fields(s)[1..] == rest[1..];
      }
    }
  }

  /** Every string in the list is empty. */
  predicate AllEmpty(fs: seq<string>)
  {
    forall i :: 0 <= i < |fs| ==> fs[i] == ""
  }

  /** A field list is all empty exactly when the text is made of commas only. */
  lemma {:induction false} FieldsAllEmpty(s: string)
    ensures AllEmpty(Fields(s)) <==> AllCommas(s)
  {
    if s == [] {
    } else if s[0] == ',' {
      FieldsAllEmpty(s[1..]);
      var fs := Fields(s);
      assert fs[1..] == Fields(s[1..]);
      if AllCommas(s) {
        assert AllCommas(s[1..]);
        forall i | 0 <= i < |fs| ensures fs[i] == "" {
          if i > 0 { assert fs[i] == fs[1..][i - 1]; }
        }
      } else {
        var j :| 0 <= j < |s| && s[j] != ',';
        assert s[1..][j - 1] != ',';
        var k :| 0 <= k < |Fields(s[1..])| && Fields(s[1..])[k] != "";
        assert fs[k + 1] == fs[1..][k];
      }
    } else {
      var rest := Fields(s[1..]);
      assert Fields(s)[0] == [s[0]] + rest[0];
      assert !AllCommas(s) by { assert s[0] != ','; }
    }
  }

  lemma DropTrailingEmptyNil(fs: seq<string>)
    ensures DropTrailingEmpty(fs) == [] <==> AllEmpty(fs)
  {
  }

  /**
   * `s.split(",")` has no parts exactly when `s` is a non-empty run of commas;
   * in particular "" splits into one part.
   */
  lemma SplitEmptyIff(s: string)
    ensures |Split(s)| == 0 <==> (s != "" && AllCommas(s))
  {
    FieldsAllEmpty(s);
    DropTrailingEmptyNil(Fields(s));
    if s != "" && AllCommas(s) {
      assert s[0] == ',';
    }
  }

  /**
   * Each part of a split is comma-free. A text without a comma is its own single part;
   * otherwise the parts are the leading fields of the input, every field dropped after
   * them is empty, and the last part kept is not.
   */
  lemma SplitParts(s: string)
    ensures forall i :: 0 <= i < |Split(s)| ==> ',' !in Split(s)[i]
    ensures ',' !in s ==> Split(s) == [s]
    ensures ',' in s ==> Split(s) == Fields(s)[..|Split(s)|]
    ensures ',' in s ==> forall i :: |Split(s)| <= i < |Fields(s)| ==> Fields(s)[i] == ""
    ensures ',' in s && |Split(s)| > 0 ==> Split(s)[|Split(s)| - 1] != ""
  {
  }

  /** A comma-free text is a single field. */
  lemma {:induction false} FieldsOfPlain(s: string)
    requires ',' !in s
    ensures Fields(s) == [s]
  {
    if s != "" {
      assert s[0] != ',' && ',' !in s[1..];
      FieldsOfPlain(s[1..]);
      assert [s[0]] + s[1..] == s;
    }
  }

  /** A comma-free field followed by a comma: that field, then the fields of the rest. */
  lemma {:induction false} FieldsCons(a: string, rest: string)
    requires ',' !in a
    ensures Fields(a + "," + rest) == [a] + Fields(rest)
  {
    if a == "" {
      assert a + "," + rest == [','] + rest;
      assert (a + "," + rest)[1..] == rest;
    } else {
      assert (a + "," + rest)[0] == a[0];
      assert (a + "," + rest)[1..] == a[1..] + "," + rest;
      FieldsCons(a[1..], rest);
      assert [a[0]] + a[1..] == a;
    }
  }

  /** `"a,b".split(",")` for comma-free `a` and non-empty comma-free `b`. */
  lemma SplitPair(a: string, b: string)
    requires ',' !in a && b != "" && ',' !in b
    ensures Split(a + "," + b) == [a, b]
  {
    FieldsCons(a, b);
    FieldsOfPlain(b);
    assert (a + "," + b)[|a|] == ',';
  }

  /** `"a,b,c".split(",")` for comma-free `a`, `b` and non-empty comma-free `c`. */
  lemma SplitTriple(a: string, b: string, c: string)
    requires ',' !in a && ',' !in b && c != "" && ',' !in c
    ensures Split(a + "," + b + "," + c) == [a, b, c]
  {
    assert a + "," + b + "," + c == a + "," + (b + "," + c);
    FieldsCons(a, b + "," + c);
    FieldsCons(b, c);
    FieldsOfPlain(c);
    assert (a + "," + b + "," + c)[|a|] == ',';
  }

  /* ---------- String.trim().isEmpty() ---------- */

  /** `s.trim().isEmpty()`: trim removes every character at or below U+0020 from both ends. */
  predicate IsBlank(s: string)
  {
    forall i :: 0 <= i < |s| ==> s[i] <= ' '
  }

  /* ---------- Integer.toString ---------- */

  function DigitChar(d: nat): char
    requires d < 10
  {
    "0123456789"[d]
  }

  /** Decimal digits of a natural number, most significant first, without leading zeros. */
  function NatDigits(n: nat): (s: string)
    ensures |s| >= 1
    ensures forall i :: 0 <= i < |s| ==> '0' <= s[i] <= '9'
  {
    if n < 10 then [DigitChar(n)] else NatDigits(n / 10) + [DigitChar(n % 10)]
  }

  /** The decimal text of an integer as Java's string concatenation writes it. */
  function IntToString(n: int): string
  {
    if n < 0 then "-" + NatDigits(-n) else NatDigits(n)
  }

  /** Reads a run of decimal digits. */
  function DigitsValue(s: string): (v: int)
    requires forall i :: 0 <= i < |s| ==> '0' <= s[i] <= '9'
    ensures v >= 0
  {
    if s == [] then 0 else 10 * DigitsValue(s[..|s| - 1]) + (s[|s| - 1] as int - '0' as int)
  }

  predicate IsDigits(s: string)
  {
    |s| >= 1 && forall i :: 0 <= i < |s| ==> '0' <= s[i] <= '9'
  }

  /** Reads an optionally negative decimal integer; None when the text is not one. */
  function ParseInt(s: string): Option<int>
  {
    if |s| >= 1 && s[0] == '-' && IsDigits(s[1..]) then Some(0 - DigitsValue(s[1..]))
    else if IsDigits(s) then Some(DigitsValue(s))
    else None
  }

  lemma {:induction false} NatDigitsValue(n: nat)
    ensures DigitsValue(NatDigits(n)) == n
  {
    if n >= 10 {
      NatDigitsValue(n / 10);
      var s := NatDigits(n);
      assert s[..|s| - 1] == NatDigits(n / 10);
    }
  }

  /** The text of a natural number has no sign and reads back as the number. */
  lemma ParseNatDigits(n: nat)
    ensures ParseInt(NatDigits(n)) == Some(n)
  {
    NatDigitsValue(n);
    var s := NatDigits(n);
    assert IsDigits(s);
    assert s[0] != '-';
  }

  /** A minus sign before the text of a natural number reads back as its negation. */
  lemma ParseNegatedDigits(n: nat)
    ensures ParseInt("-" + NatDigits(n)) == Some(0 - n)
  {
    NatDigitsValue(n);
    var s := "-" + NatDigits(n);
    assert s[1..] == NatDigits(n);
    assert IsDigits(s[1..]);
  }

  /** Reading back the decimal text of an int gives the int. */
  lemma IntToStringRoundTrip(n: int)
    ensures ParseInt(IntToString(n)) == Some(n)
  {
    if n < 0 {
      var m: nat := -n;
      assert IntToString(n) == "-" + NatDigits(m);
      ParseNegatedDigits(m);
    } else {
      assert IntToString(n) == NatDigits(n);
      ParseNatDigits(n);
    }
  }
}
