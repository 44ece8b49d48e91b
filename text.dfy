/**
 * The string operations the media descriptor relies on: Java's string
 * conversion of a `Long` (and of `null`), the regular expression class `\s`,
 * `replaceAll("\\s+", "_")`, and zero-padded decimal fields.
 */
module Text {
  import opened Wrappers

  const MinLong: int := -0x8000_0000_0000_0000
  const MaxLong: int := 0x7FFF_FFFF_FFFF_FFFF

  /** A Java `long`. */
  type Long = n: int | MinLong <= n <= MaxLong

  // ---------------------------------------------------------------------------
  // Whitespace as the Java regular expression class `\s` sees it
  // ---------------------------------------------------------------------------

  /** `\s` without UNICODE_CHARACTER_CLASS: space, tab, newline, vertical tab, form feed, carriage return. */
  predicate IsWhitespace(c: char) {
    c == ' ' || c == '\t' || c == '\n' || c == '\U{B}' || c == '\U{C}' || c == '\r'
  }

  predicate NoWhitespace(s: string) {
    forall i :: 0 <= i < |s| ==> !IsWhitespace(s[i])
  }

  predicate AllWhitespace(s: string) {
    forall i :: 0 <= i < |s| ==> IsWhitespace(s[i])
  }

  /** `s` does not end in a whitespace character. */
  predicate EndsSolid(s: string) {
    s == [] || !IsWhitespace(s[|s| - 1])
  }

  /** `s` does not begin with a whitespace character. */
  predicate StartsSolid(s: string) {
    s == [] || !IsWhitespace(s[0])
  }

  /**
   * `s.replaceAll("\\s+", "_")`: the greedy pattern matches each maximal run of
   * whitespace, and each match is replaced by a single underscore. Read from
   * the left, a whitespace character yields the underscore exactly when it is
   * the last one of its run.
   */
  function ReplaceWhitespaceRuns(s: string): (r: string)
    ensures NoWhitespace(r)
    ensures |r| <= |s| && (r == [] <==> s == [])
  {
    if s == [] then []
    else if !IsWhitespace(s[0]) then [s[0]] + ReplaceWhitespaceRuns(s[1..])
    else if StartsSolid(s[1..]) then "_" + ReplaceWhitespaceRuns(s[1..])
    else ReplaceWhitespaceRuns(s[1..])
  }

  /** A string that holds no whitespace is left exactly as it is. */
  lemma {:induction false} ReplaceKeepsSolidText(s: string)
    requires NoWhitespace(s)
    ensures ReplaceWhitespaceRuns(s) == s
  {
    if s != [] {
      ReplaceKeepsSolidText(s[1..]);
    }
  }

  /** The replacement changes a string exactly when the string holds whitespace. */
  lemma ReplaceIsIdentityIff(s: string)
    ensures ReplaceWhitespaceRuns(s) == s <==> NoWhitespace(s)
  {
    if NoWhitespace(s) {
      ReplaceKeepsSolidText(s);
    }
  }

  /** Replacing a second time changes nothing. */
  lemma ReplaceIdempotent(s: string)
    ensures ReplaceWhitespaceRuns(ReplaceWhitespaceRuns(s)) == ReplaceWhitespaceRuns(s)
  {
    ReplaceKeepsSolidText(ReplaceWhitespaceRuns(s));
  }

  /** A non-empty run made only of whitespace becomes one underscore. */
  lemma {:induction false} ReplaceWholeRun(w: string)
    requires w != [] && AllWhitespace(w)
    ensures ReplaceWhitespaceRuns(w) == "_"
  {
    if |w| > 1 {
      ReplaceWholeRun(w[1..]);
    }
  }

  /**
   * The replacement works piece by piece wherever the two pieces do not cut a
   * whitespace run in two.
   */
  lemma {:induction false} ReplaceAppend(a: string, b: string)
    requires EndsSolid(a) || StartsSolid(b)
    ensures ReplaceWhitespaceRuns(a + b) == ReplaceWhitespaceRuns(a) + ReplaceWhitespaceRuns(b)
  {
    if a == [] {
      assert a + b == b;
    } else if a[1..] == [] {
      ReplaceAppendOne(a, b);
    } else {
      var ab := a + b;
      var tail := a[1..];
      assert ab[0] == a[0];
      assert ab[1..] == tail + b;
      assert tail[|tail| - 1] == a[|a| - 1];
      assert StartsSolid(ab[1..]) == StartsSolid(tail) by {
        assert ab[1..][0] == tail[0];
      }
      ReplaceAppend(tail, b);
      var rt := ReplaceWhitespaceRuns(tail);
      var rb := ReplaceWhitespaceRuns(b);
      if !IsWhitespace(a[0]) {
        assert [a[0]] + (rt + rb) == [a[0]] + rt + rb;
      } else if StartsSolid(tail) {
        assert "_" + (rt + rb) == "_" + rt + rb;
      }
    }
  }

  /** The base case of `ReplaceAppend`: a single character in front. */
  lemma ReplaceAppendOne(a: string, b: string)
    requires |a| == 1
    requires EndsSolid(a) || StartsSolid(b)
    ensures ReplaceWhitespaceRuns(a + b) == ReplaceWhitespaceRuns(a) + ReplaceWhitespaceRuns(b)
  {
    var ab := a + b;
    assert ab[0] == a[0];
    assert ab[1..] == b;
    assert a[1..] == [];
  }

  /**
   * A whitespace run between two solid pieces becomes exactly one underscore,
   * and the pieces around it are kept in order.
   */
  lemma ReplaceRunBetween(x: string, w: string, y: string)
    requires EndsSolid(x) && StartsSolid(y)
    requires w != [] && AllWhitespace(w)
    ensures ReplaceWhitespaceRuns(x + w + y) ==
            ReplaceWhitespaceRuns(x) + "_" + ReplaceWhitespaceRuns(y)
  {
    ReplaceAppend(x, w + y);
    ReplaceAppend(w, y);
    ReplaceWholeRun(w);
    assert x + w + y == x + (w + y);
  }

  /** The longest prefix of `s` that does not end in whitespace. */
  function TrimEnd(s: string): (r: string)
    ensures |r| <= |s| && r == s[..|r|]
    ensures EndsSolid(r) && AllWhitespace(s[|r|..])
  {
    if s != [] && IsWhitespace(s[|s| - 1]) then TrimEnd(s[..|s| - 1]) else s
  }

  lemma Regroup(x: string, rest: string, sep: string, t: string)
    ensures x + rest + sep + t == x + (rest + sep) + t
  {
  }

  lemma WhitespaceConcat(a: string, b: string)
    requires AllWhitespace(a) && AllWhitespace(b)
    ensures AllWhitespace(a + b)
  {
    var ab := a + b;
    forall i | 0 <= i < |ab| ensures IsWhitespace(ab[i]) {
      if i < |a| { assert ab[i] == a[i]; } else { assert ab[i] == b[i - |a|]; }
    }
  }

  /**
   * Joining `s` and a solid `t` with whitespace yields the trimmed `s`, one
   * underscore and `t`: trailing whitespace of `s` merges into the separator.
   */
  lemma ReplaceJoin(s: string, sep: string, t: string)
    requires sep != [] && AllWhitespace(sep)
    requires StartsSolid(t)
    ensures ReplaceWhitespaceRuns(s + sep + t) ==
            ReplaceWhitespaceRuns(TrimEnd(s)) + "_" + ReplaceWhitespaceRuns(t)
  {
    var x := TrimEnd(s);
    var rest := s[|x|..];
    assert s == x + rest;
    WhitespaceConcat(rest, sep);
    Regroup(x, rest, sep, t);
    ReplaceRunBetween(x, rest + sep, t);
  }

  // ---------------------------------------------------------------------------
  // Decimal text
  // ---------------------------------------------------------------------------

  predicate IsDigit(c: char) {
    '0' <= c <= '9'
  }

  predicate AllDigits(s: string) {
    forall i :: 0 <= i < |s| ==> IsDigit(s[i])
  }

  function DigitChar(d: int): (c: char)
    requires 0 <= d < 10
    ensures IsDigit(c) && DigitValue(c) == d
  {
    ('0' as int + d) as char
  }

  function DigitValue(c: char): (d: int)
    requires IsDigit(c)
    ensures 0 <= d < 10
  {
    c as int - '0' as int
  }

  /** The value of a string of decimal digits, most significant first. */
  function DigitsValue(s: string): (n: nat)
    requires AllDigits(s)
  {
    if s == [] then 0 else 10 * DigitsValue(s[..|s| - 1]) + DigitValue(s[|s| - 1])
  }

  /** Canonical decimal digits: at least one, and no leading `0` unless the value is zero. */
  predicate IsDecimal(s: string) {
    s != [] && AllDigits(s) && (s[0] == '0' ==> |s| == 1)
  }

  /** The shortest decimal digits of `n`. */
  function Digits(n: nat): (s: string)
    ensures IsDecimal(s)
    ensures s[0] == '0' ==> n == 0
  {
    if n < 10 then [DigitChar(n)] else Digits(n / 10) + [DigitChar(n % 10)]
  }

  lemma {:induction false} DigitsRoundTrip(n: nat)
    ensures DigitsValue(Digits(n)) == n
  {
    var s := Digits(n);
    if n >= 10 {
      DigitsRoundTrip(n / 10);
      assert s[..|s| - 1] == Digits(n / 10);
    }
  }

  /** Canonical digits of two or more characters stand for at least ten. */
  lemma {:induction false} DecimalAtLeastTen(s: string)
    requires IsDecimal(s) && |s| > 1
    ensures DigitsValue(s) >= 10
  {
    var p := s[..|s| - 1];
    assert p[0] == s[0];
    if |p| > 1 {
      DecimalAtLeastTen(p);
    }
  }

  /** Canonical digits are exactly the digits of their own value. */
  lemma {:induction false} DecimalRoundTrip(s: string)
    requires IsDecimal(s)
    ensures Digits(DigitsValue(s)) == s
  {
    var v := DigitsValue(s);
    var c := s[|s| - 1];
    assert DigitChar(DigitValue(c)) == c;
    if |s| > 1 {
      var p := s[..|s| - 1];
      assert p[0] == s[0];
      DecimalAtLeastTen(s);
      DecimalRoundTrip(p);
      assert v / 10 == DigitsValue(p) && v % 10 == DigitValue(c);
      assert s == p + [c];
    } else {
      assert s == [c];
    }
  }

  /**
   * `Long.toString(n)`: a `-` for negative values, then the canonical decimal
   * digits of the magnitude.
   */
  function LongToString(n: Long): (s: string)
    ensures n < 0 ==> |s| > 1 && s[0] == '-' && IsDecimal(s[1..]) && DigitsValue(s[1..]) == -(n as int)
    ensures n >= 0 ==> IsDecimal(s) && DigitsValue(s) == n
  {
    if n < 0 then
      var m: nat := -(n as int);
      DigitsRoundTrip(m);
      assert ("-" + Digits(m))[1..] == Digits(m);
      "-" + Digits(m)
    else
      DigitsRoundTrip(n);
      Digits(n)
  }

  /**
   * Java's string conversion of a `Long` reference: `"null"` exactly when it
   * is null; the text is non-empty and holds no whitespace.
   */
  function LongText(n: Option<Long>): (s: string)
    ensures s == "null" <==> n.None?
    ensures s != [] && NoWhitespace(s) && StartsSolid(s)
  {
    match n
    case None => "null"
    case Some(v) =>
      var t := LongToString(v);
      assert t[0] == '-' || IsDigit(t[0]);
      assert NoWhitespace(t) by {
        forall i | 0 <= i < |t| ensures !IsWhitespace(t[i]) {
          if v < 0 && i > 0 { assert t[i] == t[1..][i - 1]; }
        }
      }
      t
  }

  /**
   * Java's string conversion of a `String` reference: the string itself, and
   * `"null"` for a null reference, so a null and the string `"null"` print
   * the same.
   */
  function StringText(s: Option<string>): (r: string)
    ensures s.Some? ==> r == s.value
    ensures r == "null" <==> (s.None? || s.value == "null")
  {
    match s
    case None => "null"
    case Some(v) => v
  }

  /**
   * Reads back the text Java produces for a `Long` reference: `"null"`, or
   * canonical digits with an optional `-`, within the range of a `Long`.
   */
  function ParseLongText(s: string): (r: Option<Option<Long>>)
  {
    if s == "null" then Some(None)
    else if |s| > 1 && s[0] == '-' && IsDecimal(s[1..]) && 0 < DigitsValue(s[1..]) <= -MinLong then Some(Some(0 - DigitsValue(s[1..])))
    else if IsDecimal(s) && DigitsValue(s) <= MaxLong then Some(Some(DigitsValue(s)))
    else None
  }

  /** The string conversion of a `Long` reference can be read back exactly. */
  lemma LongTextRoundTrip(n: Option<Long>)
    ensures ParseLongText(LongText(n)) == Some(n)
  {
    match n
    case None =>
    case Some(v) =>
      var s := LongToString(v);
      if v >= 0 {
        assert s[0] != '-';
      }
  }

  /**
   * The reader accepts nothing but the texts Java produces: whatever it reads
   * back as `n` is exactly the string conversion of `n`.
   */
  lemma ParsedTextIsLongText(s: string, n: Option<Long>)
    requires ParseLongText(s) == Some(n)
    ensures s == LongText(n)
  {
    if s == "null" {
    } else if |s| > 1 && s[0] == '-' && IsDecimal(s[1..]) && 0 < DigitsValue(s[1..]) <= -MinLong {
      var t := s[1..];
      DecimalRoundTrip(t);
      assert s == "-" + t;
    } else {
      DecimalRoundTrip(s);
    }
  }

  // ---------------------------------------------------------------------------
  // Zero-padded fields
  // ---------------------------------------------------------------------------

  function Zeros(k: nat): (s: string)
    ensures |s| == k && AllDigits(s)
  {
    if k == 0 then [] else ['0'] + Zeros(k - 1)
  }

  function Pow10(k: nat): (p: nat)
    ensures p >= 1
  {
    if k == 0 then 1 else 10 * Pow10(k - 1)
  }

  /** The digits of `n`, with leading zeros up to `width` characters. */
  function PadDigits(n: nat, width: nat): (s: string)
    ensures AllDigits(s) && |s| >= width
  {
    var d := Digits(n);
    if |d| < width then Zeros(width - |d|) + d else d
  }

  lemma {:induction false} DigitsLength(n: nat, k: nat)
    requires n < Pow10(k)
    ensures |Digits(n)| <= k || (n == 0 && k == 0)
  {
    if n >= 10 {
      assert k >= 2 by {
        assert Pow10(0) == 1 && Pow10(1) == 10;
      }
      DigitsLength(n / 10, k - 1);
    }
  }

  lemma {:induction false} LeadingZerosValue(k: nat, s: string)
    requires AllDigits(s)
    ensures AllDigits(Zeros(k) + s) && DigitsValue(Zeros(k) + s) == DigitsValue(s)
    decreases |s|
  {
    var z := Zeros(k) + s;
    if s == [] {
      assert z == Zeros(k);
      ZerosValue(k);
    } else {
      assert z[..|z| - 1] == Zeros(k) + s[..|s| - 1];
      LeadingZerosValue(k, s[..|s| - 1]);
    }
  }

  lemma {:induction false} ZerosValue(k: nat)
    ensures DigitsValue(Zeros(k)) == 0
  {
    if k > 0 {
      var z := Zeros(k);
      assert z[..|z| - 1] == Zeros(k - 1) by {
        ZerosShift(k);
      }
      ZerosValue(k - 1);
    }
  }

  lemma {:induction false} ZerosShift(k: nat)
    requires k > 0
    ensures Zeros(k) == Zeros(k - 1) + ['0']
  {
    if k > 1 {
      ZerosShift(k - 1);
    }
  }

  /** A value below `10^width` fills its field exactly and reads back unchanged. */
  lemma PadDigitsRoundTrip(n: nat, width: nat)
    requires width > 0 && n < Pow10(width)
    ensures |PadDigits(n, width)| == width
    ensures DigitsValue(PadDigits(n, width)) == n
  {
    DigitsLength(n, width);
    if |Digits(n)| < width {
      PaddedValue(n, width);
    } else {
      DigitsRoundTrip(n);
    }
  }

  lemma PaddedValue(n: nat, width: nat)
    requires |Digits(n)| < width
    ensures PadDigits(n, width) == Zeros(width - |Digits(n)|) + Digits(n)
    ensures DigitsValue(PadDigits(n, width)) == n
  {
    var d := Digits(n);
    DigitsRoundTrip(n);
    LeadingZerosValue(width - |d|, d);
  }
}
