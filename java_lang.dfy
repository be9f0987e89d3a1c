/**
 * The few pieces of the Java platform that the wallet's table-building code
 * relies on for its decisions: 64-bit `long` arithmetic, `Long.valueOf` on a
 * decimal string and `String.trim`.
 */
module JavaLang {

  datatype Option<+T> = None | Some(value: T)

  const LongMin: int := -0x8000_0000_0000_0000
  const LongMax: int := 0x7FFF_FFFF_FFFF_FFFF
  const LongModulus: int := 0x1_0000_0000_0000_0000

  predicate InLongRange(x: int) {
    LongMin <= x <= LongMax
  }

  /** The Java `long` that a mathematical integer result wraps around to. */
  function ToLong(x: int): (r: int)
    ensures InLongRange(r)
    ensures (r - x) % LongModulus == 0
    ensures InLongRange(x) ==> r == x
  {
    (x - LongMin) % LongModulus + LongMin
  }

  // ---------------------------------------------------------------------------
  // Long.valueOf / Long.parseLong(s, 10)
  // ---------------------------------------------------------------------------

  predicate IsDigit(c: char) {
    '0' <= c <= '9'
  }

  predicate AllDigits(s: string) {
    forall k :: 0 <= k < |s| ==> IsDigit(s[k])
  }

  /** The value of a string of decimal digits, most significant first. */
  function DigitsValue(s: string): nat
    requires AllDigits(s)
  {
    if s == [] then 0
    else 10 * DigitsValue(s[..|s| - 1]) + (s[|s| - 1] as int - '0' as int)
  }

  /**
   * `Long.valueOf(s)`: an optional sign followed by at least one decimal digit
   * whose value fits in a `long`; `None` where Java throws
   * `NumberFormatException`.
   */
  function ParseLong(s: string): (r: Option<int>)
    ensures r.Some? ==> InLongRange(r.value)
    ensures r.Some? ==> |s| > 0 && (IsDigit(s[0]) || (|s| > 1 && (s[0] == '-' || s[0] == '+')))
    ensures r.Some? && r.value < 0 ==> s[0] == '-'
  {
    if s == [] then None
    else
      var signed := s[0] == '-' || s[0] == '+';
      var digits := if signed then s[1..] else s;
      if digits == [] || !AllDigits(digits) then None
      else
        var magnitude: int := DigitsValue(digits);
        var v := if s[0] == '-' then -magnitude else magnitude;
        if InLongRange(v) then Some(v) else None
  }

  /** Decimal rendering of a natural number, as `Long.toString` writes it. */
  function ShowNat(n: nat): (s: string)
    ensures s != [] && AllDigits(s)
  {
    var d := ['0' + (n % 10) as char];
    if n < 10 then d else ShowNat(n / 10) + d
  }

  function ShowLong(n: int): string {
    if n < 0 then "-" + ShowNat(-n) else ShowNat(n)
  }

  lemma {:induction false} DigitsValueShowNat(n: nat)
    ensures DigitsValue(ShowNat(n)) == n
  {
    var s := ShowNat(n);
    if n >= 10 {
      DigitsValueShowNat(n / 10);
      assert s[..|s| - 1] == ShowNat(n / 10);
    }
  }

  /** Reading back a `long` written in decimal gives the same value. */
  lemma ParseShowLong(n: int)
    requires InLongRange(n)
    ensures ParseLong(ShowLong(n)) == Some(n)
  {
    var s := ShowLong(n);
    if n < 0 {
      var digits := ShowNat(-n);
      assert s[0] == '-' && s[1..] == digits;
      DigitsValueShowNat(-n);
      assert DigitsValue(digits) == -n;
    } else {
      assert IsDigit(s[0]);
      DigitsValueShowNat(n);
      assert DigitsValue(s) == n;
    }
  }

  // ---------------------------------------------------------------------------
  // String.trim
  // ---------------------------------------------------------------------------

  /** `String.trim` removes every character whose code is at most U+0020. */
  predicate Blank(c: char) {
    c <= ' '
  }

  function LeadingBlanks(s: string): (n: nat)
    ensures n <= |s|
    ensures forall k :: 0 <= k < n ==> Blank(s[k])
    ensures n < |s| ==> !Blank(s[n])
  {
    if s == [] || !Blank(s[0]) then 0 else 1 + LeadingBlanks(s[1..])
  }

  function TrailingBlanks(s: string): (n: nat)
    ensures n <= |s|
    ensures forall k :: |s| - n <= k < |s| ==> Blank(s[k])
    ensures n < |s| ==> !Blank(s[|s| - 1 - n])
  {
    if s == [] || !Blank(s[|s| - 1]) then 0 else 1 + TrailingBlanks(s[..|s| - 1])
  }

  /** `r` is `s[a..]` cut short, with only blanks left out before and after it. */
  predicate BlankPadded(s: string, a: int, r: string) {
    && 0 <= a <= |s| - |r|
    && s[a..a + |r|] == r
    && (forall k :: 0 <= k < a ==> Blank(s[k]))
    && (forall k :: a + |r| <= k < |s| ==> Blank(s[k]))
  }

  /**
   * `String.trim`: the slice of `s` left after removing blanks at both ends;
   * the slice starts and ends with a non-blank, or is empty when `s` is all
   * blanks.
   */
  function Trim(s: string): (r: string)
    ensures |r| <= |s|
    ensures exists a :: BlankPadded(s, a, r)
    ensures r != [] ==> !Blank(r[0]) && !Blank(r[|r| - 1])
  {
    var a := LeadingBlanks(s);
    var rest := s[a..];
    var r := rest[..|rest| - TrailingBlanks(rest)];
    assert BlankPadded(s, a, r);
    r
  }

  predicate AllBlank(s: string) {
    forall k :: 0 <= k < |s| ==> Blank(s[k])
  }

  /** A blank-padded `r` splits `s` into blanks, `r` and blanks. */
  lemma PaddingSplits(s: string, a: int, r: string)
    requires BlankPadded(s, a, r)
    ensures AllBlank(s[..a]) && AllBlank(s[a + |r|..])
    ensures s == s[..a] + r + s[a + |r|..]
  {
    assert s == s[..a] + s[a..a + |r|] + s[a + |r|..];
  }

  /** The trimmed string is the only blank-padded slice that starts and ends with a non-blank. */
  lemma TrimUnique(s: string, a: int, r: string)
    requires BlankPadded(s, a, r)
    requires r != [] ==> !Blank(r[0]) && !Blank(r[|r| - 1])
    ensures Trim(s) == r
  {
    var t := Trim(s);
    var b :| BlankPadded(s, b, t);
    if r != [] {
      assert s[a] == r[0] && s[a + |r| - 1] == r[|r| - 1];
      if t != [] {
        assert s[b] == t[0] && s[b + |t| - 1] == t[|t| - 1];
        assert a == b;
        assert a + |r| == b + |t|;
      }
    }
  }

  /** Blanks added around a string are trimmed away again. */
  lemma TrimIgnoresPadding(s: string, before: string, after: string)
    requires AllBlank(before) && AllBlank(after)
    ensures Trim(before + s + after) == Trim(s)
  {
    var r := Trim(s);
    var a :| BlankPadded(s, a, r);
    var padded := before + s + after;
    assert padded[|before| + a..|before| + a + |r|] == s[a..a + |r|];
    assert BlankPadded(padded, |before| + a, r);
    TrimUnique(padded, |before| + a, r);
  }
}
