/**
 * The handful of QString operations the sender relies on: `trimmed`,
 * `startsWith`, `contains`, `toInt` and `toFloat`, over `string` (a sequence
 * of Unicode scalar values), plus the decimal digit formatting that the
 * round-trip lemmas use to build well-formed device text.
 */
module Text {
  import opened Wrappers

  // ---------------------------------------------------------------------
  // Whitespace and trimming (QString::trimmed)
  // ---------------------------------------------------------------------

  /** The characters QChar::isSpace accepts: the ASCII controls TAB..CR,
      space, NEL, NBSP and the Unicode separators of category Z. */
  predicate IsSpace(c: char) {
    || c == ' ' || ('\t' <= c <= '\r')
    || c == '\U{85}' || c == '\U{A0}' || c == '\U{1680}'
    || ('\U{2000}' <= c <= '\U{200A}')
    || c == '\U{2028}' || c == '\U{2029}' || c == '\U{202F}'
    || c == '\U{205F}' || c == '\U{3000}'
  }

  /** `s` without its leading whitespace. */
  function TrimStart(s: string): string {
    if s != [] && IsSpace(s[0]) then TrimStart(s[1..]) else s
  }

  /** `s` without its trailing whitespace. */
  function TrimEnd(s: string): string {
    if s != [] && IsSpace(s[|s| - 1]) then TrimEnd(s[..|s| - 1]) else s
  }

  /** TrimStart leaves a suffix of `s` whose dropped part is all whitespace
      and which does not itself start with whitespace. */
  lemma {:induction false} TrimStartFacts(s: string)
    ensures var r := TrimStart(s);
      && |r| <= |s| && r == s[|s| - |r|..]
      && (forall k :: 0 <= k < |s| - |r| ==> IsSpace(s[k]))
      && (r != [] ==> !IsSpace(r[0]))
    decreases |s|
  {
    if s != [] && IsSpace(s[0]) {
      TrimStartFacts(s[1..]);
      var r := TrimStart(s);
      assert s[1..][|s| - 1 - |r|..] == s[|s| - |r|..];
      forall k | 0 <= k < |s| - |r|
        ensures IsSpace(s[k])
      {
        if k > 0 {
          assert s[k] == s[1..][k - 1];
        }
      }
    }
  }

  /** TrimEnd leaves a prefix of `s` whose dropped part is all whitespace
      and which does not itself end with whitespace. */
  lemma {:induction false} TrimEndFacts(s: string)
    ensures var r := TrimEnd(s);
      && |r| <= |s| && r == s[..|r|]
      && (forall k :: |r| <= k < |s| ==> IsSpace(s[k]))
      && (r != [] ==> !IsSpace(r[|r| - 1]))
    decreases |s|
  {
    if s != [] && IsSpace(s[|s| - 1]) {
      TrimEndFacts(s[..|s| - 1]);
      var r := TrimEnd(s);
      assert s[..|s| - 1][..|r|] == s[..|r|];
      forall k | |r| <= k < |s|
        ensures IsSpace(s[k])
      {
        if k < |s| - 1 {
          assert s[k] == s[..|s| - 1][k];
        }
      }
    }
  }

  /** QString::trimmed: `s` with whitespace removed from both ends. */
  function Trim(s: string): (r: string)
    ensures |r| <= |s| && IsTrimmed(r)
  {
    TrimBothEnds(s);
    TrimEnd(TrimStart(s))
  }

  /** The trimmed text is the infix `s[i..j]`, where `i` is the number of
      characters trimming the front removed, and everything outside it is
      whitespace. */
  lemma TrimRemovesOnlySpace(s: string)
    ensures var i := |s| - |TrimStart(s)|; var j := i + |Trim(s)|;
      && 0 <= i <= j <= |s| && Trim(s) == s[i..j]
      && (forall k :: 0 <= k < i ==> IsSpace(s[k]))
      && (forall k :: j <= k < |s| ==> IsSpace(s[k]))
  {
    var t := TrimStart(s);
    var r := TrimEnd(t);
    var i := |s| - |t|;
    var j := i + |r|;
    assert t == s[i..] && forall k :: 0 <= k < i ==> IsSpace(s[k]) by {
      TrimStartFacts(s);
    }
    assert r == t[..|r|] && forall k :: |r| <= k < |t| ==> IsSpace(t[k]) by {
      TrimEndFacts(t);
    }
    assert r == s[i..j];
    forall k | j <= k < |s|
      ensures IsSpace(s[k])
    {
      assert s[k] == t[k - i];
    }
  }

  /** A string that neither starts nor ends with whitespace. */
  predicate IsTrimmed(s: string) {
    s != [] ==> !IsSpace(s[0]) && !IsSpace(s[|s| - 1])
  }

  lemma TrimOfTrimmed(s: string)
    requires IsTrimmed(s)
    ensures Trim(s) == s
  {
  }

  /** Trimming twice is trimming once. */
  lemma TrimIdempotent(s: string)
    ensures Trim(Trim(s)) == Trim(s)
  {
    TrimOfTrimmed(Trim(s));
  }

  /** The trimmed text neither starts nor ends with whitespace. */
  lemma TrimBothEnds(s: string)
    ensures |TrimEnd(TrimStart(s))| <= |s| && IsTrimmed(TrimEnd(TrimStart(s)))
  {
    var t := TrimStart(s);
    TrimStartFacts(s);
    TrimEndFacts(t);
    var r := TrimEnd(t);
    if r != [] {
      assert r[0] == t[0];
    }
  }

  /** A line trims to the empty string exactly when it is all whitespace. */
  lemma {:induction false} TrimEmptyIffBlank(s: string)
    ensures Trim(s) == [] <==> forall k :: 0 <= k < |s| ==> IsSpace(s[k])
  {
    if forall k :: 0 <= k < |s| ==> IsSpace(s[k]) {
      BlankTrimStart(s);
    }
    if Trim(s) == [] {
      var t := TrimStart(s);
      TrimStartFacts(s);
      TrimEndFacts(t);
      assert t == [];
    }
  }

  lemma {:induction false} BlankTrimStart(s: string)
    requires forall k :: 0 <= k < |s| ==> IsSpace(s[k])
    ensures TrimStart(s) == []
  {
    if s != [] {
      BlankTrimStart(s[1..]);
    }
  }

  // ---------------------------------------------------------------------
  // Prefix and substring tests (QString::startsWith, QString::contains)
  // ---------------------------------------------------------------------

  predicate StartsWith(s: string, p: string) {
    |p| <= |s| && s[..|p|] == p
  }

  /** QString::contains: `p` occurs somewhere in `s`. */
  function Contains(s: string, p: string): (r: bool)
    ensures r <==> exists i :: 0 <= i <= |s| - |p| && StartsWith(s[i..], p)
    decreases |s|
  {
    if StartsWith(s, p) then
      assert s[0..] == s;
      true
    else if s == [] then
      false
    else
      var r := Contains(s[1..], p);
      assert forall i :: 1 <= i <= |s| ==> s[i..] == s[1..][i - 1..];
      r
  }

  // ---------------------------------------------------------------------
  // Decimal digits
  // ---------------------------------------------------------------------

  predicate IsDigit(c: char) {
    '0' <= c <= '9'
  }

  predicate AllDigits(s: string) {
    forall k :: 0 <= k < |s| ==> IsDigit(s[k])
  }

  /** The length of the run of digits that starts at `i` (greedy `\d*`). */
  function DigitRun(s: string, i: nat): (n: nat)
    requires i <= |s|
    ensures i + n <= |s|
    ensures AllDigits(s[i..i + n])
    ensures i + n < |s| ==> !IsDigit(s[i + n])
    decreases |s| - i
  {
    if i < |s| && IsDigit(s[i]) then
      var m := DigitRun(s, i + 1);
      assert s[i..i + 1 + m] == [s[i]] + s[i + 1..i + 1 + m];
      1 + m
    else
      0
  }

  /** The number a digit string denotes, most significant digit first. */
  function DigitsValue(s: string): nat
    requires AllDigits(s)
  {
    if s == [] then 0
    else DigitsValue(s[..|s| - 1]) * 10 + ((s[|s| - 1] as int) - ('0' as int))
  }

  function Pow10(n: nat): (r: nat)
    ensures r > 0
  {
    if n == 0 then 1 else 10 * Pow10(n - 1)
  }

  /** The digit character for `d`. */
  function DigitChar(d: nat): (c: char)
    requires d < 10
    ensures IsDigit(c) && (c as int) - ('0' as int) == d
  {
    ('0' as int + d) as char
  }

  /** The shortest decimal representation of `n`. */
  function NatToDigits(n: nat): (s: string)
    ensures s != [] && AllDigits(s)
  {
    if n < 10 then [DigitChar(n)] else NatToDigits(n / 10) + [DigitChar(n % 10)]
  }

  /** Formatting a natural number and reading it back is the identity. */
  lemma {:induction false} DigitsRoundTrip(n: nat)
    ensures DigitsValue(NatToDigits(n)) == n
  {
    var s := NatToDigits(n);
    if n >= 10 {
      DigitsRoundTrip(n / 10);
      assert s[..|s| - 1] == NatToDigits(n / 10);
    } else {
      assert s[..|s| - 1] == [];
    }
  }

  // ---------------------------------------------------------------------
  // QString::toInt and QString::toFloat
  // ---------------------------------------------------------------------

  const Int32Max: nat := 0x7FFF_FFFF

  /** QString::toInt (base 10) on a string of digits: its value when it
      fits in a 32-bit int, and 0 (the failure value) otherwise. */
  function ToInt(s: string): (r: int)
    ensures 0 <= r <= Int32Max
  {
    if s != [] && AllDigits(s) && DigitsValue(s) <= Int32Max then DigitsValue(s) else 0
  }

  /** Text that is empty or holds a character other than a digit reads as
      the failure value 0. */
  lemma ToIntRejects(s: string)
    requires s == [] || exists k :: 0 <= k < |s| && !IsDigit(s[k])
    ensures ToInt(s) == 0
  {
  }

  /** The decimal text of a number beyond the 32-bit maximum overflows to
      the failure value 0; one within it reads back as the number. */
  lemma ToIntOfDigits(n: nat)
    ensures n > Int32Max ==> ToInt(NatToDigits(n)) == 0
    ensures n <= Int32Max ==> ToInt(NatToDigits(n)) == n
  {
    DigitsRoundTrip(n);
  }

  /** The fractional value of the digits after a decimal point. */
  function Fraction(f: string): real
    requires AllDigits(f)
  {
    (DigitsValue(f) as real) / (Pow10(|f|) as real)
  }

  /** An unsigned decimal numeral, `\d+`, `\d+\.\d*` or `\.\d+`. */
  function ParseUnsigned(u: string): Option<real> {
    var d := DigitRun(u, 0);
    if d == |u| then
      if d > 0 then Some(DigitsValue(u) as real) else None
    else if u[d] == '.' && AllDigits(u[d + 1..]) && (d > 0 || d + 1 < |u|) then
      Some(PointedValue(u[..d], u[d + 1..]))
    else
      None
  }

  /** The value of the numeral `whole.frac`. */
  function PointedValue(whole: string, frac: string): real
    requires AllDigits(whole) && AllDigits(frac)
  {
    DigitsValue(whole) as real + Fraction(frac)
  }

  /** A decimal numeral with an optional leading minus sign; None when `s`
      is not one. */
  function ParseDecimal(s: string): Option<real> {
    if s != [] && s[0] == '-' then
      match ParseUnsigned(s[1..])
      case Some(v) => Some(-v)
      case None => None
    else
      ParseUnsigned(s)
  }

  /** QString::toFloat: the value of the numeral, 0.0 when `s` is not one. */
  function ToFloat(s: string): real {
    ParseDecimal(s).GetOr(0.0)
  }

  /** `toFloat` of a plain digit string is the number it denotes. */
  lemma DigitsToFloat(t: string)
    requires t != [] && AllDigits(t)
    ensures ToFloat(t) == DigitsValue(t) as real
  {
    assert t[0..|t|] == t;
    DigitRunOver(t, 0, |t|);
  }

  /** A coordinate printed with three decimals, as the controller reports
      positions: `millis` thousandths, e.g. -1234 as "-1.234". */
  function FormatMillis(millis: int): (s: string)
    ensures s != []
  {
    var m := if millis < 0 then -millis else millis;
    (if millis < 0 then "-" else "") + MillisDigits(m)
  }

  /** The unsigned part: whole units, a point and three decimals. */
  function MillisDigits(m: nat): string {
    var r := m % 1000;
    NatToDigits(m / 1000) + "." + [DigitChar(r / 100), DigitChar(r / 10 % 10), DigitChar(r % 10)]
  }

  lemma ThreeDigits(r: nat)
    requires r < 1000
    ensures AllDigits([DigitChar(r / 100), DigitChar(r / 10 % 10), DigitChar(r % 10)])
    ensures DigitsValue([DigitChar(r / 100), DigitChar(r / 10 % 10), DigitChar(r % 10)]) == r
  {
    var s := [DigitChar(r / 100), DigitChar(r / 10 % 10), DigitChar(r % 10)];
    assert s[..2][..1][..0] == [];
    assert DigitsValue(s[..2][..1]) == r / 100;
    assert DigitsValue(s[..2]) == (r / 100) * 10 + r / 10 % 10;
  }

  /** A formatted coordinate parses back to the value it was printed from. */
  lemma FormatMillisRoundTrip(millis: int)
    ensures ParseDecimal(FormatMillis(millis)) == Some(millis as real / 1000.0)
  {
    if millis < 0 {
      var u := MillisDigits(-millis);
      assert ParseUnsigned(u) == Some((-millis) as real / 1000.0) by {
        MillisDigitsParse(-millis);
      }
      NegatedDecimal(u);
      assert FormatMillis(millis) == "-" + u;
    } else {
      var u := MillisDigits(millis);
      assert IsDigit(u[0]) && ParseUnsigned(u) == Some(millis as real / 1000.0) by {
        MillisDigitsParse(millis);
      }
      UnsignedDecimal(u);
      assert FormatMillis(millis) == "" + u == u;
    }
  }

  /** A minus sign negates the unsigned numeral after it. */
  lemma NegatedDecimal(u: string)
    requires ParseUnsigned(u).Some?
    ensures ParseDecimal("-" + u) == Some(-ParseUnsigned(u).value)
  {
    assert ("-" + u)[1..] == u;
  }

  /** A numeral that starts with a digit is read as unsigned. */
  lemma UnsignedDecimal(u: string)
    requires u != [] && IsDigit(u[0])
    ensures ParseDecimal(u) == ParseUnsigned(u)
  {
  }

  /** The unsigned part starts with a digit and reads as thousandths. */
  lemma MillisDigitsParse(m: nat)
    ensures var u := MillisDigits(m); IsDigit(u[0]) && ParseUnsigned(u) == Some(m as real / 1000.0)
  {
    var r := m % 1000;
    var q := NatToDigits(m / 1000);
    var f := [DigitChar(r / 100), DigitChar(r / 10 % 10), DigitChar(r % 10)];
    assert MillisDigits(m) == q + "." + f;
    assert (q + "." + f)[0] == q[0];
    ThreeDigits(r);
    DigitsRoundTrip(m / 1000);
    PointedParses(q, f);
    ThousandthsSum(m);
  }

  /** Whole part plus thousandths is the value in thousandths. */
  lemma ThousandthsSum(m: nat)
    ensures (m / 1000) as real + ((m % 1000) as real) / 1000.0 == m as real / 1000.0
  {
  }

  /** Digits, a point and three digits read as whole part plus thousandths. */
  lemma PointedParses(q: string, f: string)
    requires q != [] && AllDigits(q) && |f| == 3 && AllDigits(f)
    ensures ParseUnsigned(q + "." + f) == Some(DigitsValue(q) as real + (DigitsValue(f) as real) / 1000.0)
  {
    var u := q + "." + f;
    assert DigitRun(u, 0) == |q| by {
      assert u[0..0 + |q|] == q;
      DigitRunOver(u, 0, |q|);
    }
    assert ParseUnsigned(u) == Some(PointedValue(q, f)) by {
      assert u[..|q|] == q;
      assert u[|q| + 1..] == f;
      PointedNumeral(u, |q|);
    }
    Thousandths(q, f);
  }

  /** ParseUnsigned of digits, a point and digits. */
  lemma PointedNumeral(u: string, d: nat)
    requires 0 < d == DigitRun(u, 0) < |u| && u[d] == '.' && AllDigits(u[d + 1..])
    ensures AllDigits(u[..d]) && ParseUnsigned(u) == Some(PointedValue(u[..d], u[d + 1..]))
  {
    assert u[..d] == u[0..0 + d];
  }

  lemma Thousandths(q: string, f: string)
    requires AllDigits(q) && |f| == 3 && AllDigits(f)
    ensures PointedValue(q, f) == DigitsValue(q) as real + (DigitsValue(f) as real) / 1000.0
  {
    assert Pow10(3) == 1000;
  }

  /** The digit run from `i` is exactly `n` long when `n` digits follow `i`
      and a non-digit (or the end) comes after them. */
  lemma {:induction false} DigitRunOver(s: string, i: nat, n: nat)
    requires i + n <= |s|
    requires AllDigits(s[i..i + n])
    requires i + n < |s| ==> !IsDigit(s[i + n])
    ensures DigitRun(s, i) == n
    decreases n
  {
    if n > 0 {
      assert IsDigit(s[i..i + n][0]);
      assert s[i + 1..i + n] == s[i..i + n][1..];
      DigitRunOver(s, i + 1, n - 1);
    }
  }
}
