/**
 * Nearest-position recovery (GRBLSender::findClosestGCodeLine): replay the
 * loaded program with a modal tool position that starts at the origin and
 * is moved only by lines that start with "G0" or "G1", and only on the axes
 * such a line mentions; return the first line whose position is nearest to
 * the target, provided it is nearer than the 1e9 start value, else -1.
 */
module Recovery {
  import opened Wrappers
  import opened Text
  import opened Geometry

  // ---------------------------------------------------------------------
  // The axis-word pattern  <axis>(-?\d*\.?\d+)
  // ---------------------------------------------------------------------

  /** The words of `\d*\.?\d+`: digits, or digits, a point and at least
      one digit. */
  predicate IsUnsignedNumeral(u: string) {
    || (u != [] && AllDigits(u))
    || exists k :: 0 <= k < |u| - 1 && u[k] == '.' && AllDigits(u[..k]) && AllDigits(u[k + 1..])
  }

  /** The words of `-?\d*\.?\d+`. */
  predicate IsAxisNumeral(t: string) {
    IsUnsignedNumeral(t) || (t != [] && t[0] == '-' && IsUnsignedNumeral(t[1..]))
  }

  /** The `k` characters of `s` from `m` are a word of `\d*\.?\d+`. */
  predicate UnsignedPrefix(s: string, m: nat, k: nat) {
    m + k <= |s| && IsUnsignedNumeral(s[m..m + k])
  }

  /** The `k` characters of `s` from `q` are a word of `-?\d*\.?\d+`. */
  predicate AxisPrefix(s: string, q: nat, k: nat) {
    q + k <= |s| && IsAxisNumeral(s[q..q + k])
  }

  /** The length of the longest word of `\d*\.?\d+` that starts at `m` in
      `s`, or 0 when none does. */
  function UnsignedNumeralAt(s: string, m: nat): (n: nat)
    requires m <= |s|
    ensures m + n <= |s|
    ensures n > 0 ==> UnsignedPrefix(s, m, n)
    ensures forall k :: n < k ==> !UnsignedPrefix(s, m, k)
  {
    var d := DigitRun(s, m);
    var f := if m + d < |s| && s[m + d] == '.' then DigitRun(s, m + d + 1) else 0;
    LongestUnsignedNumeral(s, m, d, f);
    if f > 0 then d + 1 + f else d
  }

  /** The digit run, extended by a point and its digit run when that is
      non-empty, is the longest unsigned numeral at `m`. */
  lemma LongestUnsignedNumeral(s: string, m: nat, d: nat, f: nat)
    requires m <= |s| && d == DigitRun(s, m)
    requires f == if m + d < |s| && s[m + d] == '.' then DigitRun(s, m + d + 1) else 0
    ensures var n := if f > 0 then d + 1 + f else d;
      && m + n <= |s|
      && (n > 0 ==> UnsignedPrefix(s, m, n))
      && (forall k :: n < k ==> !UnsignedPrefix(s, m, k))
  {
    var n := if f > 0 then d + 1 + f else d;
    if f > 0 {
      assert UnsignedPrefix(s, m, n) by {
        var u := s[m..m + n];
        assert u[..d] == s[m..m + d];
        assert u[d + 1..] == s[m + d + 1..m + d + 1 + f];
        assert u[d] == '.';
        assert AllDigits(u[..d]) && AllDigits(u[d + 1..]);
        assert IsUnsignedNumeral(u);
      }
    } else if d > 0 {
      assert UnsignedPrefix(s, m, n) by {
        assert AllDigits(s[m..m + d]);
      }
    }
    forall k | n < k
      ensures !UnsignedPrefix(s, m, k)
    {
      if m + k <= |s| {
        NoLongerNumeral(s, m, d, f, k);
      }
    }
  }

  lemma NoLongerNumeral(s: string, m: nat, d: nat, f: nat, k: nat)
    requires m <= |s| && d == DigitRun(s, m)
    requires f == if m + d < |s| && s[m + d] == '.' then DigitRun(s, m + d + 1) else 0
    requires (if f > 0 then d + 1 + f else d) < k <= |s| - m
    ensures !IsUnsignedNumeral(s[m..m + k])
  {
    var u := s[m..m + k];
    assert u[d] == s[m + d];
    forall j | 0 <= j < |u| - 1
      ensures !(u[j] == '.' && AllDigits(u[..j]) && AllDigits(u[j + 1..]))
    {
      if j < d {
        assert u[j] == s[m..m + d][j];
      } else if j > d {
        assert u[..j][d] == u[d];
      } else if u[d] == '.' {
        assert u[j + 1..][f] == s[m + d + 1 + f];
      }
    }
  }

  /** The capture of `-?\d*\.?\d+` at position `q` of `s`: the longest
      such word starting there (what the greedy pattern matches), or None. */
  function NumeralAt(s: string, q: nat): (r: Option<string>)
    requires q <= |s|
    ensures r.Some? ==> AxisPrefix(s, q, |r.value|) && r.value == s[q..q + |r.value|]
    ensures r.Some? ==> forall n :: |r.value| < n ==> !AxisPrefix(s, q, n)
    ensures r.None? ==> forall n :: 0 < n ==> !AxisPrefix(s, q, n)
  {
    if q < |s| && s[q] == '-' then
      var n := UnsignedNumeralAt(s, q + 1);
      DashedNumerals(s, q);
      if n > 0 then Some(s[q..q + 1 + n]) else None
    else
      var n := UnsignedNumeralAt(s, q);
      UndashedNumerals(s, q);
      if n > 0 then Some(s[q..q + n]) else None
  }

  lemma DashedNumerals(s: string, q: nat)
    requires q < |s| && s[q] == '-'
    ensures forall k :: 0 < k ==> (AxisPrefix(s, q, k) <==> UnsignedPrefix(s, q + 1, k - 1))
    ensures !AxisPrefix(s, q, 0)
  {
    forall k | 0 < k
      ensures AxisPrefix(s, q, k) <==> UnsignedPrefix(s, q + 1, k - 1)
    {
      if q + k <= |s| {
        DashNotUnsigned(s[q..q + k]);
        assert s[q..q + k][1..] == s[q + 1..q + k];
      }
    }
  }

  lemma UndashedNumerals(s: string, q: nat)
    requires q <= |s| && !(q < |s| && s[q] == '-')
    ensures forall k :: AxisPrefix(s, q, k) <==> UnsignedPrefix(s, q, k)
  {
    forall k | AxisPrefix(s, q, k)
      ensures UnsignedPrefix(s, q, k)
    {
      assert s[q..q + k][0] == s[q];
    }
  }

  lemma DashNotUnsigned(t: string)
    requires t != [] && t[0] == '-'
    ensures !IsUnsignedNumeral(t)
  {
    assert !IsDigit(t[0]);
  }

  /** Every capture of the axis pattern is a numeral QString::toFloat
      accepts, so the value read is the number written on the line. */
  lemma AxisNumeralParses(t: string)
    requires IsAxisNumeral(t)
    ensures ParseDecimal(t).Some?
  {
    if t != [] && t[0] == '-' {
      DashNotUnsigned(t);
      UnsignedNumeralParses(t[1..]);
    } else {
      UnsignedNumeralParses(t);
    }
  }

  lemma UnsignedNumeralParses(u: string)
    requires IsUnsignedNumeral(u)
    ensures ParseUnsigned(u).Some?
  {
    if !(u != [] && AllDigits(u)) {
      var k :| 0 <= k < |u| - 1 && u[k] == '.' && AllDigits(u[..k]) && AllDigits(u[k + 1..]);
      DigitRunOver(u, 0, k);
    } else {
      DigitRunOver(u, 0, |u|);
    }
  }

  /** A match of `<axis>(-?\d*\.?\d+)` starts at `p`. */
  predicate AxisWordAt(line: string, axis: char, p: nat) {
    p < |line| && line[p] == axis && NumeralAt(line, p + 1).Some?
  }

  /** QRegExp::indexIn for the axis pattern: the leftmost match at or
      after `from`. */
  function FirstAxisWord(line: string, axis: char, from: nat): (r: Option<nat>)
    requires from <= |line|
    ensures r.Some? ==> from <= r.value && AxisWordAt(line, axis, r.value)
    ensures r.Some? ==> forall p :: from <= p < r.value ==> !AxisWordAt(line, axis, p)
    ensures r.None? ==> forall p :: from <= p < |line| ==> !AxisWordAt(line, axis, p)
    decreases |line| - from
  {
    if from == |line| then None
    else if AxisWordAt(line, axis, from) then Some(from)
    else FirstAxisWord(line, axis, from + 1)
  }

  /** The first capture of the axis pattern on the line; later mentions of
      the same axis are ignored. */
  function AxisCapture(line: string, axis: char): Option<string> {
    match FirstAxisWord(line, axis, 0)
    case Some(p) => NumeralAt(line, p + 1)
    case None => None
  }

  // ---------------------------------------------------------------------
  // Modal replay of the program
  // ---------------------------------------------------------------------

  /** `line.startsWith("G0") || line.startsWith("G1")`; this also accepts
      G00, G01, G10, G17 and every other code with those two prefixes. */
  predicate IsMotion(line: string) {
    StartsWith(line, "G0") || StartsWith(line, "G1")
  }

  /** The coordinate after the line: the value written for the axis, or
      `current` when the axis is not mentioned. */
  function Coordinate(line: string, axis: char, current: real): real {
    match AxisCapture(line, axis)
    case Some(t) => ToFloat(t)
    case None => current
  }

  /** The simulated position after one line. */
  function Step(p: Point, line: string): Point {
    if IsMotion(line) then
      Point(Coordinate(line, 'X', p.x), Coordinate(line, 'Y', p.y), Coordinate(line, 'Z', p.z))
    else
      p
  }

  /** The simulated position after the first `k` lines. */
  function Replay(lines: seq<string>, k: nat): Point
    requires k <= |lines|
  {
    if k == 0 then Origin else Step(Replay(lines, k - 1), lines[k - 1])
  }

  /** The squared distance to the target once line `i` has been replayed. */
  function LineDist(lines: seq<string>, i: nat, target: Point): real
    requires i < |lines|
  {
    SqDist(Replay(lines, i + 1), target)
  }

  /** The start value of the running minimum, `float bestDist = 1e9`. */
  const Sentinel: real := 1000000000.0

  /** `r` is what the scan must return: the first motion line at minimal
      squared distance, when that distance is below the sentinel, and -1
      when no motion line comes below the sentinel. */
  ghost predicate IsClosest(lines: seq<string>, target: Point, r: int) {
    if r == -1 then
      forall i :: 0 <= i < |lines| && IsMotion(lines[i]) ==> LineDist(lines, i, target) >= Sentinel
    else
      && 0 <= r < |lines| && IsMotion(lines[r])
      && LineDist(lines, r, target) < Sentinel
      && (forall i :: 0 <= i < r && IsMotion(lines[i]) ==> LineDist(lines, i, target) > LineDist(lines, r, target))
      && (forall i :: r < i < |lines| && IsMotion(lines[i]) ==> LineDist(lines, i, target) >= LineDist(lines, r, target))
  }

  /** GRBLSender::findClosestGCodeLine. It reads only the program lines and
      the target. */
  method FindClosestGCodeLine(lines: seq<string>, targetX: real, targetY: real, targetZ: real)
    returns (bestLine: int)
    ensures IsClosest(lines, Point(targetX, targetY, targetZ), bestLine)
    ensures -1 <= bestLine < |lines|
  {
    ghost var target := Point(targetX, targetY, targetZ);
    var bestDist := Sentinel;
    bestLine := -1;
    var curX, curY, curZ := 0.0, 0.0, 0.0;
    for i := 0 to |lines|
      invariant Point(curX, curY, curZ) == Replay(lines, i)
      invariant -1 <= bestLine < i
      invariant bestLine == -1 ==> bestDist == Sentinel
      invariant bestLine == -1 ==>
        forall j :: 0 <= j < i && IsMotion(lines[j]) ==> LineDist(lines, j, target) >= Sentinel
      invariant bestLine >= 0 ==>
        && IsMotion(lines[bestLine]) && bestDist == LineDist(lines, bestLine, target) && bestDist < Sentinel
        && (forall j :: 0 <= j < bestLine && IsMotion(lines[j]) ==> LineDist(lines, j, target) > bestDist)
        && (forall j :: bestLine < j < i && IsMotion(lines[j]) ==> LineDist(lines, j, target) >= bestDist)
    {
      var line := lines[i];
      if IsMotion(line) {
        match AxisCapture(line, 'X') {
          case Some(t) => curX := ToFloat(t);
          case None =>
        }
        match AxisCapture(line, 'Y') {
          case Some(t) => curY := ToFloat(t);
          case None =>
        }
        match AxisCapture(line, 'Z') {
          case Some(t) => curZ := ToFloat(t);
          case None =>
        }
        assert Point(curX, curY, curZ) == Replay(lines, i + 1);
        var dist := SqDist(Point(curX, curY, curZ), Point(targetX, targetY, targetZ));
        if dist < bestDist {
          bestDist := dist;
          bestLine := i;
        }
      }
    }
  }

  // ---------------------------------------------------------------------
  // Properties of the scan
  // ---------------------------------------------------------------------

  /** The conditions of IsClosest pin the result down: one answer per
      program and target. */
  lemma ClosestIsUnique(lines: seq<string>, target: Point, r1: int, r2: int)
    requires IsClosest(lines, target, r1) && IsClosest(lines, target, r2)
    ensures r1 == r2
  {
  }

  /** A program without motion lines never yields a recovery line. */
  lemma NoMotionNoRecovery(lines: seq<string>, target: Point, r: int)
    requires forall i :: 0 <= i < |lines| ==> !IsMotion(lines[i])
    requires IsClosest(lines, target, r)
    ensures r == -1
  {
  }

  /** A motion line whose replayed position is exactly the target is chosen
      when no earlier motion line was already at the target. */
  lemma ExactHitIsChosen(lines: seq<string>, target: Point, i: nat)
    requires i < |lines| && IsMotion(lines[i]) && Replay(lines, i + 1) == target
    requires forall j :: 0 <= j < i && IsMotion(lines[j]) ==> Replay(lines, j + 1) != target
    ensures IsClosest(lines, target, i)
  {
    SqDistZeroIff(Replay(lines, i + 1), target);
    forall j | 0 <= j < |lines| && IsMotion(lines[j])
      ensures j < i ==> LineDist(lines, j, target) > 0.0
      ensures LineDist(lines, j, target) >= 0.0
    {
      SqDistZeroIff(Replay(lines, j + 1), target);
    }
  }

  /** The line filter accepts G00, G01 and G10 as well (a prefix test). */
  lemma MotionTestIsAPrefixTest()
    ensures IsMotion("G00 X1") && IsMotion("G01 X1") && IsMotion("G10 L20 X0")
    ensures !IsMotion("g0 X1") && !IsMotion(" G0 X1") && !IsMotion("M3")
  {
    assert "g0 X1"[..2][0] == 'g';
    assert " G0 X1"[..2][0] == ' ';
    assert "M3"[..2][0] == 'M';
  }

  /** An axis letter followed by plain digits, with no earlier mention of
      that letter, is the word the scan reads. */
  lemma DigitsAfterAxis(line: string, axis: char, p: nat, n: nat)
    requires p + 1 + n <= |line| && line[p] == axis && 0 < n
    requires forall q :: 0 <= q < p ==> line[q] != axis
    requires AllDigits(line[p + 1..p + 1 + n])
    requires p + 1 + n < |line| ==> !IsDigit(line[p + 1 + n]) && line[p + 1 + n] != '.'
    ensures AxisCapture(line, axis) == Some(line[p + 1..p + 1 + n])
  {
    NumeralOfDigits(line, p + 1, n);
    FirstAxisAt(line, axis, p);
  }

  /** Plain digits that neither a digit nor a point continues are the
      numeral read there. */
  lemma NumeralOfDigits(s: string, q: nat, n: nat)
    requires q + n <= |s| && 0 < n && AllDigits(s[q..q + n])
    requires q + n < |s| ==> !IsDigit(s[q + n]) && s[q + n] != '.'
    ensures NumeralAt(s, q) == Some(s[q..q + n])
  {
    DigitRunOver(s, q, n);
    assert IsDigit(s[q..q + n][0]);
    assert UnsignedNumeralAt(s, q) == n;
  }

  /** An axis word with no earlier mention of its letter is the first. */
  lemma FirstAxisAt(line: string, axis: char, p: nat)
    requires AxisWordAt(line, axis, p)
    requires forall q :: 0 <= q < p ==> line[q] != axis
    ensures FirstAxisWord(line, axis, 0) == Some(p)
  {
  }

  /** A line that never mentions the axis letter leaves that axis alone. */
  lemma AxisAbsent(line: string, axis: char)
    requires forall q :: 0 <= q < |line| ==> line[q] != axis
    ensures AxisCapture(line, axis) == None
  {
  }

  /** The worked example: three moves, the target is where the second one
      ends, so recovery restarts at line 1. (The program is a parameter so
      that the solver reasons about it symbolically.) */
  lemma ThreeMoveExample(lines: seq<string>)
    requires lines == ["G0 X10 Y0", "G0 X10 Y10", "G0 X20 Y10"]
    ensures IsClosest(lines, Point(10.0, 10.0, 0.0), 1)
  {
    ExampleStep(lines[0], "0", Origin);
    ExampleStep(lines[1], "10", Point(10.0, 0.0, 0.0));
    assert Replay(lines, 1) == Step(Replay(lines, 0), lines[0]);
    assert Replay(lines, 2) == Step(Replay(lines, 1), lines[1]);
    ExactHitIsChosen(lines, Point(10.0, 10.0, 0.0), 1);
  }

  /** No other answer is possible for the worked example. */
  lemma ThreeMoveOnlyAnswer(lines: seq<string>, r: int)
    requires lines == ["G0 X10 Y0", "G0 X10 Y10", "G0 X20 Y10"]
    requires IsClosest(lines, Point(10.0, 10.0, 0.0), r)
    ensures r == 1
  {
    ThreeMoveExample(lines);
    ClosestIsUnique(lines, Point(10.0, 10.0, 0.0), r, 1);
  }

  lemma ExampleStep(line: string, y: string, p: Point)
    requires line == "G0 X10 Y" + y && (y == "0" || y == "10") && p.z == 0.0
    ensures Step(p, line) == Point(10.0, if y == "0" then 0.0 else 10.0, 0.0)
  {
    ExampleLineX(line);
    ExampleLineY(line, y);
    ExampleLineZ(line);
    TenAndZero("10", "0");
  }

  lemma ExampleLineX(line: string)
    requires line == "G0 X10 Y0" || line == "G0 X10 Y10"
    ensures IsMotion(line) && AxisCapture(line, 'X') == Some("10")
  {
    assert line[..2] == "G0";
    assert line[0] != 'X' && line[1] != 'X' && line[2] != 'X';
    DigitsAfterAxis(line, 'X', 3, 2);
    assert line[4..6] == "10";
  }

  lemma ExampleLineY(line: string, y: string)
    requires line == "G0 X10 Y" + y && (y == "0" || y == "10")
    ensures AxisCapture(line, 'Y') == Some(y)
  {
    assert forall q :: 0 <= q < 7 ==> line[q] != 'Y';
    DigitsAfterAxis(line, 'Y', 7, |y|);
    assert line[8..8 + |y|] == y;
  }

  lemma ExampleLineZ(line: string)
    requires line == "G0 X10 Y0" || line == "G0 X10 Y10"
    ensures AxisCapture(line, 'Z') == None
  {
    AxisAbsent(line, 'Z');
  }

  lemma TenAndZero(ten: string, zero: string)
    requires ten == "10" && zero == "0"
    ensures ToFloat(ten) == 10.0 && ToFloat(zero) == 0.0
  {
    DigitsToFloat(ten);
    DigitsToFloat(zero);
    assert ten[..1] == "1" && ten[..1][..0] == [] && zero[..0] == [];
  }
}
