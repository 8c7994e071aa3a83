/**
 * Status-report position extraction (GRBLSender::readSerial): a chunk that
 * contains '<' is searched for the pattern
 *     MPos:([0-9.-]+),([0-9.-]+),([0-9.-]+)
 * and, when it matches, the three captures read with QString::toFloat
 * become the new machine position, all three axes together.
 */
module Status {
  import opened Wrappers
  import opened Text
  import opened Geometry
  import Seqs

  /** The character class `[0-9.-]`. */
  predicate IsNumChar(c: char) {
    IsDigit(c) || c == '.' || c == '-'
  }

  predicate AllNumChars(s: string) {
    forall k :: 0 <= k < |s| ==> IsNumChar(s[k])
  }

  /** The length of the run of `[0-9.-]` characters that starts at `i`. */
  function NumRun(s: string, i: nat): (n: nat)
    requires i <= |s|
    ensures i + n <= |s|
    decreases |s| - i
  {
    if i < |s| && IsNumChar(s[i]) then 1 + NumRun(s, i + 1) else 0
  }

  /** The run is made of class characters and stops at one outside it. */
  lemma {:induction false} NumRunFacts(s: string, i: nat)
    requires i <= |s|
    ensures AllNumChars(s[i..i + NumRun(s, i)])
    ensures i + NumRun(s, i) < |s| ==> !IsNumChar(s[i + NumRun(s, i)])
    decreases |s| - i
  {
    if i < |s| && IsNumChar(s[i]) {
      NumRunFacts(s, i + 1);
      var n := NumRun(s, i);
      assert s[i..i + n] == [s[i]] + s[i + 1..i + n];
    }
  }

  /** A run of `n` class characters from `i` means the run is at least `n`
      long; with a non-class character (or the end) after it, exactly `n`. */
  lemma {:induction false} NumRunOver(s: string, i: nat, n: nat)
    requires i + n <= |s| && AllNumChars(s[i..i + n])
    ensures n <= NumRun(s, i)
    ensures i + n < |s| && !IsNumChar(s[i + n]) ==> NumRun(s, i) == n
    ensures i + n == |s| ==> NumRun(s, i) == n
    decreases n
  {
    if n > 0 {
      assert IsNumChar(s[i..i + n][0]);
      assert s[i + 1..i + n] == s[i..i + n][1..];
      NumRunOver(s, i + 1, n - 1);
    }
  }

  /** The three captured groups of one match. */
  datatype Captures = Captures(x: string, y: string, z: string)

  /** The text of a match with the given captures. */
  function MatchText(c: Captures): string {
    "MPos:" + c.x + "," + c.y + "," + c.z
  }

  /** The pattern matches at `p` with captures `c`: each group is a
      non-empty word of `[0-9.-]+`, and the text there spells them out. */
  predicate IsMatch(s: string, p: nat, c: Captures) {
    && c.x != [] && AllNumChars(c.x)
    && c.y != [] && AllNumChars(c.y)
    && c.z != [] && AllNumChars(c.z)
    && p <= |s| && StartsWith(s[p..], MatchText(c))
  }

  /** The length of a group `([0-9.-]+)` at `i` that a ',' follows, or
      None. The class excludes ',', so the greedy group can end only at
      the end of the run. */
  function Group(s: string, i: nat): Option<nat>
    requires i <= |s|
  {
    var a := NumRun(s, i);
    if a > 0 && i + a < |s| && s[i + a] == ',' then Some(a) else None
  }

  /** The last group `([0-9.-]+)` at `k`: the whole run, or None. */
  function LastGroup(s: string, k: nat): Option<string>
    requires k <= |s|
  {
    var n := NumRun(s, k);
    if n > 0 then Some(s[k..k + n]) else None
  }

  /** A group read at `i` is a class word that ',' follows. */
  lemma GroupFacts(s: string, i: nat)
    requires i <= |s| && Group(s, i).Some?
    ensures var a := Group(s, i).value;
      0 < a && i + a < |s| && s[i + a] == ',' && AllNumChars(s[i..i + a])
  {
    NumRunFacts(s, i);
  }

  /** A last group read at `k` is a non-empty class word found there. */
  lemma LastGroupFacts(s: string, k: nat)
    requires k <= |s| && LastGroup(s, k).Some?
    ensures var z := LastGroup(s, k).value;
      z != [] && k + |z| <= |s| && s[k..k + |z|] == z && AllNumChars(z)
  {
    NumRunFacts(s, k);
  }

  /** The match of the pattern that starts at `p`, with the captures the
      greedy groups take, or None. */
  function MatchAt(s: string, p: nat): Option<Captures>
    requires p <= |s|
  {
    if p + 5 <= |s| && s[p..p + 5] == "MPos:" then
      match Group(s, p + 5)
      case None => None
      case Some(a) =>
        match Group(s, p + 6 + a)
        case None => None
        case Some(b) =>
          match LastGroup(s, p + 7 + a + b)
          case None => None
          case Some(z) => Some(Captures(s[p + 5..p + 5 + a], s[p + 6 + a..p + 6 + a + b], z))
    else None
  }

  /** A class word `g` at `i` followed by ',' is the group read there. */
  lemma GroupOf(s: string, i: nat, g: string)
    requires g != [] && AllNumChars(g)
    requires i + |g| < |s| && s[i..i + |g|] == g && s[i + |g|] == ','
    ensures Group(s, i) == Some(|g|)
  {
    NumRunOver(s, i, |g|);
  }

  /** A class word `g` at `k` is a prefix of the last group read there. */
  lemma LastGroupOf(s: string, k: nat, g: string)
    requires g != [] && AllNumChars(g)
    requires k + |g| <= |s| && s[k..k + |g|] == g
    ensures LastGroup(s, k).Some? && g <= LastGroup(s, k).value
    ensures k + |g| < |s| && !IsNumChar(s[k + |g|]) ==> LastGroup(s, k) == Some(g)
    ensures k + |g| == |s| ==> LastGroup(s, k) == Some(g)
  {
    NumRunOver(s, k, |g|);
    var n := NumRun(s, k);
    assert s[k..k + n][..|g|] == s[k..k + |g|];
  }

  /** Every part of a match with captures `c` sits at its offset from `p`:
      "MPos:", x, ',', y, ',', z. */
  predicate Layout(s: string, p: nat, c: Captures) {
    && p + 7 + |c.x| + |c.y| + |c.z| <= |s|
    && s[p..p + 5] == "MPos:"
    && s[p + 5..p + 5 + |c.x|] == c.x && s[p + 5 + |c.x|] == ','
    && s[p + 6 + |c.x|..p + 6 + |c.x| + |c.y|] == c.y && s[p + 6 + |c.x| + |c.y|] == ','
    && s[p + 7 + |c.x| + |c.y|..p + 7 + |c.x| + |c.y| + |c.z|] == c.z
  }

  /** Where the text of a match with captures `c` begins at `p`, every
      part of `c` sits at its expected offset. */
  lemma MatchLayout(s: string, p: nat, c: Captures)
    requires p <= |s| && StartsWith(s[p..], MatchText(c))
    ensures p + |MatchText(c)| <= |s| && Layout(s, p, c)
  {
    var j := p + 5 + |c.x|;
    var k := j + 1 + |c.y|;
    var e := k + 1 + |c.z|;
    Seqs.PrefixAt(s, p, |MatchText(c)|);
    Seqs.SixPartsAt(s, p, "MPos:", c.x, ",", c.y, ",", c.z);
    assert s[j] == s[j..j + 1][0];
    assert s[k] == s[k..k + 1][0];
  }

  /** The converse of MatchLayout: the parts at their offsets spell out
      the text of the match. */
  lemma LayoutMatch(s: string, p: nat, c: Captures)
    requires Layout(s, p, c)
    ensures StartsWith(s[p..], MatchText(c))
  {
    var j := p + 5 + |c.x|;
    var k := j + 1 + |c.y|;
    var e := k + 1 + |c.z|;
    Seqs.Cat(s, p, p + 5, j, "MPos:", c.x);
    assert s[j..j + 1] == ",";
    Seqs.Cat(s, p, j, j + 1, "MPos:" + c.x, ",");
    Seqs.Cat(s, p, j + 1, k, "MPos:" + c.x + ",", c.y);
    assert s[k..k + 1] == ",";
    Seqs.Cat(s, p, k, k + 1, "MPos:" + c.x + "," + c.y, ",");
    Seqs.Cat(s, p, k + 1, e, "MPos:" + c.x + "," + c.y + ",", c.z);
    Seqs.PrefixAt(s, p, e - p);
  }

  /** MatchAt once its three groups are known. */
  lemma MatchAtParts(s: string, p: nat, a: nat, b: nat, z: string)
    requires p + 5 <= |s| && s[p..p + 5] == "MPos:"
    requires Group(s, p + 5) == Some(a) && Group(s, p + 6 + a) == Some(b)
    requires LastGroup(s, p + 7 + a + b) == Some(z)
    ensures MatchAt(s, p) == Some(Captures(s[p + 5..p + 5 + a], s[p + 6 + a..p + 6 + a + b], z))
  {
  }

  /** What MatchAt needs to report a match at `p`. */
  lemma MatchAtShape(s: string, p: nat)
    requires p <= |s| && MatchAt(s, p).Some?
    ensures p + 5 <= |s| && s[p..p + 5] == "MPos:" && Group(s, p + 5).Some?
    ensures var a := Group(s, p + 5).value;
      Group(s, p + 6 + a).Some? && LastGroup(s, p + 7 + a + Group(s, p + 6 + a).value).Some?
  {
  }

  /** What MatchAt reports is a match of the pattern. */
  lemma MatchAtSound(s: string, p: nat)
    requires p <= |s| && MatchAt(s, p).Some?
    ensures IsMatch(s, p, MatchAt(s, p).value)
  {
    MatchAtShape(s, p);
    var a := Group(s, p + 5).value;
    var b := Group(s, p + 6 + a).value;
    var z := LastGroup(s, p + 7 + a + b).value;
    GroupFacts(s, p + 5);
    GroupFacts(s, p + 6 + a);
    LastGroupFacts(s, p + 7 + a + b);
    MatchAtParts(s, p, a, b, z);
    var c := Captures(s[p + 5..p + 5 + a], s[p + 6 + a..p + 6 + a + b], z);
    assert Layout(s, p, c);
    LayoutMatch(s, p, c);
  }

  /** Every match at `p` has MatchAt's first two captures and a last
      capture that is a prefix of MatchAt's (the greedy group takes the
      longest); when MatchAt finds nothing there is no match at `p`. */
  lemma MatchAtGreedy(s: string, p: nat, c: Captures)
    requires IsMatch(s, p, c)
    ensures MatchAt(s, p).Some?
    ensures MatchAt(s, p).value.x == c.x && MatchAt(s, p).value.y == c.y
    ensures c.z <= MatchAt(s, p).value.z
  {
    MatchLayout(s, p, c);
    var a, b := |c.x|, |c.y|;
    LayoutGroups(s, p, c);
    MatchAtParts(s, p, a, b, LastGroup(s, p + 7 + a + b).value);
  }

  /** The groups of a layout are read at their offsets, the last one
      taking at least the layout's last part. */
  lemma LayoutGroups(s: string, p: nat, c: Captures)
    requires c.x != [] && AllNumChars(c.x) && c.y != [] && AllNumChars(c.y)
    requires c.z != [] && AllNumChars(c.z)
    requires Layout(s, p, c)
    ensures Group(s, p + 5) == Some(|c.x|) && Group(s, p + 6 + |c.x|) == Some(|c.y|)
    ensures var k := p + 7 + |c.x| + |c.y|; LastGroup(s, k).Some? && c.z <= LastGroup(s, k).value
  {
    GroupOf(s, p + 5, c.x);
    GroupOf(s, p + 6 + |c.x|, c.y);
    LastGroupOf(s, p + 7 + |c.x| + |c.y|, c.z);
  }

  /** QRegExp::indexIn: the leftmost position at or after `from` where the
      pattern matches. */
  function FindMatch(s: string, from: nat): (r: Option<nat>)
    requires from <= |s|
    ensures r.Some? ==> from <= r.value <= |s| && MatchAt(s, r.value).Some?
    ensures r.Some? ==> forall q :: from <= q < r.value ==> MatchAt(s, q).None?
    ensures r.None? ==> forall q :: from <= q <= |s| ==> MatchAt(s, q).None?
    decreases |s| - from
  {
    if MatchAt(s, from).Some? then Some(from)
    else if from == |s| then None
    else FindMatch(s, from + 1)
  }

  /** The position a chunk reports, or None when the position must stay:
      the chunk has no '<', or the pattern does not match. */
  function ParseStatus(chunk: string): Option<Point> {
    if Contains(chunk, "<") then
      match FindMatch(chunk, 0)
      case Some(p) =>
        var c := MatchAt(chunk, p).value;
        Some(Point(ToFloat(c.x), ToFloat(c.y), ToFloat(c.z)))
      case None => None
    else
      None
  }

  // ---------------------------------------------------------------------
  // Properties
  // ---------------------------------------------------------------------

  /** A chunk yields a position exactly when it contains '<' and the
      pattern matches somewhere in it. */
  lemma ParseStatusIff(chunk: string)
    ensures ParseStatus(chunk).Some? <==>
      Contains(chunk, "<") && exists p, c :: IsMatch(chunk, p, c)
  {
    if ParseStatus(chunk).Some? {
      var p := FindMatch(chunk, 0).value;
      MatchAtSound(chunk, p);
    }
    if Contains(chunk, "<") && exists p, c :: IsMatch(chunk, p, c) {
      var p, c :| IsMatch(chunk, p, c);
      MatchAtGreedy(chunk, p, c);
    }
  }

  /** A coordinate printed with three decimals is a word of the class. */
  lemma FormatMillisIsNumeric(millis: int)
    ensures FormatMillis(millis) != [] && AllNumChars(FormatMillis(millis))
  {
    var m := if millis < 0 then -millis else millis;
    var r := m % 1000;
    var q := NatToDigits(m / 1000);
    var f := [DigitChar(r / 100), DigitChar(r / 10 % 10), DigitChar(r % 10)];
    var u := MillisDigits(m);
    assert u == q + "." + f;
    assert AllNumChars(u) by {
      forall k | 0 <= k < |u| ensures IsNumChar(u[k]) {
        if k < |q| { assert u[k] == q[k]; }
        else if k > |q| { assert u[k] == f[k - |q| - 1]; }
      }
    }
    if millis < 0 {
      assert FormatMillis(millis) == "-" + u;
    }
  }

  /** A status report of the form
        <State|MPos:x,y,z...
      with three-decimal coordinates yields exactly the reported position.
      The state word must not contain 'M' and what follows the last
      coordinate must not continue it. */
  lemma StatusReportRoundTrip(chunk: string, state: string, x: int, y: int, z: int, tail: string)
    requires forall q :: 0 <= q < |state| ==> state[q] != 'M'
    requires tail == [] || !IsNumChar(tail[0])
    requires chunk == "<" + state + "|" + MatchText(Captures(FormatMillis(x), FormatMillis(y), FormatMillis(z))) + tail
    ensures ParseStatus(chunk) == Some(Point(x as real / 1000.0, y as real / 1000.0, z as real / 1000.0))
  {
    var c := Captures(FormatMillis(x), FormatMillis(y), FormatMillis(z));
    assert ParseStatus(chunk) == Some(Point(ToFloat(c.x), ToFloat(c.y), ToFloat(c.z))) by {
      FormatMillisIsNumeric(x);
      FormatMillisIsNumeric(y);
      FormatMillisIsNumeric(z);
      ReportParses(chunk, state, c, tail);
    }
    assert ToFloat(c.x) == x as real / 1000.0 by { FormatMillisRoundTrip(x); }
    assert ToFloat(c.y) == y as real / 1000.0 by { FormatMillisRoundTrip(y); }
    assert ToFloat(c.z) == z as real / 1000.0 by { FormatMillisRoundTrip(z); }
    assert Point(ToFloat(c.x), ToFloat(c.y), ToFloat(c.z)) == Point(x as real / 1000.0, y as real / 1000.0, z as real / 1000.0);
  }

  /** A report "<State|MPos:a,b,c..." yields the values of its three
      captures. */
  lemma ReportParses(chunk: string, state: string, c: Captures, tail: string)
    requires forall q :: 0 <= q < |state| ==> state[q] != 'M'
    requires c.x != [] && AllNumChars(c.x) && c.y != [] && AllNumChars(c.y)
    requires c.z != [] && AllNumChars(c.z)
    requires tail == [] || !IsNumChar(tail[0])
    requires chunk == "<" + state + "|" + MatchText(c) + tail
    ensures ParseStatus(chunk) == Some(Point(ToFloat(c.x), ToFloat(c.y), ToFloat(c.z)))
  {
    var p := |state| + 2;
    SplitAt(chunk, "<" + state + "|", MatchText(c) + tail);
    MatchFollowedBy(chunk, p, c, tail);
    NoMatchBefore(chunk, state, p);
    ParseAt(chunk, p);
  }

  lemma SplitAt(s: string, front: string, back: string)
    requires s == front + back
    ensures s[..|front|] == front && s[|front|..] == back
  {
  }

  /** The text of a match followed by something that does not continue its
      last group is matched with exactly those captures. */
  lemma MatchFollowedBy(s: string, p: nat, c: Captures, tail: string)
    requires c.x != [] && AllNumChars(c.x) && c.y != [] && AllNumChars(c.y)
    requires c.z != [] && AllNumChars(c.z)
    requires tail == [] || !IsNumChar(tail[0])
    requires p <= |s| && s[p..] == MatchText(c) + tail
    ensures MatchAt(s, p) == Some(c)
  {
    var e := |MatchText(c)|;
    assert s[p..][..e] == MatchText(c);
    if p + e < |s| {
      assert s[p + e] == s[p..][e] == tail[0];
    }
    MatchLayout(s, p, c);
    MatchEndingAt(s, p, c);
  }

  /** A match whose last group cannot go on is the one MatchAt reports. */
  lemma MatchEndingAt(s: string, p: nat, c: Captures)
    requires c.x != [] && AllNumChars(c.x) && c.y != [] && AllNumChars(c.y)
    requires c.z != [] && AllNumChars(c.z)
    requires Layout(s, p, c)
    requires var e := p + 7 + |c.x| + |c.y| + |c.z|; e < |s| ==> !IsNumChar(s[e])
    ensures MatchAt(s, p) == Some(c)
  {
    var a, b := |c.x|, |c.y|;
    EndingGroups(s, p, c);
    MatchAtParts(s, p, a, b, c.z);
    assert Captures(s[p + 5..p + 5 + a], s[p + 6 + a..p + 6 + a + b], c.z) == c;
  }

  /** The three groups of a layout that ends before a non-class character
      are read at their offsets. */
  lemma EndingGroups(s: string, p: nat, c: Captures)
    requires c.x != [] && AllNumChars(c.x) && c.y != [] && AllNumChars(c.y)
    requires c.z != [] && AllNumChars(c.z)
    requires Layout(s, p, c)
    requires var e := p + 7 + |c.x| + |c.y| + |c.z|; e < |s| ==> !IsNumChar(s[e])
    ensures Group(s, p + 5) == Some(|c.x|) && Group(s, p + 6 + |c.x|) == Some(|c.y|)
    ensures LastGroup(s, p + 7 + |c.x| + |c.y|) == Some(c.z)
  {
    GroupOf(s, p + 5, c.x);
    GroupOf(s, p + 6 + |c.x|, c.y);
    LastGroupOf(s, p + 7 + |c.x| + |c.y|, c.z);
  }

  /** A chunk that opens with '<' and first matches at `p` yields the
      values of the captures there. */
  lemma ParseAt(chunk: string, p: nat)
    requires p <= |chunk| && |chunk| > 0 && chunk[0] == '<'
    requires MatchAt(chunk, p).Some?
    requires forall q :: 0 <= q < p ==> MatchAt(chunk, q).None?
    ensures ParseStatus(chunk) == Some(Point(ToFloat(MatchAt(chunk, p).value.x),
      ToFloat(MatchAt(chunk, p).value.y), ToFloat(MatchAt(chunk, p).value.z)))
  {
    assert chunk[0..][..1] == "<";
    assert FindMatch(chunk, 0) == Some(p);
  }

  /** No match starts inside "<State|" when the state has no 'M'. */
  lemma NoMatchBefore(chunk: string, state: string, p: nat)
    requires forall q :: 0 <= q < |state| ==> state[q] != 'M'
    requires p == |state| + 2 && p <= |chunk|
    requires chunk[..p] == "<" + state + "|"
    ensures forall q :: 0 <= q < p ==> MatchAt(chunk, q).None?
  {
    forall q | 0 <= q < p
      ensures MatchAt(chunk, q).None?
    {
      assert chunk[q] == chunk[..p][q];
      if q == 0 {
        assert chunk[q] == '<';
      } else if q < p - 1 {
        assert chunk[q] == state[q - 1];
      } else {
        assert chunk[q] == '|';
      }
      assert q + 5 <= |chunk| ==> chunk[q..q + 5][0] == chunk[q];
    }
  }

  /** A chunk in which no character is '<' never moves the position, even
      when it carries an MPos field. */
  lemma NoBracketNoPosition(chunk: string)
    requires forall i :: 0 <= i < |chunk| ==> chunk[i] != '<'
    ensures ParseStatus(chunk) == None
  {
    assert !Contains(chunk, "<") by {
      forall i | 0 <= i <= |chunk| - 1 ensures !StartsWith(chunk[i..], "<") {
        assert chunk[i..][0] == chunk[i];
      }
    }
  }
}
