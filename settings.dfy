/**
 * The GRBL settings dialog without its widgets: scanning a `$$` dump for
 * `$<id>=<value>` pairs, the description table, the numeric-id order of
 * the rows, and the rule that sends `key=value` only for edited values.
 */
module Settings {
  import opened Wrappers
  import opened Text
  import opened Status
  import Seqs

  // ---------------------------------------------------------------------
  // The pattern  \$(\d+)=([\d\.\-]+)
  // ---------------------------------------------------------------------

  /** The two captures of one match: the digits of the id and the value. */
  datatype Hit = Hit(id: string, value: string)

  /** The text of a match with the given captures. */
  function HitText(h: Hit): string {
    "$" + h.id + "=" + h.value
  }

  /** The pattern matches at `p` with captures `h`. */
  predicate IsHit(s: string, p: nat, h: Hit) {
    && h.id != [] && AllDigits(h.id)
    && h.value != [] && AllNumChars(h.value)
    && p <= |s| && StartsWith(s[p..], HitText(h))
  }

  /** The length of the id group `(\d+)` at `i` that '=' follows, or
      None. */
  function IdGroup(s: string, i: nat): Option<nat>
    requires i <= |s|
  {
    var d := DigitRun(s, i);
    if d > 0 && i + d < |s| && s[i + d] == '=' then Some(d) else None
  }

  /** The match that starts at `p`, with the captures of the greedy
      groups, or None. As '=' is not a digit, the id group must be the
      whole digit run. */
  function HitAt(s: string, p: nat): (r: Option<Hit>)
    requires p <= |s|
    ensures r.Some? ==> p + |HitText(r.value)| <= |s|
  {
    if p < |s| && s[p] == '$' then
      match IdGroup(s, p + 1)
      case None => None
      case Some(d) =>
        match LastGroup(s, p + 2 + d)
        case None => None
        case Some(v) => Some(Hit(s[p + 1..p + 1 + d], v))
    else None
  }

  /** Where the text of a match begins at `p`, its parts sit at their
      offsets. */
  lemma HitLayout(s: string, p: nat, h: Hit)
    requires p <= |s| && StartsWith(s[p..], HitText(h))
    ensures p + 2 + |h.id| + |h.value| <= |s|
    ensures s[p] == '$' && s[p + 1..p + 1 + |h.id|] == h.id && s[p + 1 + |h.id|] == '='
    ensures s[p + 2 + |h.id|..p + 2 + |h.id| + |h.value|] == h.value
  {
    var t := HitText(h);
    var e := 2 + |h.id| + |h.value|;
    assert s[p..p + e] == t;
    assert t[1..1 + |h.id|] == h.id && t[1 + |h.id|] == '=' && t[2 + |h.id|..] == h.value;
    assert s[p + 1..p + 1 + |h.id|] == t[1..1 + |h.id|];
    assert s[p + 2 + |h.id|..p + e] == t[2 + |h.id|..];
  }

  /** A digit word `g` at `i` followed by '=' is the id group read there. */
  lemma IdGroupOf(s: string, i: nat, g: string)
    requires g != [] && AllDigits(g)
    requires i + |g| < |s| && s[i..i + |g|] == g && s[i + |g|] == '='
    ensures IdGroup(s, i) == Some(|g|)
  {
    DigitRunOver(s, i, |g|);
  }

  /** What HitAt reports is a match of the pattern. */
  lemma HitAtSound(s: string, p: nat)
    requires p <= |s| && HitAt(s, p).Some?
    ensures IsHit(s, p, HitAt(s, p).value)
  {
    var h := HitAt(s, p).value;
    HitAtSpells(s, p);
    Seqs.PrefixAt(s, p, |HitText(h)|);
  }

  /** The text at a reported match spells out its captures, and the value
      capture is a class word. */
  lemma HitAtSpells(s: string, p: nat)
    requires p <= |s| && HitAt(s, p).Some?
    ensures var h := HitAt(s, p).value;
      && h.value != [] && AllNumChars(h.value)
      && p + |HitText(h)| <= |s| && s[p..p + |HitText(h)|] == HitText(h)
  {
    var h := HitAt(s, p).value;
    var d := IdGroup(s, p + 1).value;
    var j := p + 2 + d;
    var e := j + |h.value|;
    assert h.value != [] && AllNumChars(h.value) && e <= |s| && s[j..e] == h.value by {
      NumRunFacts(s, j);
    }
    assert |h.id| == d;
    assert s[p..p + 1] == "$";
    Seqs.Cat(s, p, p + 1, p + 1 + d, "$", h.id);
    assert s[p + 1 + d..j] == "=";
    Seqs.Cat(s, p, p + 1 + d, j, "$" + h.id, "=");
    Seqs.Cat(s, p, j, e, "$" + h.id + "=", h.value);
  }

  /** Every match at `p` has HitAt's id, and a value that is a prefix of
      HitAt's (the greedy group takes the longest). */
  lemma HitAtGreedy(s: string, p: nat, h: Hit)
    requires IsHit(s, p, h)
    ensures HitAt(s, p).Some? && HitAt(s, p).value.id == h.id
    ensures h.value <= HitAt(s, p).value.value
  {
    HitLayout(s, p, h);
    IdGroupOf(s, p + 1, h.id);
    LastGroupOf(s, p + 2 + |h.id|, h.value);
  }

  /** QRegExp::indexIn(buffer, pos): the leftmost match at or after `from`. */
  function FindHit(s: string, from: nat): (r: Option<nat>)
    requires from <= |s|
    ensures r.Some? ==> from <= r.value <= |s| && HitAt(s, r.value).Some?
    ensures r.Some? ==> forall q :: from <= q < r.value ==> HitAt(s, q).None?
    ensures r.None? ==> forall q :: from <= q <= |s| ==> HitAt(s, q).None?
    decreases |s| - from
  {
    if HitAt(s, from).Some? then Some(from)
    else if from == |s| then None
    else FindHit(s, from + 1)
  }

  // ---------------------------------------------------------------------
  // Scanning a dump into a map
  // ---------------------------------------------------------------------

  /** One setting as read from the dump: key "$<id>" and its value. */
  datatype Pair = Pair(key: string, value: string)

  /** The first pair at or after `from` and where the search resumes:
      right after the match. */
  function NextPair(s: string, from: nat): (r: Option<(Pair, nat)>)
    requires from <= |s|
    ensures r.None? <==> FindHit(s, from).None?
    ensures r.Some? ==>
      var p := FindHit(s, from).value;
      var h := HitAt(s, p).value;
      && r.value.0 == Pair("$" + h.id, h.value)
      && r.value.1 == p + |HitText(h)|
      && from < r.value.1 <= |s|
  {
    match FindHit(s, from)
    case None => None
    case Some(p) =>
      var h := HitAt(s, p).value;
      Some((Pair("$" + h.id, h.value), p + |HitText(h)|))
  }

  /** The successive non-overlapping matches from `from`. */
  function Scan(s: string, from: nat): seq<Pair>
    requires from <= |s|
    decreases |s| - from
  {
    match NextPair(s, from)
    case None => []
    case Some((pair, after)) => [pair] + Scan(s, after)
  }

  /** The map the scan builds: pairs inserted in order, a later pair for a
      key replacing an earlier one. */
  function Collect(ps: seq<Pair>): map<string, string> {
    if ps == [] then map[]
    else Collect(ps[..|ps| - 1])[ps[|ps| - 1].key := ps[|ps| - 1].value]
  }

  /** The parse loop of the fetch reader: walks the matches of the dump and
      records every pair. */
  method ParseSettings(buffer: string) returns (found: map<string, string>)
    ensures found == Collect(Scan(buffer, 0))
  {
    found := map[];
    var pos: nat := 0;
    ghost var done: seq<Pair> := [];
    ghost var all := Scan(buffer, 0);
    while true
      invariant pos <= |buffer|
      invariant done + Scan(buffer, pos) == all
      invariant found == Collect(done)
      decreases |buffer| - pos
    {
      var next := NextPair(buffer, pos);
      if next.None? {
        ScanStops(buffer, pos);
        assert done + [] == done;
        assert done == all;
        break;
      }
      var (pair, after) := next.value;
      ScanStep(done, buffer, pos, pair, after);
      CollectSnoc(done, pair);
      found := found[pair.key := pair.value];
      done := done + [pair];
      pos := after;
    }
  }

  lemma ScanStops(s: string, from: nat)
    requires from <= |s| && NextPair(s, from).None?
    ensures Scan(s, from) == []
  {
  }

  /** Taking one pair off the front of the scan and appending it to the
      pairs done leaves their concatenation unchanged. */
  lemma ScanStep(done: seq<Pair>, s: string, from: nat, pair: Pair, after: nat)
    requires from <= |s| && NextPair(s, from) == Some((pair, after))
    ensures after <= |s|
    ensures (done + [pair]) + Scan(s, after) == done + Scan(s, from)
  {
    assert Scan(s, from) == [pair] + Scan(s, after);
  }

  lemma CollectSnoc(ps: seq<Pair>, x: Pair)
    ensures Collect(ps + [x]) == Collect(ps)[x.key := x.value]
  {
    assert (ps + [x])[..|ps|] == ps;
  }

  /** A key is in the map exactly when some pair carries it. */
  lemma {:induction false} CollectKeys(ps: seq<Pair>, k: string)
    ensures k in Collect(ps) <==> exists i :: 0 <= i < |ps| && ps[i].key == k
  {
    if ps != [] {
      var front := ps[..|ps| - 1];
      CollectKeys(front, k);
      if exists i :: 0 <= i < |front| && front[i].key == k {
        var i :| 0 <= i < |front| && front[i].key == k;
        assert ps[i].key == k;
      }
      if exists i :: 0 <= i < |ps| && ps[i].key == k {
        var i :| 0 <= i < |ps| && ps[i].key == k;
        if i < |front| {
          assert front[i].key == k;
        }
      }
    }
  }

  /** The value kept for a key is the one of its last pair. */
  lemma {:induction false} CollectLastWins(ps: seq<Pair>, i: nat)
    requires i < |ps|
    requires forall j :: i < j < |ps| ==> ps[j].key != ps[i].key
    ensures ps[i].key in Collect(ps) && Collect(ps)[ps[i].key] == ps[i].value
  {
    if i < |ps| - 1 {
      var front := ps[..|ps| - 1];
      assert front[i] == ps[i];
      CollectLastWins(front, i);
    }
  }

  /** Every scanned pair is a well-formed setting: "$" and a digit id, and
      a value of digits, points and minus signs. */
  predicate WellFormed(p: Pair) {
    && |p.key| > 1 && p.key[0] == '$' && AllDigits(p.key[1..])
    && p.value != [] && AllNumChars(p.value)
  }

  /** The pair a scan step records is well formed. */
  lemma FirstPairWellFormed(s: string, from: nat)
    requires from <= |s| && NextPair(s, from).Some?
    ensures WellFormed(NextPair(s, from).value.0)
  {
    var p := FindHit(s, from).value;
    HitAtSound(s, p);
    var h := HitAt(s, p).value;
    assert ("$" + h.id)[1..] == h.id;
  }

  lemma {:induction false} ScanWellFormed(s: string, from: nat)
    requires from <= |s|
    ensures forall i :: 0 <= i < |Scan(s, from)| ==> WellFormed(Scan(s, from)[i])
    decreases |s| - from
  {
    if NextPair(s, from).Some? {
      var (first, after) := NextPair(s, from).value;
      assert WellFormed(first) by {
        FirstPairWellFormed(s, from);
      }
      ScanWellFormed(s, after);
      var all := Scan(s, from);
      var rest := Scan(s, after);
      assert all == [first] + rest;
      forall i | 0 <= i < |all|
        ensures WellFormed(all[i])
      {
        if i > 0 {
          assert all[i] == rest[i - 1];
        }
      }
    }
  }

  // ---------------------------------------------------------------------
  // Descriptions
  // ---------------------------------------------------------------------

  /** The descriptions the dialog shows for the settings of GRBL 1.1. */
  const Descriptions: map<string, string> := map[
    "$0" := "Step pulse time (\U{03BC}s)", "$1" := "Step idle delay (ms)",
    "$2" := "Step port invert mask", "$3" := "Direction port invert mask",
    "$4" := "Step enable invert", "$5" := "Limit pins invert",
    "$6" := "Probe pin invert", "$10" := "Status report mask",
    "$11" := "Junction deviation", "$12" := "Arc tolerance",
    "$13" := "Report inches", "$20" := "Soft limits",
    "$21" := "Hard limits", "$22" := "Homing cycle",
    "$23" := "Homing direction invert", "$24" := "Homing feed (mm/min)",
    "$25" := "Homing seek (mm/min)", "$26" := "Homing debounce (ms)",
    "$27" := "Homing pull-off (mm)", "$30" := "Max spindle speed",
    "$31" := "Min spindle speed", "$32" := "Laser mode",
    "$100" := "X steps/mm", "$101" := "Y steps/mm", "$102" := "Z steps/mm",
    "$110" := "X max rate (mm/min)", "$111" := "Y max rate (mm/min)",
    "$112" := "Z max rate (mm/min)", "$120" := "X accel (mm/s^2)",
    "$121" := "Y accel (mm/s^2)", "$122" := "Z accel (mm/s^2)",
    "$130" := "X max travel (mm)", "$131" := "Y max travel (mm)",
    "$132" := "Z max travel (mm)"
  ]

  /** `descriptions.value(key, "")`: the description, or the empty string
      for a key the table does not know. Every listed description is
      non-empty, so an empty description means an unknown key. */
  function Describe(key: string): (d: string)
    ensures d == "" <==> key !in Descriptions
    ensures key in Descriptions ==> d == Descriptions[key]
  {
    if key in Descriptions then Descriptions[key] else ""
  }

  // ---------------------------------------------------------------------
  // Numeric order of the keys
  // ---------------------------------------------------------------------

  /** `key.mid(1).toInt()`: the id of a key, 0 when it does not read as a
      32-bit number. */
  function KeyId(key: string): int {
    ToInt(if |key| > 0 then key[1..] else "")
  }

  /** The key of setting `n` as GRBL prints it has id `n`. */
  lemma KeyIdOfIndex(n: nat)
    requires n <= Int32Max
    ensures KeyId("$" + NatToDigits(n)) == n
  {
    assert ("$" + NatToDigits(n))[1..] == NatToDigits(n);
    DigitsRoundTrip(n);
  }

  /** `numericKeyLessThan` holds of every pair of positions in order. */
  predicate SortedById(keys: seq<string>) {
    forall i, j :: 0 <= i < j < |keys| ==> KeyId(keys[i]) <= KeyId(keys[j])
  }

  /** `keys` with `k` inserted after every key whose id is not larger. */
  function InsertById(keys: seq<string>, k: string): (r: seq<string>)
    requires SortedById(keys)
    ensures SortedById(r)
    ensures multiset(r) == multiset(keys) + multiset{k}
  {
    if keys == [] then [k]
    else if KeyId(k) < KeyId(keys[0]) then [k] + keys
    else
      var rest := InsertById(keys[1..], k);
      InsertBehindHead(keys, k, rest);
      [keys[0]] + rest
  }

  lemma InsertBehindHead(keys: seq<string>, k: string, rest: seq<string>)
    requires keys != [] && SortedById(keys) && KeyId(keys[0]) <= KeyId(k)
    requires SortedById(rest) && multiset(rest) == multiset(keys[1..]) + multiset{k}
    ensures SortedById([keys[0]] + rest)
    ensures multiset([keys[0]] + rest) == multiset(keys) + multiset{k}
  {
    assert keys == [keys[0]] + keys[1..];
    HeadBelowRest(keys, k, rest);
    ConsSorted(keys[0], rest);
  }

  /** Every key of the insertion into the tail sorts after the head. */
  lemma HeadBelowRest(keys: seq<string>, k: string, rest: seq<string>)
    requires keys != [] && SortedById(keys) && KeyId(keys[0]) <= KeyId(k)
    requires multiset(rest) == multiset(keys[1..]) + multiset{k}
    ensures forall i :: 0 <= i < |rest| ==> KeyId(keys[0]) <= KeyId(rest[i])
  {
    forall i | 0 <= i < |rest|
      ensures KeyId(keys[0]) <= KeyId(rest[i])
    {
      assert rest[i] in multiset(rest);
      if rest[i] != k {
        assert rest[i] in multiset(keys[1..]);
        var j :| 0 <= j < |keys[1..]| && keys[1..][j] == rest[i];
        assert keys[j + 1] == rest[i];
      }
    }
  }

  /** A key no greater than any of a sorted sequence sorts in front of it. */
  lemma ConsSorted(h: string, rest: seq<string>)
    requires SortedById(rest)
    requires forall i :: 0 <= i < |rest| ==> KeyId(h) <= KeyId(rest[i])
    ensures SortedById([h] + rest)
  {
    var r := [h] + rest;
    forall i, j | 0 <= i < j < |r|
      ensures KeyId(r[i]) <= KeyId(r[j])
    {
      if i > 0 {
        assert r[i] == rest[i - 1] && r[j] == rest[j - 1];
      } else {
        assert r[j] == rest[j - 1];
      }
    }
  }

  /** `found.keys()` followed by `std::sort` with `numericKeyLessThan`:
      each key of the map once, in ascending id order. Keys with the same
      id (such as "$1" and "$01") may come in either order. */
  method SortKeys(found: map<string, string>) returns (keys: seq<string>)
    ensures multiset(keys) == multiset(found.Keys)
    ensures SortedById(keys)
  {
    keys := [];
    var rest := found.Keys;
    while rest != {}
      invariant rest <= found.Keys
      invariant multiset(keys) + multiset(rest) == multiset(found.Keys)
      invariant SortedById(keys)
      decreases |rest|
    {
      var k :| k in rest;
      keys := InsertById(keys, k);
      rest := rest - {k};
    }
  }

  /** The sort leaves no key out, adds none and repeats none. */
  lemma SortedKeysAreTheKeys(found: map<string, string>, keys: seq<string>)
    requires multiset(keys) == multiset(found.Keys)
    ensures forall k :: k in keys <==> k in found
    ensures forall i, j :: 0 <= i < j < |keys| ==> keys[i] != keys[j]
  {
    forall k
      ensures k in keys <==> k in found
    {
      assert k in keys <==> k in multiset(keys);
    }
    DistinctWhenCountsAtMostOne(keys);
  }

  lemma {:induction false} DistinctWhenCountsAtMostOne(keys: seq<string>)
    requires forall x :: multiset(keys)[x] <= 1
    ensures forall i, j :: 0 <= i < j < |keys| ==> keys[i] != keys[j]
  {
    if keys != [] {
      var rest := keys[1..];
      assert keys == [keys[0]] + rest;
      assert multiset(keys) == multiset{keys[0]} + multiset(rest);
      forall x
        ensures multiset(rest)[x] <= 1
      {
        assert multiset(keys)[x] == multiset{keys[0]}[x] + multiset(rest)[x];
      }
      DistinctWhenCountsAtMostOne(rest);
      assert multiset(keys)[keys[0]] == 1 + multiset(rest)[keys[0]];
      forall i, j | 0 <= i < j < |keys|
        ensures keys[i] != keys[j]
      {
        assert keys[j] == rest[j - 1];
        if i > 0 {
          assert keys[i] == rest[i - 1];
        } else {
          assert keys[j] in multiset(rest);
        }
      }
    }
  }

  // ---------------------------------------------------------------------
  // The table and the apply rule
  // ---------------------------------------------------------------------

  /** One row of the settings table: key, (editable) value, description. */
  datatype SettingRow = SettingRow(key: string, value: string, desc: string)

  /** The rows filled in after a fetch: one per sorted key. */
  function RowsFor(keys: seq<string>, found: map<string, string>): seq<SettingRow>
    requires forall i :: 0 <= i < |keys| ==> keys[i] in found
  {
    seq(|keys|, i requires 0 <= i < |keys| => SettingRow(keys[i], found[keys[i]], Describe(keys[i])))
  }

  /** The key column of a table. */
  function KeyColumn(rows: seq<SettingRow>): (ks: seq<string>)
    ensures |ks| == |rows| && forall i :: 0 <= i < |rows| ==> ks[i] == rows[i].key
  {
    seq(|rows|, i requires 0 <= i < |rows| => rows[i].key)
  }

  /** `rows` is what a fetch fills in for `found`: every key once, in id
      order, each with its fetched value and its description. */
  predicate IsTableFor(rows: seq<SettingRow>, found: map<string, string>) {
    && multiset(KeyColumn(rows)) == multiset(found.Keys)
    && SortedById(KeyColumn(rows))
    && forall i :: 0 <= i < |rows| ==>
         rows[i].key in found && rows[i].value == found[rows[i].key] && rows[i].desc == Describe(rows[i].key)
  }

  /** The rows built from the sorted keys form the table for the map. */
  lemma RowsForIsTable(keys: seq<string>, found: map<string, string>)
    requires multiset(keys) == multiset(found.Keys) && SortedById(keys)
    requires forall i :: 0 <= i < |keys| ==> keys[i] in found
    ensures IsTableFor(RowsFor(keys, found), found)
  {
    assert KeyColumn(RowsFor(keys, found)) == keys;
  }

  /** The table part of the fetch reader: scan the dump, sort its keys and
      append one row per key to `rows0`. The earlier rows stay in front and
      the appended part is the table for the scanned map. */
  method AppendFetched(rows0: seq<SettingRow>, dump: string) returns (rows: seq<SettingRow>, found: map<string, string>)
    ensures found == Collect(Scan(dump, 0))
    ensures |rows0| <= |rows| && rows[..|rows0|] == rows0 && IsTableFor(rows[|rows0|..], found)
  {
    found := ParseSettings(dump);
    var keys := SortKeys(found);
    SortedKeysAreTheKeys(found, keys);
    RowsForIsTable(keys, found);
    Seqs.AppendParts(rows0, RowsFor(keys, found));
    rows := rows0 + RowsFor(keys, found);
  }

  /** A row after the user typed `text` into column 0 (key), 1 (value)
      or 2 (description). */
  function SetCell(row: SettingRow, column: nat, text: string): SettingRow
    requires column < 3
  {
    if column == 0 then row.(key := text)
    else if column == 1 then row.(value := text)
    else row.(desc := text)
  }

  /** The row has an original value and the table now shows another. */
  predicate Changed(row: SettingRow, original: map<string, string>) {
    row.key in original && original[row.key] != row.value
  }

  /** The command built for a changed row, with its own newline. */
  function Command(row: SettingRow): string {
    row.key + "=" + row.value + "\n"
  }

  /** The commands the apply loop builds, in row order. */
  function ApplyCommands(rows: seq<SettingRow>, original: map<string, string>): seq<string> {
    if rows == [] then []
    else
      ApplyCommands(rows[..|rows| - 1], original)
        + (if Changed(rows[|rows| - 1], original) then [Command(rows[|rows| - 1])] else [])
  }

  /** One more row adds its command when it was changed. */
  lemma ApplyCommandsSnoc(rows: seq<SettingRow>, r: SettingRow, original: map<string, string>)
    ensures ApplyCommands(rows + [r], original)
      == ApplyCommands(rows, original) + (if Changed(r, original) then [Command(r)] else [])
  {
    assert (rows + [r])[..|rows|] == rows;
  }

  /** A command is built exactly for the rows whose value differs from a
      known original value. */
  lemma {:induction false} ApplyCommandsIff(rows: seq<SettingRow>, original: map<string, string>, c: string)
    ensures c in ApplyCommands(rows, original) <==>
      exists i :: 0 <= i < |rows| && Changed(rows[i], original) && c == Command(rows[i])
  {
    if rows != [] {
      var front := rows[..|rows| - 1];
      ApplyCommandsIff(front, original, c);
      if exists i :: 0 <= i < |front| && Changed(front[i], original) && c == Command(front[i]) {
        var i :| 0 <= i < |front| && Changed(front[i], original) && c == Command(front[i]);
        assert rows[i] == front[i];
      }
      if exists i :: 0 <= i < |rows| && Changed(rows[i], original) && c == Command(rows[i]) {
        var i :| 0 <= i < |rows| && Changed(rows[i], original) && c == Command(rows[i]);
        if i < |front| {
          assert front[i] == rows[i];
        }
      }
    }
  }

  /** Rows of an adjacent pair of table regions are handled in order. */
  lemma {:induction false} ApplyCommandsAppend(a: seq<SettingRow>, b: seq<SettingRow>, original: map<string, string>)
    ensures ApplyCommands(a + b, original) == ApplyCommands(a, original) + ApplyCommands(b, original)
    decreases |b|
  {
    if b == [] {
      assert a + b == a;
    } else {
      var bf := b[..|b| - 1];
      Seqs.Snoc(a, b);
      ApplyCommandsAppend(a, bf, original);
    }
  }

  /** With the table exactly as fetched there is nothing to send. */
  lemma {:induction false} FreshTableSendsNothing(keys: seq<string>, found: map<string, string>)
    requires forall i :: 0 <= i < |keys| ==> keys[i] in found
    ensures ApplyCommands(RowsFor(keys, found), found) == []
    decreases |keys|
  {
    if keys != [] {
      var front := keys[..|keys| - 1];
      assert RowsFor(keys, found)[..|keys| - 1] == RowsFor(front, found);
      FreshTableSendsNothing(front, found);
    }
  }

  /** Editing the value of one freshly fetched row to something else makes
      the apply rule build exactly that row's command. */
  lemma OneEditOneCommand(keys: seq<string>, found: map<string, string>, i: nat, v: string)
    requires forall j :: 0 <= j < |keys| ==> keys[j] in found
    requires i < |keys| && v != found[keys[i]]
    ensures var rows := RowsFor(keys, found);
      ApplyCommands(rows[i := rows[i].(value := v)], found) == [keys[i] + "=" + v + "\n"]
  {
    var rows := RowsFor(keys, found);
    var edited := rows[i := rows[i].(value := v)];
    var front := RowsFor(keys[..i], found);
    var back := RowsFor(keys[i + 1..], found);
    var r := edited[i];
    assert edited == front + [r] + back by {
      EditSplits(keys, found, i, v);
    }
    assert ApplyCommands(front, found) == [] && ApplyCommands(back, found) == [] by {
      FreshTableSendsNothing(keys[..i], found);
      FreshTableSendsNothing(keys[i + 1..], found);
    }
    assert ApplyCommands([r], found) == [Command(r)] by {
      assert [r][..0] == [];
    }
    ApplyCommandsAppend(front + [r], back, found);
    ApplyCommandsAppend(front, [r], found);
  }

  /** The rows before and after an edited row are those of the keys before
      and after it. */
  lemma EditSplits(keys: seq<string>, found: map<string, string>, i: nat, v: string)
    requires forall j :: 0 <= j < |keys| ==> keys[j] in found
    requires i < |keys|
    ensures var rows := RowsFor(keys, found);
      rows[i := rows[i].(value := v)]
        == RowsFor(keys[..i], found) + [rows[i].(value := v)] + RowsFor(keys[i + 1..], found)
  {
  }

  /** As written, the apply closure compares against its own copy of the
      original values, taken when the dialog was built, which is empty:
      whatever the table holds, no command is built. */
  lemma {:induction false} ApplyAsWrittenSendsNothing(rows: seq<SettingRow>)
    ensures ApplyCommands(rows, map[]) == []
  {
    if rows != [] {
      ApplyAsWrittenSendsNothing(rows[..|rows| - 1]);
    }
  }

  /** The discrepancy on one input: "$0" fetched as "10" and edited to "5"
      is sent with the fetched values and not with the empty copy. */
  lemma EditedStepPulseExample(rows: seq<SettingRow>, original: map<string, string>)
    requires |rows| == 1 && rows[0].key == "$0" && rows[0].value == "5"
    requires original == map["$0" := "10"]
    ensures ApplyCommands(rows, original) == ["$0=5\n"]
    ensures ApplyCommands(rows, map[]) == []
  {
    assert rows[..0] == [];
    assert Changed(rows[0], original);
    assert Command(rows[0]) == "$0=5\n";
  }
}
