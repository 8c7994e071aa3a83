/**
 * G-code playback as transitions on a value: the loaded program, the
 * cursor (`currentLine`), the last line sent (`lastSentLine`), the pause
 * flag, whether the port is open and everything written to it so far.
 * GRBLSender's methods are proved against these functions; the lemmas
 * here are about sequences of them.
 */
module Playback {
  import opened Text
  import opened Seqs

  datatype Session = Session(
    lines: seq<string>,
    current: int,
    lastSent: int,
    paused: bool,
    open: bool,
    out: seq<string>)

  /** The cursor is within the program and the last line sent is the one
      just before it (-1 before anything was sent). */
  predicate Valid(s: Session) {
    0 <= s.current <= |s.lines| && s.lastSent == s.current - 1
  }

  // ---------------------------------------------------------------------
  // The port
  // ---------------------------------------------------------------------

  /** What the port receives for a list of commands: each followed by "\n". */
  function Framed(cmds: seq<string>): (r: seq<string>)
    ensures |r| == |cmds|
  {
    if cmds == [] then [] else Framed(cmds[..|cmds| - 1]) + [cmds[|cmds| - 1] + "\n"]
  }

  lemma {:induction false} FramedAt(cmds: seq<string>, i: nat)
    requires i < |cmds|
    ensures Framed(cmds)[i] == cmds[i] + "\n"
  {
    if i < |cmds| - 1 {
      FramedAt(cmds[..|cmds| - 1], i);
    }
  }

  lemma FramedSnoc(cmds: seq<string>, c: string)
    ensures Framed(cmds + [c]) == Framed(cmds) + [c + "\n"]
  {
    assert (cmds + [c])[..|cmds|] == cmds;
  }

  lemma {:induction false} FramedAppend(a: seq<string>, b: seq<string>)
    ensures Framed(a + b) == Framed(a) + Framed(b)
    decreases |b|
  {
    if b == [] {
      assert a + b == a;
    } else {
      var bf := b[..|b| - 1];
      assert (a + b)[..|a + b| - 1] == a + bf;
      FramedAppend(a, bf);
    }
  }

  /** GRBLSender::sendCommand: `cmd + "\n"` is written when the port is
      open; on a closed port nothing happens. */
  function Send(s: Session, cmd: string): Session {
    if s.open then s.(out := s.out + [cmd + "\n"]) else s
  }

  // ---------------------------------------------------------------------
  // Transitions
  // ---------------------------------------------------------------------

  /** GRBLSender::sendNextLine. The cursor advances even when the port is
      closed and nothing was written. */
  function SendNextLine(s: Session): (r: Session)
    requires 0 <= s.current
    ensures Valid(s) ==> Valid(r)
    ensures r.lines == s.lines && r.open == s.open && r.paused == s.paused && s.current <= r.current
    ensures s.paused || s.current >= |s.lines| ==> r == s
  {
    if s.paused || s.current >= |s.lines| then s
    else Send(s.(lastSent := s.current, current := s.current + 1), s.lines[s.current])
  }

  /** The file lines kept by loadGCode: each trimmed, blank ones dropped. */
  function NonBlank(raw: seq<string>): seq<string> {
    if raw == [] then [] else NonBlank(raw[..|raw| - 1]) + Kept(raw[|raw| - 1])
  }

  /** What one file line contributes: its trimmed form, unless empty. */
  function Kept(line: string): seq<string> {
    if Trim(line) == [] then [] else [Trim(line)]
  }

  /** GRBLSender::loadGCode once the file is open. The pause flag is left
      as it was. */
  function Load(s: Session, raw: seq<string>): (r: Session)
    ensures Valid(r) && r.paused == s.paused && r.out == s.out
  {
    s.(lines := NonBlank(raw), current := 0, lastSent := -1)
  }

  /** GRBLSender::playGCode. */
  function Play(s: Session): (r: Session)
    ensures Valid(s) ==> Valid(r)
    ensures r.lines == s.lines && r.open == s.open
  {
    if s.lines == [] then s else SendNextLine(s.(paused := false, current := 0))
  }

  /** The Pause button. */
  function Pause(s: Session): (r: Session)
    ensures Valid(s) ==> Valid(r)
    ensures r.paused && r.out == s.out && r.current == s.current
  {
    s.(paused := true)
  }

  /** The Resume button: unpause, then send the next line. */
  function Resume(s: Session): (r: Session)
    requires 0 <= s.current
    ensures Valid(s) ==> Valid(r)
    ensures !r.paused && r.lines == s.lines && s.current <= r.current
  {
    SendNextLine(s.(paused := false))
  }

  /** GRBLSender::recoverPosition2: resend the last line sent. */
  function RecoverLast(s: Session): (r: Session)
    ensures Valid(s) ==> Valid(r)
    ensures r.lines == s.lines && r.open == s.open
  {
    if 0 <= s.lastSent < |s.lines| then SendNextLine(s.(current := s.lastSent, paused := false))
    else s
  }

  /** The tail of GRBLSender::recoverPosition, given the line the scan
      found (-1 for none): restart from that line. */
  function RecoverTo(s: Session, line: int): (r: Session)
    requires line < |s.lines|
    ensures Valid(s) ==> Valid(r)
    ensures line >= 0 ==> !r.paused && r.lastSent == line && r.current == line + 1
    ensures line < 0 ==> r == s
  {
    if line >= 0 then SendNextLine(s.(current := line, paused := false)) else s
  }

  /** The end of GRBLSender::readSerial: any data from the device asks for
      the next line while a program is loaded and playback is not paused. */
  function OnData(s: Session): (r: Session)
    requires 0 <= s.current
    ensures Valid(s) ==> Valid(r)
    ensures r.lines == s.lines && r.paused == s.paused && s.current <= r.current
    ensures s.paused ==> r == s
  {
    if !s.paused && |s.lines| > 0 then SendNextLine(s) else s
  }

  // ---------------------------------------------------------------------
  // One-step properties
  // ---------------------------------------------------------------------

  /** Valid states stay valid under every transition, and a load always
      yields one. */
  lemma ValidPreserved(s: Session, raw: seq<string>, line: int)
    requires Valid(s) && -1 <= line < |s.lines|
    ensures Valid(SendNextLine(s)) && Valid(Play(s)) && Valid(Pause(s)) && Valid(Resume(s))
    ensures Valid(RecoverLast(s)) && Valid(RecoverTo(s, line)) && Valid(OnData(s))
    ensures Valid(Load(s, raw))
  {
  }

  /** One step sends exactly the lines between the old and the new cursor,
      and moves the cursor forward only. */
  lemma StepSendsTheSkippedLines(s: Session, t: Session)
    requires Valid(s) && (t == SendNextLine(s) || t == OnData(s) || t == Pause(s) || t == Resume(s))
    ensures Valid(t) && t.lines == s.lines && t.open == s.open && s.current <= t.current
    ensures t.out == s.out + (if s.open then Framed(s.lines[s.current..t.current]) else [])
  {
    if t.current == s.current {
      assert s.lines[s.current..t.current] == [];
    } else {
      assert s.lines[s.current..t.current] == [s.lines[s.current]];
      assert Framed([s.lines[s.current]]) == [s.lines[s.current] + "\n"] by {
        assert [s.lines[s.current]][..0] == [];
      }
    }
  }

  /** Play on an empty program changes nothing; otherwise it unpauses and
      sends line 0 first. */
  lemma PlaySendsLineZeroFirst(s: Session)
    ensures s.lines == [] ==> Play(s) == s
    ensures s.lines != [] ==>
      var t := Play(s);
      && !t.paused && t.current == 1 && t.lastSent == 0 && t.lines == s.lines
      && t.out == s.out + (if s.open then [s.lines[0] + "\n"] else [])
  {
  }

  /** Last-sent recovery resends line `lastSent` and leaves the cursor just
      after it, unpaused; without a valid last line nothing changes. */
  lemma RecoverLastResends(s: Session)
    ensures 0 <= s.lastSent < |s.lines| ==>
      var t := RecoverLast(s);
      && t.lastSent == s.lastSent && t.current == s.lastSent + 1 && !t.paused
      && t.out == s.out + (if s.open then [s.lines[s.lastSent] + "\n"] else [])
    ensures !(0 <= s.lastSent < |s.lines|) ==> RecoverLast(s) == s
  {
  }

  /** On a valid state with the program already under way, recovery to the
      last line changes nothing but the output and moves the cursor not at
      all: it repeats line `current - 1`. */
  lemma RecoverLastRepeatsPreviousLine(s: Session)
    requires Valid(s) && s.current > 0
    ensures RecoverLast(s).current == s.current
    ensures RecoverLast(s).out == s.out + (if s.open then [s.lines[s.current - 1] + "\n"] else [])
  {
  }

  // ---------------------------------------------------------------------
  // Many steps
  // ---------------------------------------------------------------------

  /** `k` calls of sendNextLine. */
  function SendNextN(s: Session, k: nat): Session
    requires 0 <= s.current
    ensures 0 <= SendNextN(s, k).current
    decreases k
  {
    if k == 0 then s else SendNextN(SendNextLine(s), k - 1)
  }

  function Min(a: int, b: int): int {
    if a <= b then a else b
  }

  /** Unpaused, `k` calls from cursor `c` transmit lines c, c+1, ... up to
      c+k-1 (or the end of the program), in that order, each once. */
  lemma {:induction false} DrainSendsInOrder(s: Session, k: nat)
    requires Valid(s) && !s.paused
    ensures var t := SendNextN(s, k);
      && Valid(t) && t.lines == s.lines && t.paused == s.paused && t.open == s.open
      && t.current == Min(s.current + k, |s.lines|)
      && t.out == s.out + (if s.open then Framed(s.lines[s.current..t.current]) else [])
    decreases k
  {
    if k > 0 {
      var m := SendNextLine(s);
      StepSendsTheSkippedLines(s, m);
      DrainSendsInOrder(m, k - 1);
      SendsCompose(s, m, SendNextN(m, k - 1));
    }
  }

  /** `k` notifications of device data on an unpaused session are `k`
      calls of sendNextLine, so DrainSendsInOrder describes them. */
  lemma {:induction false} DataRunIsDrain(s: Session, k: nat)
    requires Valid(s) && !s.paused
    ensures Run(s, seq(k, _ => DataArrived)) == SendNextN(s, k)
    decreases k
  {
    if k > 0 {
      var events := seq(k, _ => DataArrived);
      var m := SendNextLine(s);
      assert Apply(s, events[0]) == m;
      assert events[1..] == seq(k - 1, _ => DataArrived);
      DataRunIsDrain(m, k - 1);
    }
  }

  /** Two stretches of sending, each transmitting the lines its cursor
      passed, together transmit the lines of both stretches. */
  lemma SendsCompose(s: Session, m: Session, t: Session)
    requires 0 <= s.current <= m.current <= t.current <= |s.lines|
    requires m.lines == s.lines && t.lines == s.lines && m.open == s.open
    requires m.out == s.out + (if s.open then Framed(s.lines[s.current..m.current]) else [])
    requires t.out == m.out + (if m.open then Framed(m.lines[m.current..t.current]) else [])
    ensures t.out == s.out + (if s.open then Framed(s.lines[s.current..t.current]) else [])
  {
    if s.open {
      SliceSplit(s.lines, s.current, m.current, t.current);
      FramedAppend(s.lines[s.current..m.current], s.lines[m.current..t.current]);
      AppendAssoc(s.out, Framed(s.lines[s.current..m.current]), Framed(s.lines[m.current..t.current]));
    }
  }

  /** What happens between two playback commands: pause and resume clicks
      and data from the device, in any order. */
  datatype Event = PauseClicked | ResumeClicked | DataArrived

  function Apply(s: Session, e: Event): Session
    requires 0 <= s.current
  {
    match e
    case PauseClicked => Pause(s)
    case ResumeClicked => Resume(s)
    case DataArrived => OnData(s)
  }

  function Run(s: Session, events: seq<Event>): Session
    requires Valid(s)
    ensures Valid(Run(s, events))
    decreases |events|
  {
    if events == [] then s
    else
      var m := Apply(s, events[0]);
      StepSendsTheSkippedLines(s, m);
      Run(m, events[1..])
  }

  /** However pauses, resumes and device data interleave, the port receives
      exactly the program lines from the starting cursor to the final one,
      in order: none is skipped and none is sent twice. */
  lemma {:induction false} RunNeverSkipsOrRepeats(s: Session, events: seq<Event>)
    requires Valid(s)
    ensures var t := Run(s, events);
      && t.lines == s.lines && t.open == s.open && s.current <= t.current
      && t.out == s.out + (if s.open then Framed(s.lines[s.current..t.current]) else [])
    decreases |events|
  {
    if events != [] {
      var m := Apply(s, events[0]);
      StepSendsTheSkippedLines(s, m);
      RunNeverSkipsOrRepeats(m, events[1..]);
      assert Run(s, events) == Run(m, events[1..]);
      SendsCompose(s, m, Run(m, events[1..]));
    }
  }

  /** While paused, device data sends nothing and moves nothing. */
  lemma {:induction false} PausedDataIsIgnored(s: Session, n: nat)
    requires Valid(s) && s.paused
    ensures Run(s, seq(n, _ => DataArrived)) == s
  {
    if n > 0 {
      assert seq(n, _ => DataArrived)[1..] == seq(n - 1, _ => DataArrived);
      PausedDataIsIgnored(s, n - 1);
    }
  }

  // ---------------------------------------------------------------------
  // Loading
  // ---------------------------------------------------------------------

  /** Reading one more file line appends its trimmed form unless blank. */
  lemma NonBlankSnoc(raw: seq<string>, x: string)
    ensures NonBlank(raw + [x]) == NonBlank(raw) + Kept(x)
  {
    assert (raw + [x])[..|raw|] == raw;
  }

  lemma ReadOneMore(raw: seq<string>, i: nat)
    requires i < |raw|
    ensures NonBlank(raw[..i + 1]) == NonBlank(raw[..i]) + Kept(raw[i])
  {
    assert raw[..i + 1] == raw[..i] + [raw[i]];
    NonBlankSnoc(raw[..i], raw[i]);
  }

  /** The read loop of loadGCode: trim each file line and keep it unless
      it is empty. */
  method ReadProgram(raw: seq<string>) returns (lines: seq<string>)
    ensures lines == NonBlank(raw)
  {
    lines := [];
    var i := 0;
    while i < |raw|
      invariant 0 <= i <= |raw|
      invariant lines == NonBlank(raw[..i])
    {
      var line := Trim(raw[i]);
      ReadOneMore(raw, i);
      if line != [] {
        lines := lines + [line];
      }
      i := i + 1;
    }
    assert raw[..|raw|] == raw;
  }

  /** Every kept line is non-empty and already trimmed. */
  lemma {:induction false} NonBlankLinesAreTrimmed(raw: seq<string>)
    ensures forall i :: 0 <= i < |NonBlank(raw)| ==>
      NonBlank(raw)[i] != [] && Trim(NonBlank(raw)[i]) == NonBlank(raw)[i]
  {
    if raw != [] {
      var front := raw[..|raw| - 1];
      var t := Trim(raw[|raw| - 1]);
      NonBlankLinesAreTrimmed(front);
      TrimIdempotent(raw[|raw| - 1]);
      var r := NonBlank(raw);
      assert r == NonBlank(front) + Kept(raw[|raw| - 1]);
      forall i | 0 <= i < |r|
        ensures r[i] != [] && Trim(r[i]) == r[i]
      {
        if i < |NonBlank(front)| {
          assert r[i] == NonBlank(front)[i];
        } else {
          assert r[i] == t;
        }
      }
    }
  }

  /** Loading keeps the order of the file: the lines of two consecutive
      parts are the lines of the first part followed by those of the second. */
  lemma {:induction false} NonBlankAppend(a: seq<string>, b: seq<string>)
    ensures NonBlank(a + b) == NonBlank(a) + NonBlank(b)
    decreases |b|
  {
    if b == [] {
      assert a + b == a;
    } else {
      var bf, x := b[..|b| - 1], b[|b| - 1];
      assert a + b == (a + bf) + [x];
      NonBlankSnoc(a + bf, x);
      NonBlankAppend(a, bf);
      assert NonBlank(a + b) == (NonBlank(a) + NonBlank(bf)) + Kept(x);
    }
  }

  /** Every file line trimmed, blank ones included. */
  function Trimmed(raw: seq<string>): (r: seq<string>)
    ensures |r| == |raw|
  {
    if raw == [] then [] else Trimmed(raw[..|raw| - 1]) + [Trim(raw[|raw| - 1])]
  }

  /** Position `i` of the trimmed lines holds the trimmed file line `i`. */
  lemma {:induction false} TrimmedAt(raw: seq<string>, i: nat)
    requires i < |raw|
    ensures Trimmed(raw)[i] == Trim(raw[i])
  {
    if i < |raw| - 1 {
      TrimmedAt(raw[..|raw| - 1], i);
    }
  }

  /** A line is kept exactly when it is the trimmed form of some file line
      and not empty. */
  lemma {:induction false} NonBlankMembers(raw: seq<string>, x: string)
    ensures x in NonBlank(raw) <==> x != [] && x in Trimmed(raw)
  {
    if raw != [] {
      NonBlankMembers(raw[..|raw| - 1], x);
    }
  }

  /** Loading a program that was loaded before gives the same lines. */
  lemma {:induction false} NonBlankIdempotent(raw: seq<string>)
    ensures NonBlank(NonBlank(raw)) == NonBlank(raw)
  {
    if raw != [] {
      var front := raw[..|raw| - 1];
      var t := Trim(raw[|raw| - 1]);
      var keep := Kept(raw[|raw| - 1]);
      NonBlankIdempotent(front);
      NonBlankAppend(NonBlank(front), keep);
      if t != [] {
        TrimIdempotent(raw[|raw| - 1]);
        assert [t][..0] == [];
        assert NonBlank([t]) == [t];
      }
    }
  }

  /** The worked recovery example carried through: restarting the
      three-move program at line 1, the line the scan must pick
      (Recovery.ThreeMoveOnlyAnswer), sends "G0 X10 Y10" next and continues
      from line 2. */
  lemma ThreeMoveRecoverySendsLineOne(s: Session)
    requires Valid(s) && s.open && s.lines == ["G0 X10 Y0", "G0 X10 Y10", "G0 X20 Y10"]
    ensures var t := RecoverTo(s, 1);
      t.out == s.out + ["G0 X10 Y10\n"] && t.current == 2 && !t.paused
  {
    var u := s.(current := 1, paused := false);
    assert RecoverTo(s, 1) == SendNextLine(u);
    assert u.lines[u.current] == "G0 X10 Y10";
    assert SendNextLine(u).out == s.out + ["G0 X10 Y10" + "\n"];
    assert "G0 X10 Y10" + "\n" == "G0 X10 Y10\n";
  }
}
