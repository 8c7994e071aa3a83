/**
 * The GRBLSender window object without its widgets: the serial port seen
 * as an open flag and the list of everything written to it, the loaded
 * program and its cursor, the tracked machine position, the settings
 * table with the fetched values, and the pending settings-fetch readers.
 * Each slot is a method whose contract ties the new state to the pure
 * functions of Playback, Status, Settings, Jog and Recovery.
 */
module Sender {
  import opened Wrappers
  import opened Text
  import opened Geometry
  import Status
  import Settings
  import Jog
  import Recovery
  import Playback

  /** What the recovery buttons write to the log. */
  datatype Report = Cancelled | Recovering(line: int, text: string) | NoMatchingLine | NoRecoveryPoint

  class GRBLSender {
    /** `serial->isOpen()`. */
    var isOpen: bool
    /** Every command written to the port, newline included, in order. */
    var sent: seq<string>
    var gcodeLines: seq<string>
    var currentLine: int
    var lastSentLine: int
    var paused: bool
    var posX: real
    var posY: real
    var posZ: real
    /** Fetch-reader connections still waiting for a dump that contains "ok". */
    var fetchesPending: nat
    /** The text gathered by the oldest pending reader. */
    var fetchBuffer: string
    var settingsRows: seq<Settings.SettingRow>
    /** The fetched values the apply rule compares the table against. */
    var originalValues: map<string, string>

    /** The playback part of the state. */
    function State(): Playback.Session
      reads this
    {
      Playback.Session(gcodeLines, currentLine, lastSentLine, paused, isOpen, sent)
    }

    function Position(): Point
      reads this
    {
      Point(posX, posY, posZ)
    }

    /** The cursor invariant, and an empty buffer when no reader is waiting
        (a new reader starts with an empty buffer). */
    predicate Valid()
      reads this
    {
      Playback.Valid(State()) && (fetchesPending == 0 ==> fetchBuffer == "")
    }

    constructor ()
      ensures Valid()
      ensures !isOpen && sent == [] && gcodeLines == [] && currentLine == 0 && lastSentLine == -1 && !paused
      ensures Position() == Origin
      ensures fetchesPending == 0 && settingsRows == [] && originalValues == map[]
    {
      isOpen := false;
      sent := [];
      gcodeLines := [];
      currentLine := 0;
      lastSentLine := -1;
      paused := false;
      posX, posY, posZ := 0.0, 0.0, 0.0;
      fetchesPending := 0;
      fetchBuffer := "";
      settingsRows := [];
      originalValues := map[];
    }

    // -------------------------------------------------------------------
    // The port
    // -------------------------------------------------------------------

    /** connectSerial: the old port is closed and a new one is opened;
        `succeeded` is whether that worked. */
    method Connect(succeeded: bool)
      modifies this`isOpen
      ensures isOpen == succeeded
    {
      isOpen := succeeded;
    }

    /** sendCommand. */
    method SendCommand(cmd: string)
      modifies this`sent
      ensures State() == Playback.Send(old(State()), cmd)
    {
      if isOpen {
        sent := sent + [cmd + "\n"];
      }
    }

    /** requestStatus, run by the 500 ms status timer. It goes through
        sendCommand, so the query travels as "?\n". */
    method RequestStatus()
      modifies this`sent
      ensures sent == old(sent) + (if isOpen then ["?\n"] else [])
    {
      SendCommand("?");
      assert "?" + "\n" == "?\n";
    }

    /** The Send button: the trimmed manual input, unless it is empty. */
    method SendManual(text: string)
      modifies this`sent
      ensures sent == old(sent) + (if isOpen && Trim(text) != [] then [Trim(text) + "\n"] else [])
    {
      var cmd := Trim(text);
      if cmd != [] {
        SendCommand(cmd);
      }
    }

    /** keyPressEvent: nothing happens on a closed port; otherwise the jog
        moves the tracked position and its command is sent. */
    method KeyPress(key: Jog.Key)
      modifies this`posX, this`posY, this`posZ, this`sent
      ensures var r := Jog.Jog(old(Position()), key);
        if old(isOpen) then
          Position() == r.pos && sent == old(sent) + (if r.cmd != "" then [r.cmd + "\n"] else [])
        else
          Position() == old(Position()) && sent == old(sent)
    {
      if !isOpen {
        return;
      }
      var r := Jog.Jog(Position(), key);
      posX, posY, posZ := r.pos.x, r.pos.y, r.pos.z;
      if r.cmd != "" {
        SendCommand(r.cmd);
      }
    }

    // -------------------------------------------------------------------
    // Data from the device
    // -------------------------------------------------------------------

    /** readSerial on the text it read: a status report moves the tracked
        position, and any data asks for the next program line. */
    method ReadSerial(str: string)
      requires 0 <= currentLine
      modifies this`posX, this`posY, this`posZ, this`sent, this`currentLine, this`lastSentLine
      ensures Position() == Status.ParseStatus(str).GetOr(old(Position()))
      ensures State() == Playback.OnData(old(State()))
      ensures old(Valid()) ==> Valid()
    {
      var p := Status.ParseStatus(str);
      if p.Some? {
        posX, posY, posZ := p.value.x, p.value.y, p.value.z;
      }
      if !paused && |gcodeLines| > 0 {
        SendNextLine();
      }
      if old(Valid()) {
        Playback.ValidPreserved(old(State()), [], -1);
      }
    }

    /** What the oldest pending fetch reader does with a chunk. */
    twostate predicate ReaderTook(chunk: string)
      reads this
    {
      var b := old(fetchBuffer) + chunk;
      if Contains(b, "ok") then
        var found := Settings.Collect(Settings.Scan(b, 0));
        && fetchesPending == old(fetchesPending) - 1 && fetchBuffer == ""
        && originalValues == old(originalValues) + found
        && |old(settingsRows)| <= |settingsRows| && settingsRows[..|old(settingsRows)|] == old(settingsRows)
        && Settings.IsTableFor(settingsRows[|old(settingsRows)|..], found)
      else
        && fetchesPending == old(fetchesPending) && fetchBuffer == b
        && settingsRows == old(settingsRows) && originalValues == old(originalValues)
    }

    /** The fetch reader: gather the dump until it contains "ok", then scan
        it, append one row per key in id order and record the values. */
    method FetchReaderReceives(chunk: string)
      requires fetchesPending > 0
      modifies this`fetchBuffer, this`fetchesPending, this`settingsRows, this`originalValues
      ensures ReaderTook(chunk)
      ensures old(Valid()) ==> Valid()
    {
      fetchBuffer := fetchBuffer + chunk;
      if Contains(fetchBuffer, "ok") {
        var rows, found := Settings.AppendFetched(settingsRows, fetchBuffer);
        settingsRows := rows;
        originalValues := originalValues + found;
        fetchesPending := fetchesPending - 1;
        fetchBuffer := "";
      }
    }

    /** readyRead: the pending fetch readers are connected before readSerial,
        so the oldest of them reads the chunk and readSerial then reads
        nothing; with no reader pending, readSerial reads the chunk. */
    method OnSerialData(chunk: string)
      requires Valid()
      modifies this
      ensures Valid()
      ensures State() == Playback.OnData(old(State()))
      ensures old(fetchesPending) == 0 ==>
        && Position() == Status.ParseStatus(chunk).GetOr(old(Position()))
        && fetchesPending == 0 && settingsRows == old(settingsRows) && originalValues == old(originalValues)
      ensures old(fetchesPending) > 0 ==> Position() == old(Position()) && ReaderTook(chunk)
    {
      if fetchesPending > 0 {
        FetchReaderReceives(chunk);
        ReadSerial("");
      } else {
        ReadSerial(chunk);
      }
    }

    // -------------------------------------------------------------------
    // The settings dialog
    // -------------------------------------------------------------------

    /** Fetch Settings: clear the table, send "$$\n" (which sendCommand
        writes as "$$\n\n") and connect one more reader. */
    method FetchSettings()
      requires Valid()
      modifies this`settingsRows, this`sent, this`fetchesPending
      ensures Valid()
      ensures settingsRows == [] && fetchesPending == old(fetchesPending) + 1
      ensures State() == Playback.Send(old(State()), "$$\n")
    {
      settingsRows := [];
      SendCommand("$$\n");
      fetchesPending := fetchesPending + 1;
    }

    /** The user types `text` into a cell of the table (0 key, 1 value,
        2 description). */
    method EditCell(row: nat, column: nat, text: string)
      requires row < |settingsRows| && column < 3
      modifies this`settingsRows
      ensures |settingsRows| == |old(settingsRows)|
      ensures forall i :: 0 <= i < |settingsRows| && i != row ==> settingsRows[i] == old(settingsRows)[i]
      ensures settingsRows[row] == Settings.SetCell(old(settingsRows)[row], column, text)
    {
      settingsRows := settingsRows[row := Settings.SetCell(settingsRows[row], column, text)];
    }

    /** Apply Changes: send `key=value\n` for every row, in table order,
        whose value differs from its fetched value. */
    method ApplySettings()
      modifies this`sent
      ensures sent == old(sent)
        + (if isOpen then Playback.Framed(Settings.ApplyCommands(settingsRows, originalValues)) else [])
    {
      for i := 0 to |settingsRows|
        invariant sent == old(sent)
          + (if isOpen then Playback.Framed(Settings.ApplyCommands(settingsRows[..i], originalValues)) else [])
      {
        var row := settingsRows[i];
        assert settingsRows[..i + 1] == settingsRows[..i] + [row];
        Settings.ApplyCommandsSnoc(settingsRows[..i], row, originalValues);
        if row.key in originalValues && originalValues[row.key] != row.value {
          Playback.FramedSnoc(Settings.ApplyCommands(settingsRows[..i], originalValues), Settings.Command(row));
          SendCommand(Settings.Command(row));
        } else {
          assert Settings.ApplyCommands(settingsRows[..i + 1], originalValues)
            == Settings.ApplyCommands(settingsRows[..i], originalValues);
        }
      }
      assert settingsRows[..|settingsRows|] == settingsRows;
    }

    // -------------------------------------------------------------------
    // Playback
    // -------------------------------------------------------------------

    /** loadGCode: `file` is the lines of the chosen file, or None when the
        dialog was cancelled or the file could not be opened. */
    method LoadGCode(file: Option<seq<string>>)
      requires Valid()
      modifies this`gcodeLines, this`currentLine, this`lastSentLine
      ensures Valid()
      ensures State() == if file.Some? then Playback.Load(old(State()), file.value) else old(State())
    {
      if file.None? {
        return;
      }
      var lines := Playback.ReadProgram(file.value);
      gcodeLines := lines;
      currentLine := 0;
      lastSentLine := -1;
    }

    /** sendNextLine. */
    method SendNextLine()
      requires 0 <= currentLine
      modifies this`sent, this`currentLine, this`lastSentLine
      ensures State() == Playback.SendNextLine(old(State()))
      ensures old(Valid()) ==> Valid()
    {
      if paused || currentLine >= |gcodeLines| {
        return;
      }
      lastSentLine := currentLine;
      SendCommand(gcodeLines[currentLine]);
      currentLine := currentLine + 1;
    }

    /** playGCode. */
    method PlayGCode()
      requires Valid()
      modifies this`paused, this`sent, this`currentLine, this`lastSentLine
      ensures Valid()
      ensures State() == Playback.Play(old(State()))
    {
      if |gcodeLines| == 0 {
        return;
      }
      paused := false;
      currentLine := 0;
      SendNextLine();
      Playback.ValidPreserved(old(State()), [], -1);
    }

    /** The Pause button. */
    method Pause()
      modifies this`paused
      ensures State() == Playback.Pause(old(State()))
    {
      paused := true;
    }

    /** The Resume button. */
    method Resume()
      requires Valid()
      modifies this`paused, this`sent, this`currentLine, this`lastSentLine
      ensures Valid()
      ensures State() == Playback.Resume(old(State()))
    {
      paused := false;
      SendNextLine();
      Playback.ValidPreserved(old(State()), [], -1);
    }

    /** recoverPosition2: resend the last line sent. */
    method RecoverPosition2() returns (report: Report)
      requires Valid()
      modifies this`paused, this`sent, this`currentLine, this`lastSentLine
      ensures Valid()
      ensures State() == Playback.RecoverLast(old(State()))
      ensures report == if 0 <= old(lastSentLine) < |gcodeLines|
        then Recovering(old(lastSentLine), gcodeLines[old(lastSentLine)]) else NoRecoveryPoint
    {
      if 0 <= lastSentLine < |gcodeLines| {
        currentLine := lastSentLine;
        report := Recovering(currentLine, gcodeLines[currentLine]);
        paused := false;
        SendNextLine();
      } else {
        report := NoRecoveryPoint;
      }
      Playback.ValidPreserved(old(State()), [], -1);
    }

    /** recoverPosition: `target` is the position entered in the three
        dialogs, None when any of them was cancelled. Playback restarts
        from the nearest motion line. */
    method RecoverPosition(target: Option<Point>) returns (report: Report)
      requires Valid()
      modifies this`paused, this`sent, this`currentLine, this`lastSentLine
      ensures Valid()
      ensures target.None? ==> report == Cancelled && State() == old(State())
      ensures target.Some? ==> report.Recovering? || report == NoMatchingLine
      ensures report.Recovering? ==>
        && target.Some? && 0 <= report.line < |gcodeLines| && report.text == gcodeLines[report.line]
        && Recovery.IsClosest(gcodeLines, target.value, report.line)
        && State() == Playback.RecoverTo(old(State()), report.line)
      ensures report == NoMatchingLine ==>
        && target.Some? && Recovery.IsClosest(gcodeLines, target.value, -1) && State() == old(State())
    {
      if target.None? {
        return Cancelled;
      }
      var t := target.value;
      var closest := Recovery.FindClosestGCodeLine(gcodeLines, t.x, t.y, t.z);
      if closest >= 0 {
        currentLine := closest;
        report := Recovering(currentLine, gcodeLines[currentLine]);
        paused := false;
        SendNextLine();
      } else {
        report := NoMatchingLine;
      }
      Playback.ValidPreserved(old(State()), [], closest);
    }
  }
}
