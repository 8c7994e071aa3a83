# GRBL Sender core in Dafny

A model of the non-UI core of the `GRBLSender` window of a small Qt
program that drives a GRBL CNC controller over a serial port. The model
covers seven pieces:

- **Playback.** A loaded G-code program is streamed one line per event. A
  line is sent on Play, on Resume, and on every chunk of data that arrives
  from the device.
- **Recovery.** Playback restarts either from the last line sent, or from
  the program line whose simulated tool position is nearest to a position
  the user enters.
- **Position tracking.** The position is taken from `MPos:x,y,z` in status
  reports.
- **Settings.** The settings dialog fetches the `$$` dump, scans it for
  `$<id>=<value>` pairs, and sorts them by numeric id with their
  descriptions. Apply is modelled as intended: it sends `key=value` only
  for the values the user edited. As written it sends nothing (see
  Findings).
- **Jogging.** W/S/A/D/Q/E keys jog the tool inside fixed soft limits.
- **Manual commands.** A manual command line sends its trimmed text.
- **Status polling.** A periodic status query is sent.

Modules, in dependency order:

- `Wrappers`: `Option`.
- `Seqs`: slicing facts stated once for every element type.
- `Text`: the QString operations the program relies on, namely `trimmed`,
  `startsWith`, `contains`, and `toInt`/`toFloat` on decimal text.
- `Geometry`: points and squared distance.
- `Recovery`: `findClosestGCodeLine`. This is the axis-word pattern
  `X(-?\d*\.?\d+)` matched leftmost-greedy, the modal replay, and the argmin
  loop with its 1e9 sentinel.
- `Status`: the `MPos:([0-9.-]+),([0-9.-]+),([0-9.-]+)` extraction.
- `Settings`: the `\$(\d+)=([\d\.\-]+)` scan loop, the description table,
  the id sort and the apply rule.
- `Jog`: the key handler's limits.
- `Playback`: every playback transition as a function on a `Session` value
  (program, cursor, last line sent, pause flag, port state, output), with
  lemmas about whole runs of events.
- `Sender`: the `GRBLSender` class. Its fields are the ones the source
  updates. Each slot is a method whose postcondition ties the new fields to
  the functions above.

The serial port is an `isOpen` flag and a `sent` list of everything
written, newline included. `sendCommand` appends `cmd + "\n"` when the port
is open and does nothing otherwise. Coordinates are exact `real`s.

Every path keeps one invariant, `lastSentLine == currentLine - 1` with
`0 <= currentLine <= |gcodeLines|` (`GRBLSender.Valid`). It follows that
`-1 <= lastSentLine < |gcodeLines|`.

Behaviour of the code reproduced as written:

- The motion test is a prefix test, so `G00`, `G01` and `G10` count.
- Only the first `X`, `Y` and `Z` word on a line is used.
- The cursor advances even when the port is closed.
- Loading does not reset the pause flag.
- `recoverPosition2` exists but no button calls it.
- Settings fetches use the `$$\n` command, and every apply command ends
  in `\n`. `sendCommand` adds a second newline to both.
- While a fetch is pending, the fetch reader, which is connected before
  `readSerial`, consumes each chunk. `readSerial` then reads nothing: the
  position is not updated, but the next line is still requested.
- `requestStatus` calls `sendCommand("?")`, so the port receives `?\n`.

## Model

| member | source | states |
|---|---|---|
| Text.TrimRemovesOnlySpace | main.cpp:138 | the trimmed text is an infix of the input and everything outside it is whitespace |
| Text.Trim | main.cpp:347 | the trimmed text is no longer than the input and has no whitespace at either end |
| Text.TrimStartFacts | main.cpp:347 | trimming the front leaves a suffix of the input; everything removed is whitespace and the result does not start with whitespace |
| Text.TrimEndFacts | main.cpp:347 | trimming the back leaves a prefix of the input; everything removed is whitespace and the result does not end with whitespace |
| Text.TrimIdempotent | main.cpp:347 | trimming twice gives the same as trimming once |
| Text.TrimOfTrimmed | main.cpp:347 | a string with no whitespace at either end is its own trimmed form |
| Text.TrimEmptyIffBlank | main.cpp:139 | the trimmed text is empty exactly when every character is whitespace, so a blank manual command is never sent |
| Text.Contains | main.cpp:200 | `contains` holds exactly when the pattern occurs at some position of the text |
| Text.DigitRun | main.cpp:279 | the run of digits at a position is maximal: all digits, followed by a non-digit or the end |
| Text.NatToDigits | main.cpp:258 | decimal printing yields a non-empty digit string |
| Text.DigitsRoundTrip | main.cpp:258 | reading back the decimal digits of `n` gives `n` |
| Text.IsSpace | main.cpp:347 | definition: the characters `QChar::isSpace` accepts (TAB to CR, space, NEL, NBSP and the Unicode separators); Text.TrimRemovesOnlySpace and Text.TrimEmptyIffBlank state what trimming removes by it |
| Text.StartsWith | main.cpp:411 | definition: `p` is a prefix of `s`; Recovery.MotionTestIsAPrefixTest states which lines the motion test then admits, and Text.Contains is defined by it |
| Text.ToInt | main.cpp:258 | `toInt` of a key id lies between 0 and the 32-bit maximum; its value is stated by Text.ToIntRejects and Text.ToIntOfDigits |
| Text.ToIntRejects | main.cpp:258 | empty text, or text with a character other than a digit, reads as the failure value 0 |
| Text.ToIntOfDigits | main.cpp:258 | the decimal text of `n` reads back as `n` when `n` fits in 32 bits, and as the failure value 0 when it overflows |
| Text.ToFloat | main.cpp:203-205 | definition: the exact decimal value of the text, 0.0 when it is not a decimal numeral; its properties are stated by Text.DigitsToFloat, Text.FormatMillisRoundTrip and Recovery.AxisNumeralParses |
| Text.DigitsToFloat | main.cpp:203-205 | `toFloat` of a plain digit string is the number its digits denote |
| Text.FormatMillis | main.cpp:203-205 | a coordinate printed with three decimals is non-empty |
| Text.FormatMillisRoundTrip | main.cpp:203-205 | `toFloat` of a controller-printed coordinate gives back exactly thousandths/1000 |
| Geometry.SqDistZeroIff | main.cpp:420-423 | the squared distance is non-negative and zero exactly at the target |
| Recovery.UnsignedNumeralAt | main.cpp:412-414 | the numeral length matched after an optional `-` is the longest prefix of the form `\d*\.?\d+` |
| Recovery.LongestUnsignedNumeral | main.cpp:412-414 | digits, then `.` and digits when present, is the longest `\d*\.?\d+` prefix |
| Recovery.NumeralAt | main.cpp:412-414 | the capture after an axis letter is the longest match of `-?\d*\.?\d+` there, or none when no prefix matches |
| Recovery.DashedNumerals | main.cpp:412-414 | after a `-`, the signed pattern matches exactly when the unsigned one matches right after it |
| Recovery.UndashedNumerals | main.cpp:412-414 | without a leading `-`, the signed pattern matches exactly the unsigned prefixes |
| Recovery.DashNotUnsigned | main.cpp:412-414 | an unsigned numeral never starts with `-` |
| Recovery.AxisNumeralParses | main.cpp:416-418 | every captured axis numeral is read by `toFloat` as a number, not the failure value |
| Recovery.UnsignedNumeralParses | main.cpp:416-418 | every unsigned numeral parses |
| Recovery.FirstAxisWord | main.cpp:416-418 | `indexIn` finds the leftmost position where the axis letter is followed by a numeral, or reports that there is none |
| Recovery.FindClosestGCodeLine | main.cpp:404-432 | the result is the first motion line at minimal squared distance between replayed position and target, if that distance is below 1e9, and -1 otherwise; only the lines and the target are read |
| Recovery.ClosestIsUnique | main.cpp:425-428 | the strict `<` makes the answer unique: the first minimum wins |
| Recovery.NoMotionNoRecovery | main.cpp:411 | a program without G0/G1 lines never yields a recovery line |
| Recovery.ExactHitIsChosen | main.cpp:404-432 | the first motion line whose replayed position equals the target is chosen |
| Recovery.MotionTestIsAPrefixTest | main.cpp:411 | `G00`, `G01` and `G10` lines count as motion; lowercase, indented and `M` lines do not |
| Recovery.DigitsAfterAxis | main.cpp:416-418 | the first axis letter followed by digits captures exactly those digits |
| Recovery.AxisAbsent | main.cpp:416-418 | a line without the axis letter leaves that coordinate unchanged |
| Recovery.ThreeMoveExample | main.cpp:404-432 | in "G0 X10 Y0 / G0 X10 Y10 / G0 X20 Y10", the target (10,10,0) recovers to line 1 |
| Recovery.ThreeMoveOnlyAnswer | main.cpp:404-432 | in that program, line 1 is the only answer the scan can give for the target (10,10,0) |
| Recovery.IsMotion | main.cpp:411 | definition: the line starts with `G0` or `G1`; Recovery.MotionTestIsAPrefixTest states which lines that admits |
| Recovery.AxisCapture | main.cpp:412-418 | definition: the capture at the first axis word of the line; Recovery.FirstAxisWord, Recovery.NumeralAt, Recovery.DigitsAfterAxis and Recovery.AxisAbsent state what it finds |
| Recovery.Coordinate | main.cpp:416-418 | definition: the `toFloat` of the axis capture, or the current coordinate when the axis pattern does not match; Recovery.DigitsAfterAxis and Recovery.AxisAbsent state its two cases |
| Recovery.Step | main.cpp:411-418 | definition: a motion line sets each axis it mentions to the `toFloat` of its capture and keeps the others; any other line keeps the position |
| Recovery.Replay | main.cpp:408-419 | definition: the position after the first k lines, starting at the origin; Recovery.FindClosestGCodeLine is proved against it |
| Status.NumRun | main.cpp:201 | the `[0-9.-]` run at a position stays within the text; Status.NumRunFacts states that it is maximal |
| Status.MatchAt | main.cpp:201-202 | definition: the match of `MPos:` and three comma-separated greedy `[0-9.-]+` groups at a position, with its captures; Status.MatchAtSound and Status.MatchAtGreedy state that it finds exactly the occurrences there |
| Status.NumRunFacts | main.cpp:201 | the `[0-9.-]` run at a position is maximal: all class characters, followed by a non-class character or the end |
| Status.MatchAtSound | main.cpp:201-202 | a match found at a position is a real occurrence of `MPos:a,b,c` with three non-empty `[0-9.-]` captures |
| Status.MatchAtGreedy | main.cpp:201-202 | every occurrence at a position is found there, with the same first two captures and a third capture that extends it |
| Status.FindMatch | main.cpp:202 | `indexIn` yields the leftmost matching position, or none when no position matches |
| Status.ParseStatus | main.cpp:200-207 | definition: the three captures' `toFloat` when the chunk contains `<` and the pattern matches; its meaning is stated by Status.ParseStatusIff |
| Status.ParseStatusIff | main.cpp:200-207 | the position is replaced (all three axes) exactly when the chunk contains `<` and some `MPos:a,b,c` occurrence |
| Status.FormatMillisIsNumeric | main.cpp:201 | every printed coordinate is a non-empty run of `[0-9.-]` |
| Status.StatusReportRoundTrip | main.cpp:200-207 | a status report `<State\|MPos:x,y,z...>` printed with three decimals yields exactly the reported position |
| Status.ReportParses | main.cpp:200-207 | a report whose state field has no `M` yields the `toFloat` of its three coordinates |
| Status.MatchFollowedBy | main.cpp:201-202 | an occurrence followed by a non-class character is matched with exactly its captures |
| Status.NoBracketNoPosition | main.cpp:200 | a chunk in which no character is `<` leaves the position unchanged, whatever else it carries |
| Settings.HitAt | main.cpp:279-280 | a match at a position lies within the text |
| Settings.HitAtSound | main.cpp:279-280 | a match is a real occurrence of `$<digits>=<[0-9.-]+>` |
| Settings.HitAtGreedy | main.cpp:279-280 | every occurrence at a position is found there with the same id and a value that extends it |
| Settings.FindHit | main.cpp:280 | `indexIn` from a position yields the leftmost match after it, or none |
| Settings.NextPair | main.cpp:280-287 | one step of the scan yields the pair of the leftmost match at or after `from` and resumes at that match's start plus its length (`pos += matchedLength`), strictly forward; it yields nothing exactly when no match is left |
| Settings.Scan | main.cpp:279-287 | definition: the pairs of the successive non-overlapping matches from a position; Settings.ParseSettings and Settings.ScanWellFormed state its properties |
| Settings.Collect | main.cpp:279-287 | definition: the map built by inserting the pairs in order; Settings.CollectKeys and Settings.CollectLastWins state its properties |
| Settings.ParseSettings | main.cpp:279-287 | the loop's map is the fold of all successive non-overlapping matches, a later one for the same key overwriting an earlier one |
| Settings.CollectKeys | main.cpp:284 | a key is in the map exactly when some match has that key |
| Settings.CollectLastWins | main.cpp:284 | the value kept for a key is the one of its last match |
| Settings.ScanWellFormed | main.cpp:279-283 | every recorded key is `$` followed by digits and every value is a non-empty `[0-9.-]` run |
| Settings.Describe | main.cpp:238-251 | a known key gets its description from the table; an unknown key gets the empty string, and only unknown keys do |
| Settings.KeyId | main.cpp:257-259 | definition: `toInt` of the key without its `$`; Settings.KeyIdOfIndex states its value on GRBL keys |
| Settings.KeyIdOfIndex | main.cpp:257-259 | the comparator's id of `$n` is `n`, so `$0` sorts before `$100` |
| Settings.InsertById | main.cpp:290-291 | inserting a key into an id-sorted list keeps it sorted and adds exactly that key |
| Settings.SortKeys | main.cpp:290-291 | the sorted keys are a permutation of the map's keys in ascending id order |
| Settings.SortedKeysAreTheKeys | main.cpp:290-291 | the sorted list holds every key of the map, only those, and each once |
| Settings.RowsFor | main.cpp:293-301 | definition: one row per sorted key with its fetched value and its description; Settings.RowsForIsTable and Settings.AppendFetched state its properties |
| Settings.SetCell | main.cpp:299-304 | definition: the row with one of its three cells replaced; Sender.GRBLSender.EditCell states that only that cell of that row changes |
| Settings.RowsForIsTable | main.cpp:293-301 | the rows built from the sorted keys show each key with its fetched value and its description |
| Settings.AppendFetched | main.cpp:278-301 | the scanned map is the fold of the dump's matches; the earlier rows stay in front and the appended rows are the id-sorted table for that map |
| Settings.Changed | main.cpp:315-320 | definition: the row's key has an original value and the table shows a different one |
| Settings.Command | main.cpp:315-320 | definition: `key=value` with its own newline |
| Settings.ApplyCommands | main.cpp:315-320 | definition: the commands of the changed rows in row order; Settings.ApplyCommandsIff and Settings.ApplyCommandsAppend state its properties |
| Settings.ApplyCommandsIff | main.cpp:314-323 | a `key=value` command is built exactly for the rows whose key has an original value different from the table's |
| Settings.ApplyCommandsAppend | main.cpp:315 | rows are handled in table order |
| Settings.FreshTableSendsNothing | main.cpp:314-323 | with the table exactly as fetched, nothing is sent |
| Settings.OneEditOneCommand | main.cpp:314-323 | editing one fetched value to something else sends exactly that row's `key=value` |
| Settings.ApplyAsWrittenSendsNothing | main.cpp:314-320 | compared against the empty copy of the original values the apply closure takes when the dialog is built, no command is ever built |
| Settings.EditedStepPulseExample | main.cpp:314-320 | `$0` fetched as 10 and edited to 5 is sent with the fetched values, and not with the empty copy |
| Jog.Jog | main.cpp:150-162 | no command exactly when the position stays; a command is the key's `G91 G0` move and the position moves by the key's unit displacement |
| Jog.JogIsUnitMove | main.cpp:146-166 | a key moves its axis by exactly 1 and yields the matching `G91 G0` command when the limit toward the move holds; otherwise nothing moves and nothing is sent |
| Jog.JogKeepsLimits | main.cpp:150-162 | from inside the soft limits, a jog never leaves them |
| Playback.Framed | main.cpp:188-194 | framing keeps one output per command |
| Playback.FramedAt | main.cpp:190 | each output is the command followed by a newline |
| Playback.FramedAppend | main.cpp:188-194 | framing two command lists one after the other is the framing of both |
| Playback.Send | main.cpp:188-194 | definition: `cmd + "\n"` is appended to the output when the port is open, and nothing changes otherwise; Playback.StepSendsTheSkippedLines and Playback.DrainSendsInOrder state what the playback steps write through it |
| Playback.SendNextLine | main.cpp:364-369 | keeps the cursor invariant, the program, the port state and the pause flag, never moves the cursor back, and leaves a paused or exhausted session unchanged |
| Playback.Load | main.cpp:339-355 | the result satisfies the cursor invariant and keeps the pause flag and the output |
| Playback.Play | main.cpp:357-362 | keeps the cursor invariant, the program and the port state |
| Playback.Pause | main.cpp:129 | sets the pause flag and keeps the cursor invariant, the cursor and the output |
| Playback.Resume | main.cpp:130 | keeps the cursor invariant and the program, clears the pause flag and never moves the cursor back |
| Playback.RecoverLast | main.cpp:371-380 | keeps the cursor invariant, the program and the port state |
| Playback.RecoverTo | main.cpp:394-398 | keeps the cursor invariant; a line ≥ 0 unpauses and leaves that line as the last sent with the cursor after it; -1 changes nothing |
| Playback.OnData | main.cpp:209 | keeps the cursor invariant, the program and the pause flag, never moves the cursor back, and changes nothing while paused |
| Playback.ValidPreserved | main.cpp:352-398 | load, play, pause, resume, next-line, data arrival and both recoveries all keep `0 <= currentLine <= N` and `lastSentLine == currentLine - 1` |
| Playback.StepSendsTheSkippedLines | main.cpp:364-369 | one step moves the cursor forward only and writes exactly the lines it passed |
| Playback.PlaySendsLineZeroFirst | main.cpp:357-362 | play on an empty program changes nothing; otherwise it unpauses and line 0 is the first sent |
| Playback.RecoverLastResends | main.cpp:371-380 | with a valid last line, recovery resends it and leaves the cursor just after it, unpaused; otherwise nothing changes |
| Playback.RecoverLastRepeatsPreviousLine | main.cpp:371-380 | during playback, the last-sent recovery repeats line `currentLine - 1` and leaves the cursor where it was |
| Playback.DrainSendsInOrder | main.cpp:364-369 | while unpaused, k calls from cursor c send lines c, c+1, ... up to min(c+k, N) in order, each once |
| Playback.RunNeverSkipsOrRepeats | main.cpp:364-369 | over any sequence of pause clicks, resume clicks and device data, the port receives exactly the program lines between the start and end cursor, in order, none skipped or repeated |
| Playback.PausedDataIsIgnored | main.cpp:365 | while paused, device data sends nothing and moves nothing |
| Playback.DataRunIsDrain | main.cpp:209 | k data arrivals while unpaused are the same as k next-line steps |
| Playback.ThreeMoveRecoverySendsLineOne | main.cpp:394-398 | restarting the three-move program at line 1 sends `G0 X10 Y10` next and leaves the cursor at line 2, unpaused |
| Playback.Run | main.cpp:364-369 | any run of pause clicks, resume clicks and device data keeps the cursor invariant |
| Playback.NonBlank | main.cpp:346-349 | definition: the file lines trimmed, in order, with the empty ones dropped; Playback.ReadProgram, Playback.NonBlankMembers and Playback.NonBlankLinesAreTrimmed state its properties |
| Playback.Kept | main.cpp:347-349 | definition: what one file line contributes, its trimmed form unless that is empty; Playback.NonBlankLinesAreTrimmed states that every kept line is trimmed and non-empty |
| Playback.ReadProgram | main.cpp:345-350 | the read loop keeps exactly the trimmed non-blank file lines, in file order |
| Playback.NonBlankLinesAreTrimmed | main.cpp:347-349 | every loaded line is non-empty and trimmed |
| Playback.NonBlankAppend | main.cpp:346-350 | loading keeps the file's line order |
| Playback.TrimmedAt | main.cpp:347 | the trimmed lines line up with the file lines, each the trimmed form of its own |
| Playback.NonBlankMembers | main.cpp:346-350 | a line is loaded exactly when it is non-empty and among the trimmed file lines |
| Playback.NonBlankIdempotent | main.cpp:346-350 | loading an already loaded program gives the same lines |
| Sender.GRBLSender.constructor | main.cpp:60-67 | a new sender has a closed port, no program, cursor 0, last line -1, unpaused, position at the origin, and no settings |
| Sender.GRBLSender.Connect | main.cpp:176-186 | the port is open exactly when opening succeeded |
| Sender.GRBLSender.SendCommand | main.cpp:188-194 | `cmd + "\n"` is appended to the output when the port is open; otherwise nothing changes |
| Sender.GRBLSender.RequestStatus | main.cpp:335-337 | the status query writes `?\n` when the port is open |
| Sender.GRBLSender.SendManual | main.cpp:137-140 | the trimmed manual text is sent unless it is blank |
| Sender.GRBLSender.KeyPress | main.cpp:146-166 | on a closed port nothing happens; otherwise the position becomes the jog result and the jog command, if any, is sent |
| Sender.GRBLSender.ReadSerial | main.cpp:196-210 | the position becomes the parsed status position, or stays; the state advances by the data-arrival step |
| Sender.GRBLSender.FetchReaderReceives | main.cpp:272-308 | the chunk is appended to the dump; once it contains `ok`, the parsed pairs become a table sorted by id, appended to the rows and recorded as original values, and the reader is removed |
| Sender.GRBLSender.OnSerialData | main.cpp:269-272 | with a fetch pending, the reader takes the chunk and the position is unchanged; otherwise the position follows the status report; in both cases the next line is requested |
| Sender.GRBLSender.FetchSettings | main.cpp:261-267 | the table is cleared, `$$\n` is sent through `sendCommand` and one more reader waits |
| Sender.GRBLSender.EditCell | main.cpp:299-304 | only the edited cell of the edited row changes |
| Sender.GRBLSender.ApplySettings | main.cpp:314-323 | exactly the commands of the apply rule against the fetched values are written, in row order, each with a second newline |
| Sender.GRBLSender.LoadGCode | main.cpp:339-355 | a chosen file replaces the program by its trimmed non-blank lines and resets cursor and last line, leaving the pause flag; a cancelled or unreadable file changes nothing |
| Sender.GRBLSender.SendNextLine | main.cpp:364-369 | unpaused with lines left: the last line becomes the cursor, that line is sent and the cursor moves up by one; otherwise nothing changes |
| Sender.GRBLSender.PlayGCode | main.cpp:357-362 | the state becomes the play step: unchanged on an empty program, otherwise restarted at line 0 and unpaused |
| Sender.GRBLSender.Pause | main.cpp:129 | only the pause flag is set |
| Sender.GRBLSender.Resume | main.cpp:130 | unpause, then the next-line step |
| Sender.GRBLSender.RecoverPosition2 | main.cpp:371-380 | the last-sent recovery step, reporting the line resent or that no recovery point exists |
| Sender.GRBLSender.RecoverPosition | main.cpp:382-402 | a cancelled dialog changes nothing; otherwise playback restarts from the line the scan finds, which is the closest motion line, or nothing changes when there is none |

## Left out

- Widgets, layout, the OpenGL view, the log window and `updatePosition` (display only).
- Serial port enumeration, the port name, the baud rate and byte I/O. The port is an open flag plus a list of sent commands; `Connect` takes whether opening succeeded.
- `QTimer`: the 500 ms status poll and its stop and restart around a fetch. The 10 ms `singleShot` delays are modelled as immediate calls, so other events cannot slip in between.
- Signal plumbing: fetch readers are a count with one buffer for the oldest. The disconnect and reconnect of `readSerial` are modelled by the order of `OnSerialData`.
- The settings dialog is modelled as one dialog. Opening a second dialog, each with its own table, is not modelled.
- File and input dialogs. `LoadGCode` takes the file's lines, or None when cancelled or unreadable. `RecoverPosition` takes the target, or None when cancelled. The dialogs' range of ±10000 and their 3 decimals are not modelled.
- Line splitting by `QTextStream::readLine`: the file arrives already split into lines.
- `float` arithmetic and rounding: coordinates and distances are exact reals, and `toFloat` is an exact decimal parse (0.0 on failure). Exponent forms and surrounding whitespace accepted by `toFloat` are not modelled.
- Text.ToInt: models `toInt` on the digit strings the settings pattern produces, without sign or surrounding whitespace.
- `\d` in the settings pattern `\$(\d+)=([\d\.\-]+)` and in the axis patterns `X(-?\d*\.?\d+)` of `findClosestGCodeLine` (main.cpp:412-414) is read as ASCII `0`-`9`. `QRegExp` also matches other Unicode digits there: for a line such as `G0 X` followed by Arabic-Indic digits the source captures a numeral, while the model keeps the previous coordinate. UTF-8 decoding of incoming bytes is not modelled: chunks arrive as text.
- The order `std::sort` gives to keys that share an id (such as `$1` and `$01`) is unspecified. `Settings.SortKeys` promises only that ids ascend.
- The `qDebug` trace and the final log line of apply (diagnostics only).

## Findings

| source | as written | input that shows it | evidently intended | confidence | as-written member | corrected member |
|---|---|---|---|---|---|---|
| main.cpp:314-320 | the apply closure captures `originalValues` by copy when the dialog is built (line 254). The fetch closures fill their own copies, so the map apply reads stays empty and no edited setting is ever sent | fetch a dump containing `$0=10`, edit the value to `5`, press Apply: no `$0=5` is sent | apply compares the table against the values the fetch recorded, and sends `key=value` for each edited row | not executed | Settings.ApplyAsWrittenSendsNothing | Sender.GRBLSender.ApplySettings |
