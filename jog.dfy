/**
 * Keyboard jogging (GRBLSender::keyPressEvent without the port check): a
 * key moves one axis by a 1.0 step when the tracked position stays inside
 * the soft travel limits, and yields the relative move command to send.
 */
module Jog {
  import opened Geometry

  /** The keys the handler reacts to; every other key is `Other`. */
  datatype Key = W | S | A | D | Q | E | Other

  const StepSize: real := 1.0

  const MinX: real := 0.0
  const MaxX: real := 200.0
  const MinY: real := 0.0
  const MaxY: real := 200.0
  const MinZ: real := 0.0
  const MaxZ: real := 100.0

  /** The new tracked position and the command to send ("" for none). */
  datatype JogResult = JogResult(pos: Point, cmd: string)

  /** The key handler: W/S move +Y/-Y, D/A move +X/-X, Q/E move +Z/-Z, each
      only when the moved coordinate stays within its limit. `QString::number(1.0f)`
      prints "1". */
  function Jog(p: Point, key: Key): (r: JogResult)
    ensures r.cmd == "" <==> r.pos == p
    ensures r.cmd != "" ==> key != Other && r.cmd == MoveCommand(key) && r.pos == Add(p, Delta(key))
  {
    if key == W && p.y + StepSize <= MaxY then JogResult(p.(y := p.y + StepSize), "G91 G0 Y1")
    else if key == S && p.y - StepSize >= MinY then JogResult(p.(y := p.y - StepSize), "G91 G0 Y-1")
    else if key == A && p.x - StepSize >= MinX then JogResult(p.(x := p.x - StepSize), "G91 G0 X-1")
    else if key == D && p.x + StepSize <= MaxX then JogResult(p.(x := p.x + StepSize), "G91 G0 X1")
    else if key == Q && p.z + StepSize <= MaxZ then JogResult(p.(z := p.z + StepSize), "G91 G0 Z1")
    else if key == E && p.z - StepSize >= MinZ then JogResult(p.(z := p.z - StepSize), "G91 G0 Z-1")
    else JogResult(p, "")
  }

  // ---------------------------------------------------------------------
  // A reference description of one jog
  // ---------------------------------------------------------------------

  /** The displacement a key asks for. */
  function Delta(key: Key): Point {
    match key
    case W => Point(0.0, 1.0, 0.0)
    case S => Point(0.0, -1.0, 0.0)
    case A => Point(-1.0, 0.0, 0.0)
    case D => Point(1.0, 0.0, 0.0)
    case Q => Point(0.0, 0.0, 1.0)
    case E => Point(0.0, 0.0, -1.0)
    case Other => Point(0.0, 0.0, 0.0)
  }

  function Add(p: Point, d: Point): Point {
    Point(p.x + d.x, p.y + d.y, p.z + d.z)
  }

  predicate InLimits(p: Point) {
    MinX <= p.x <= MaxX && MinY <= p.y <= MaxY && MinZ <= p.z <= MaxZ
  }

  /** The moved coordinate of `q` is within the limit on its side. Only the
      limit in the direction of travel is tested. */
  predicate LimitToward(key: Key, q: Point) {
    match key
    case W => q.y <= MaxY
    case S => q.y >= MinY
    case A => q.x >= MinX
    case D => q.x <= MaxX
    case Q => q.z <= MaxZ
    case E => q.z >= MinZ
    case Other => false
  }

  /** G-code for the relative move along the key's axis. */
  function MoveCommand(key: Key): string
    requires key != Other
  {
    match key
    case W => "G91 G0 Y1"
    case S => "G91 G0 Y-1"
    case A => "G91 G0 X-1"
    case D => "G91 G0 X1"
    case Q => "G91 G0 Z1"
    case E => "G91 G0 Z-1"
  }

  /** A jog moves by the key's unit displacement and sends its command
      exactly when the destination respects the limit it moves toward;
      otherwise nothing moves and nothing is sent. */
  lemma JogIsUnitMove(p: Point, key: Key)
    ensures var r := Jog(p, key);
      if LimitToward(key, Add(p, Delta(key))) then
        r.pos == Add(p, Delta(key)) && r.cmd == MoveCommand(key)
      else
        r.pos == p && r.cmd == ""
  {
  }

  /** A jog never leaves the travel limits from a position inside them. */
  lemma JogKeepsLimits(p: Point, key: Key)
    requires InLimits(p)
    ensures InLimits(Jog(p, key).pos)
  {
  }
}
