/**
 * The `Command` enum of bfipy/interpreter.py and the byte decoder
 * `BFI._parse_command`, which is a pure table lookup.
 */
module PyCommand {
  import opened Wrappers
  import opened Bytes

  /** The eight members of the Python `Command` enum. */
  datatype Command =
    | MovePointerRight
    | MovePointerLeft
    | IncrementByte
    | DecrementByte
    | OutputByte
    | InputByte
    | JumpRightIfZero
    | JumpLeftIfNonZero

  /** `BFI._parse_command`: the command a byte stands for, or None for any other byte. */
  function ParseCommand(b: byte): (r: Option<Command>)
    ensures r.Some? <==> b in CommandBytes
  {
    match b
    case 43 => Some(IncrementByte)
    case 44 => Some(InputByte)
    case 45 => Some(DecrementByte)
    case 46 => Some(OutputByte)
    case 60 => Some(MovePointerLeft)
    case 62 => Some(MovePointerRight)
    case 91 => Some(JumpRightIfZero)
    case 93 => Some(JumpLeftIfNonZero)
    case _ => None
  }

  /** The classification the unit test of `_parse_command` checks for all 256 byte values. */
  lemma ParseCommandClassifies(b: byte)
    ensures ParseCommand(b) == Some(MovePointerRight) <==> b == 62
    ensures ParseCommand(b) == Some(MovePointerLeft) <==> b == 60
    ensures ParseCommand(b) == Some(IncrementByte) <==> b == 43
    ensures ParseCommand(b) == Some(DecrementByte) <==> b == 45
    ensures ParseCommand(b) == Some(OutputByte) <==> b == 46
    ensures ParseCommand(b) == Some(InputByte) <==> b == 44
    ensures ParseCommand(b) == Some(JumpRightIfZero) <==> b == 91
    ensures ParseCommand(b) == Some(JumpLeftIfNonZero) <==> b == 93
    ensures ParseCommand(b) == None <==> b !in CommandBytes
  {
  }
}
