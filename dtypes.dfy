/** The `Command` enum of src/dtypes.rs: eight variants without payload. */
module Dtypes {

  datatype Command =
    | MovePointerRight
    | MovePointerLeft
    | IncrementByte
    | DecrementByte
    | OutputByte
    | InputByte
    | JumpRightIfZero
    | JumpLeftIfNonZero

  /** Every variant, each once. */
  const AllCommands: seq<Command> := [
    MovePointerRight, MovePointerLeft, IncrementByte, DecrementByte,
    OutputByte, InputByte, JumpRightIfZero, JumpLeftIfNonZero
  ]

  /** The enum has exactly eight variants: the list above is complete and has no repetition. */
  lemma EightVariants()
    ensures |AllCommands| == 8
    ensures forall c: Command :: c in AllCommands
    ensures forall i, j :: 0 <= i < j < |AllCommands| ==> AllCommands[i] != AllCommands[j]
  {
    forall c: Command ensures c in AllCommands {
      match c
      case MovePointerRight => assert AllCommands[0] == c;
      case MovePointerLeft => assert AllCommands[1] == c;
      case IncrementByte => assert AllCommands[2] == c;
      case DecrementByte => assert AllCommands[3] == c;
      case OutputByte => assert AllCommands[4] == c;
      case InputByte => assert AllCommands[5] == c;
      case JumpRightIfZero => assert AllCommands[6] == c;
      case JumpLeftIfNonZero => assert AllCommands[7] == c;
    }
  }
}
