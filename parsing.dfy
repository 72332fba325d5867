/** `byte_to_command` of src/parsing.rs and the encoder it is the inverse of. */
module Parsing {
  import opened Wrappers
  import opened Bytes
  import opened Dtypes

  /** The byte each command is written as in a program. */
  function Encode(c: Command): byte
  {
    match c
    case MovePointerRight => 62
    case MovePointerLeft => 60
    case IncrementByte => 43
    case DecrementByte => 45
    case OutputByte => 46
    case InputByte => 44
    case JumpRightIfZero => 91
    case JumpLeftIfNonZero => 93
  }

  /**
   * `byte_to_command`: Some for exactly the eight command bytes, and then the
   * command that is written as that byte; None for every other byte.
   */
  function ByteToCommand(b: byte): (r: Option<Command>)
    ensures r.Some? <==> b in CommandBytes
    ensures r.Some? ==> Encode(r.value) == b
    ensures r.None? ==> forall c: Command :: Encode(c) != b
  {
    match b
    case 43 => Some(IncrementByte)
    case 44 => Some(InputByte)
    case 45 => Some(DecrementByte)
    case 46 => Some(OutputByte)
    case 60 => Some(MovePointerLeft)
    case 62 => Some(MovePointerRight)
    case 91 => Some(JumpRightIfZero)
    case 93 => Some(JumpLeftIfNonZero)
    case _ => None
  }

  /** Decoding what was encoded gives the command back. */
  lemma DecodeEncode(c: Command)
    ensures ByteToCommand(Encode(c)) == Some(c)
  {
  }

  /** Encoding what was decoded gives the byte back. */
  lemma EncodeDecode(b: byte, c: Command)
    requires ByteToCommand(b) == Some(c)
    ensures Encode(c) == b
  {
  }

  /** Distinct command bytes decode to distinct variants. */
  lemma DecodeInjective(a: byte, b: byte)
    requires ByteToCommand(a).Some? && ByteToCommand(a) == ByteToCommand(b)
    ensures a == b
  {
    EncodeDecode(a, ByteToCommand(a).value);
    EncodeDecode(b, ByteToCommand(b).value);
  }

  /** The bytes that decode to a command are exactly the images of the encoder. */
  lemma EncodeImage()
    ensures (set c | c in AllCommands :: Encode(c)) == CommandBytes
  {
    EightVariants();
    var image := set c | c in AllCommands :: Encode(c);
    forall b | b in CommandBytes ensures b in image {
      DecodeEncode(ByteToCommand(b).value);
    }
  }

  /** Exactly 8 of the 256 byte values decode to Some. */
  lemma EightDecodableBytes()
    ensures |set b: int | 0 <= b < 256 && ByteToCommand(b).Some?| == 8
  {
    var decodable := set b: int | 0 <= b < 256 && ByteToCommand(b).Some?;
    assert decodable == CommandBytes;
    assert |CommandBytes| == 8;
  }
}
