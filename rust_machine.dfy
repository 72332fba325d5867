/**
 * The `BFInterpreter` struct of src/interpreter.rs: its fields as fields, each
 * `&mut self` method as a method, the loops of `run` and of the two jump
 * handlers as `while` loops. Every method is proved to compute the function of
 * `RustSemantics` it is named after, for every `bracket_state`; `run` is proved
 * for the `bracket_state` 0 that `new` sets up and `run` keeps.
 *
 * A method that would panic returns the reason instead; what it leaves in the
 * fields then is of no interest, since a panic ends the program.
 */
module RustMachine {
  import opened Wrappers
  import opened Bytes
  import opened Dtypes
  import opened Parsing
  import opened RustSemantics

  /** The result a method's new state and its panic, if any, amount to. */
  function Settle(m: Machine, p: Option<Panic>): Res
  {
    match p
    case Some(why) => Panicked(why)
    case None => Done(m)
  }

  class BFInterpreter {
    const memSize: nat
    const mem: array<byte>
    var inBuf: seq<byte>
    var outBuf: seq<byte>
    var dataPtr: nat
    var runFlg: bool
    var termFlg: bool
    var errorFlg: bool
    var errorMsg: Option<string>
    var bracketState: int
    var jumpStack: seq<byte>
    var currentByte: Option<byte>

    /** `mem` holds `mem_size` cells (the `vec![0; mem_size]` of `new`). */
    ghost predicate Sized()
      reads this
    {
      mem.Length == memSize
    }

    /** What holds between calls of `run`: `bracket_state` is 0 as `new` left it. */
    ghost predicate Valid()
      reads this
    {
      Sized() && bracketState == 0
    }

    /** All fields as one value. */
    ghost function State(): Machine
      reads this, mem
    {
      Machine(mem[..], inBuf, outBuf, dataPtr, runFlg, termFlg, errorFlg, errorMsg, bracketState, jumpStack, currentByte)
    }

    /** `BFInterpreter::new(mem_size)` (lines 29-48). */
    constructor (memSize: nat)
      ensures Valid() && fresh(mem)
      ensures State() == New(memSize)
    {
      this.memSize := memSize;
      mem := new byte[memSize](_ => 0);
      inBuf := [];
      outBuf := [];
      dataPtr := 0;
      runFlg := false;
      termFlg := false;
      errorFlg := false;
      errorMsg := None;
      bracketState := 0;
      jumpStack := [];
      currentByte := None;
      new;
      assert mem[..] == seq(memSize, _ => 0);
    }

    /** `ptr_val` (lines 50-53); its panic is the caller's `data_ptr >= mem_size` check. */
    function PtrVal(): (v: byte)
      reads this, mem
      requires Sized() && dataPtr < memSize
      ensures v == RustSemantics.PtrVal(State())
    {
      mem[dataPtr]
    }

    /** `move_pointer_right` (lines 56-63). */
    method MovePointerRight()
      requires Sized()
      modifies this
      ensures Sized()
      ensures State() == MoveRight(old(State()))
    {
      dataPtr := dataPtr + 1;
      if dataPtr >= memSize {
        errorFlg := true;
        errorMsg := Some(Overran);
      }
    }

    /** `move_pointer_left` (lines 66-74). */
    method MovePointerLeft()
      requires Sized()
      modifies this
      ensures Sized()
      ensures State() == MoveLeft(old(State()))
    {
      if dataPtr == 0 {
        errorFlg := true;
        errorMsg := Some(Underran);
      } else {
        dataPtr := dataPtr - 1;
      }
    }

    /** `increment_byte` (lines 77-85). */
    method IncrementByte() returns (p: Option<Panic>)
      requires Sized()
      modifies mem
      ensures Settle(State(), p) == Increment(old(State()))
    {
      if dataPtr >= memSize {
        return Some(IndexOutOfBounds);
      }
      if PtrVal() == 255 {
        mem[dataPtr] := 0;
      } else {
        mem[dataPtr] := mem[dataPtr] + 1;
      }
      p := None;
    }

    /** `decrement_byte` (lines 88-96). */
    method DecrementByte() returns (p: Option<Panic>)
      requires Sized()
      modifies mem
      ensures Settle(State(), p) == Decrement(old(State()))
    {
      if dataPtr >= memSize {
        return Some(IndexOutOfBounds);
      }
      if PtrVal() == 0 {
        mem[dataPtr] := 255;
      } else {
        mem[dataPtr] := mem[dataPtr] - 1;
      }
      p := None;
    }

    /** `output_byte` (lines 99-102). */
    method OutputByte() returns (p: Option<Panic>)
      requires Sized()
      modifies this
      ensures Settle(State(), p) == Output(old(State()))
    {
      if dataPtr >= memSize {
        return Some(IndexOutOfBounds);
      }
      var val := PtrVal();
      outBuf := outBuf + [val];
      p := None;
    }

    /** `input_byte` (lines 105-107). */
    method InputByte() returns (p: Option<Panic>)
      ensures Settle(State(), p) == Input(old(State()))
    {
      p := Some(NotImplemented);
    }

    /**
     * The skip loop of `jump_right_if_zero` and the error check after it (lines
     * 117-139), for a given `pre_bracket_state`.
     */
    method SkipToMatching(pre: int)
      modifies this`inBuf, this`jumpStack, this`bracketState, this`errorFlg, this`errorMsg
      ensures State() == SkipChecked(old(State()), pre)
    {
      while |inBuf| > 0 && bracketState != pre
        invariant Skip(State(), pre) == Skip(old(State()), pre)
        decreases |inBuf|
      {
        ghost var before := State();
        var b := inBuf[0];
        bracketState := bracketState + BracketDelta(b);
        jumpStack := jumpStack + [b];
        inBuf := inBuf[1..];
        assert mem[..] == before.mem;
        assert State() == before.(bracketState := before.bracketState + BracketDelta(b),
                                  jumpStack := before.jumpStack + [b], inBuf := before.inBuf[1..]);
      }
      if bracketState != pre {
        errorFlg := true;
        errorMsg := Some(NoClosing);
      }
    }

    /** `jump_right_if_zero` (lines 110-141). */
    method JumpRightIfZero() returns (p: Option<Panic>)
      requires Sized()
      modifies this
      ensures Sized()
      ensures Settle(State(), p) == JumpRight(old(State()))
    {
      var pre := bracketState;
      if dataPtr >= memSize {
        return Some(IndexOutOfBounds);
      }
      if PtrVal() == 0 {
        SkipToMatching(pre);
      }
      p := None;
    }

    /** The rewind loop of `jump_left_if_non_zero` (lines 163-178). */
    method RewindToMatching(pre: int) returns (p: Option<Panic>)
      modifies this`inBuf, this`jumpStack, this`bracketState
      ensures Settle(State(), p) == Rewind(old(State()), pre)
    {
      while bracketState != pre
        invariant Rewind(State(), pre) == Rewind(old(State()), pre)
        decreases |jumpStack|
      {
        if |jumpStack| == 0 {
          return Some(SubtractOverflow);
        }
        ghost var before := State();
        var top := jumpStack[|jumpStack| - 1];
        bracketState := bracketState + BracketDelta(top);
        inBuf := [top] + inBuf;
        jumpStack := jumpStack[..|jumpStack| - 1];
        assert mem[..] == before.mem;
        assert State() == RewoundOne(before);
        RewindStep(before, pre);
      }
      p := None;
    }

    /** `current_byte = in_buf.pop_front()`. */
    method PopFront()
      modifies this
      ensures State() == RustSemantics.PopFront(old(State()))
    {
      if |inBuf| == 0 {
        currentByte := None;
      } else {
        currentByte := Some(inBuf[0]);
        inBuf := inBuf[1..];
      }
    }

    /** `jump_left_if_non_zero` (lines 144-183). */
    method JumpLeftIfNonZero() returns (p: Option<Panic>)
      requires Sized()
      modifies this
      ensures Sized()
      ensures Settle(State(), p) == JumpLeft(old(State()))
    {
      if bracketState == 0 {
        errorFlg := true;
        errorMsg := Some(Unmatched);
        return None;
      }
      var pre := bracketState;
      bracketState := bracketState - 1;
      if dataPtr >= memSize {
        return Some(IndexOutOfBounds);
      }
      if PtrVal() > 0 {
        if currentByte.None? {
          return Some(UnwrapNone);
        }
        inBuf := [currentByte.value] + inBuf;
        p := RewindToMatching(pre);
        if p.Some? {
          return;
        }
        PopFront();
      }
      p := None;
    }

    /** The `match cmd` of `run` (lines 195-204). */
    method Dispatch(cmd: Command) returns (p: Option<Panic>)
      requires Sized()
      modifies this, mem
      ensures Sized()
      ensures Settle(State(), p) == Handle(cmd, old(State()))
    {
      p := None;
      match cmd
      case MovePointerRight => MovePointerRight();
      case MovePointerLeft => MovePointerLeft();
      case IncrementByte => p := IncrementByte();
      case DecrementByte => p := DecrementByte();
      case OutputByte => p := OutputByte();
      case InputByte => p := InputByte();
      case JumpRightIfZero => p := JumpRightIfZero();
      case JumpLeftIfNonZero => p := JumpLeftIfNonZero();
    }

    /** One iteration of the loop of `run` (lines 193-208). */
    method Iterate() returns (p: Option<Panic>)
      requires Sized() && |inBuf| > 0
      modifies this, mem
      ensures Sized()
      ensures Settle(State(), p) == Step(old(State()))
    {
      var b := inBuf[0];
      PopFront();
      p := None;
      match ByteToCommand(b) {
        case None =>
        case Some(cmd) => p := Dispatch(cmd);
      }
      if p.Some? {
        return;
      }
      match currentByte {
        case None => p := Some(UnwrapNone);
        case Some(c) => jumpStack := jumpStack + [c];
      }
    }

    /**
     * `run` (lines 185-214). The whole new state, or the panic that ends the
     * program, is what `RustSemantics.Run` says of the old state.
     */
    method Run() returns (p: Option<Panic>)
      requires Valid()
      modifies this, mem
      ensures p.None? ==> Valid()
      ensures Settle(State(), p) == RustSemantics.Run(old(State()))
    {
      runFlg := true;
      ghost var entry := State();
      while |inBuf| > 0 && !errorFlg
        invariant Valid()
        invariant Loop(State()) == Loop(entry)
        invariant CanRead(entry) ==> errorFlg || dataPtr < memSize
        decreases |inBuf|
      {
        StepConsumes(State());
        if dataPtr < memSize {
          StepKeepsPointer(State());
        }
        p := Iterate();
        if p.Some? {
          return;
        }
      }
      runFlg := false;
      termFlg := true;
      p := None;
    }

    /** `fill_in_buff` (lines 216-220), on the program's bytes. */
    method FillInBuff(prog: seq<byte>)
      modifies this
      ensures State() == RustSemantics.FillInBuff(old(State()), prog)
    {
      for i := 0 to |prog|
        invariant State() == RustSemantics.FillInBuff(old(State()), prog[..i])
      {
        inBuf := inBuf + [prog[i]];
      }
      assert prog[..|prog|] == prog;
    }
  }
}
