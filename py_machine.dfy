/**
 * The `BFI` class of bfipy/interpreter.py: its attributes as fields, `run` as a
 * `while` loop over them, with the forward skip and the backward scan as inner
 * loops. `Run` is proved to compute `PySemantics.Run`, so every lemma of that
 * module is a statement about this class.
 */
module PyMachine {
  import opened Wrappers
  import opened Bytes
  import opened PyCommand
  import opened PySemantics

  /** How an iteration of the loop of `run` hands control back to it. */
  datatype Signal = Continue | Stop | Throw(exc: Exception)

  function SignalOf(it: Iteration): Signal
  {
    match it
    case Next(_) => Continue
    case Break(_) => Stop
    case Raise(_, e) => Throw(e)
  }

  class BFI {
    const memSz: nat
    const mem: array<byte>
    var ptr: int
    var inBuf: seq<byte>
    var outBuf: seq<byte>
    var flgRun: bool
    var flgTrm: bool
    var flgErr: bool
    var errMsg: string
    var inBufIdx: int
    var parenState: int
    var jumpStack: seq<byte>

    ghost predicate Valid()
      reads this
    {
      mem.Length == memSz && parenState >= 0
    }

    /** All attributes as one value. */
    ghost function State(): Config
      reads this, mem
    {
      Config(mem[..], ptr, inBuf, outBuf, flgRun, flgTrm, flgErr, errMsg, inBufIdx, parenState, jumpStack)
    }

    /** `BFI(mem_sz)`. */
    constructor (memSz: nat)
      ensures Valid() && fresh(mem)
      ensures State() == Init(memSz)
    {
      this.memSz := memSz;
      mem := new byte[memSz](_ => 0);
      ptr := 0;
      inBuf := [];
      outBuf := [];
      flgRun := false;
      flgTrm := false;
      flgErr := false;
      errMsg := "";
      inBufIdx := 0;
      parenState := 0;
      jumpStack := [];
      new;
      assert mem[..] == seq(memSz, _ => 0);
    }

    /** The `ptr_val` property: `mem[ptr]`, with Python's negative indexes. */
    function PtrVal(): (v: byte)
      reads this, mem
      requires Valid() && Indexable(ptr, memSz)
      ensures v == Cell(State())
    {
      mem[Slot(ptr, memSz)]
    }

    /**
     * The inner loop of the forward skip (lines 232-244, without the error
     * handling, which stays in `Run`): `open` and the bytes before the next `]`
     * are parked on the front of the jump stack; a found `]` goes back on `in_buf`.
     */
    method ParkUntilClose(open: byte) returns (found: bool)
      requires |inBuf| > 0
      modifies this`inBuf, this`jumpStack
      ensures Moved(found, inBuf, jumpStack) == Park(open, old(inBuf), old(jumpStack))
    {
      ghost var s0, j0 := inBuf, jumpStack;
      jumpStack := [open] + jumpStack;
      var next := inBuf[0];
      inBuf := inBuf[1..];
      ghost var i := 1;
      while next != CloseBracket && |inBuf| > 0
        invariant 1 <= i <= |s0|
        invariant inBuf == s0[i..]
        invariant next == s0[i - 1]
        invariant jumpStack == Reverse(s0[..i - 1]) + [open] + j0
        invariant forall t :: 0 <= t < i - 1 ==> s0[t] != CloseBracket
        decreases |inBuf|
      {
        assert s0[..i][..i - 1] == s0[..i - 1];
        jumpStack := [next] + jumpStack;
        next := inBuf[0];
        inBuf := inBuf[1..];
        i := i + 1;
      }
      var k := IndexOf(s0, CloseBracket);
      if next != CloseBracket {
        assert k == |s0|;
        found := false;
      } else {
        assert k == i - 1;
        assert s0[k..] == [next] + inBuf;
        inBuf := [next] + inBuf;
        found := true;
      }
    }

    /**
     * The inner loop of the backward scan (lines 259-265): `close`, then each byte
     * popped from the front of the jump stack, go onto the front of `in_buf` up to
     * and including the first `[`. `found` is false when `pop(0)` would find the
     * stack empty, where Python raises IndexError.
     */
    method RestoreUntilOpen(close: byte) returns (found: bool)
      modifies this`inBuf, this`jumpStack
      ensures Moved(found, inBuf, jumpStack) == Restore(close, old(inBuf), old(jumpStack))
    {
      ghost var b0, j0 := inBuf, jumpStack;
      ghost var k := IndexOf(j0, OpenBracket);
      inBuf := [close] + inBuf;
      if |jumpStack| == 0 {
        return false;
      }
      var next := jumpStack[0];
      jumpStack := jumpStack[1..];
      ghost var i := 1;
      while next != OpenBracket
        invariant 1 <= i <= |j0|
        invariant jumpStack == j0[i..]
        invariant next == j0[i - 1]
        invariant inBuf == Reverse(j0[..i - 1]) + [close] + b0
        invariant forall t :: 0 <= t < i - 1 ==> j0[t] != OpenBracket
        decreases |jumpStack|
      {
        assert j0[..i][..i - 1] == j0[..i - 1];
        inBuf := [next] + inBuf;
        if |jumpStack| == 0 {
          assert j0[..i] == j0;
          assert k == |j0|;
          return false;
        }
        next := jumpStack[0];
        jumpStack := jumpStack[1..];
        i := i + 1;
      }
      assert k == i - 1;
      inBuf := [next] + inBuf;
      found := true;
    }

    /**
     * The `Command.JumpRightIfZero` branch of `run` (lines 220-244), on the
     * machine from which `b` was popped.
     */
    method SkipForward(b: byte) returns (signal: Signal)
      requires Valid()
      modifies this
      ensures Valid()
      ensures State() == JumpRight(b, old(State())).c
      ensures signal == SignalOf(JumpRight(b, old(State())))
    {
      parenState := parenState + 1;
      if !Indexable(ptr, memSz) {
        return Throw(IndexError);
      }
      if PtrVal() != 0 {
        inBufIdx := inBufIdx + 1;
        return Continue;
      }
      if |inBuf| == 0 {
        flgErr := true;
        errMsg := "no bytes in input buffer after [";
        return Stop;
      }
      var found := ParkUntilClose(b);
      if !found {
        flgErr := true;
        errMsg := "no closing ] found";
        return Stop;
      }
      inBufIdx := inBufIdx + 1;
      signal := Continue;
    }

    /**
     * The `Command.JumpLeftIfNonZero` branch of `run` (lines 245-265), on the
     * machine from which `b` was popped.
     */
    method JumpBack(b: byte) returns (signal: Signal)
      requires Valid()
      modifies this
      ensures Valid()
      ensures State() == JumpLeft(b, old(State())).c
      ensures signal == SignalOf(JumpLeft(b, old(State())))
    {
      if parenState < 1 {
        flgErr := true;
        errMsg := "unmatched ]";
        return Stop;
      }
      parenState := parenState - 1;
      if !Indexable(ptr, memSz) {
        return Throw(IndexError);
      }
      if PtrVal() != 0 {
        var found := RestoreUntilOpen(b);
        if !found {
          return Throw(IndexError);
        }
      }
      inBufIdx := inBufIdx + 1;
      signal := Continue;
    }

    /** One iteration of the loop of `run` (lines 182-266): pop the front byte and execute it. */
    method Iterate() returns (signal: Signal)
      requires Valid() && |inBuf| > 0
      modifies this, mem
      ensures Valid()
      ensures State() == Step(old(State())).c
      ensures signal == SignalOf(Step(old(State())))
    {
      var byte := inBuf[0];
      inBuf := inBuf[1..];
      match ParseCommand(byte)
      case None =>
        inBufIdx := inBufIdx + 1;
        signal := Continue;
      case Some(MovePointerRight) =>
        ptr := ptr + 1;
        if ptr >= memSz {
          flgErr := true;
          errMsg := "data pointer overran memory size";
          return Stop;
        }
        inBufIdx := inBufIdx + 1;
        signal := Continue;
      case Some(MovePointerLeft) =>
        ptr := ptr - 1;
        if ptr < 0 {
          flgErr := true;
          errMsg := "data pointer underran memory size";
          return Stop;
        }
        inBufIdx := inBufIdx + 1;
        signal := Continue;
      case Some(IncrementByte) =>
        if !Indexable(ptr, memSz) {
          return Throw(IndexError);
        }
        var slot := Slot(ptr, memSz);
        mem[slot] := if mem[slot] == 255 then 0 else mem[slot] + 1;
        inBufIdx := inBufIdx + 1;
        signal := Continue;
      case Some(DecrementByte) =>
        if !Indexable(ptr, memSz) {
          return Throw(IndexError);
        }
        var slot := Slot(ptr, memSz);
        mem[slot] := if mem[slot] == 0 then 255 else mem[slot] - 1;
        inBufIdx := inBufIdx + 1;
        signal := Continue;
      case Some(OutputByte) =>
        if !Indexable(ptr, memSz) {
          return Throw(IndexError);
        }
        outBuf := outBuf + [PtrVal()];
        inBufIdx := inBufIdx + 1;
        signal := Continue;
      case Some(InputByte) =>
        signal := Throw(NotImplementedError);
      case Some(JumpRightIfZero) =>
        signal := SkipForward(byte);
      case Some(JumpLeftIfNonZero) =>
        signal := JumpBack(byte);
    }

    /**
     * `run`: consumes `in_buf` one byte at a time until it is empty, an error
     * breaks the loop or an exception escapes, then checks the paren counter and
     * sets the final flags. The whole new state, and whether an exception
     * escaped, is what `PySemantics.Run` says of the old state.
     */
    method Run() returns (outcome: Outcome)
      requires Valid()
      modifies this, mem
      ensures Valid()
      ensures Halt(State(), outcome) == PySemantics.Run(old(State()))
    {
      flgRun := true;
      ghost var entry := State();
      while |inBuf| > 0
        invariant Valid()
        invariant Loop(State()) == Loop(entry)
        invariant 0 <= entry.ptr < memSz && !entry.flgErr ==> 0 <= ptr < memSz && !flgErr
        decreases Measure(State())
      {
        ghost var before := State();
        StepDecreases(before);
        StepErrors(before);
        if 0 <= before.ptr < memSz {
          StepKeepsPointer(before);
        }
        var signal := Iterate();
        match signal
        case Continue =>
        case Stop =>
          break;
        case Throw(e) =>
          return Raised(e);
      }
      assert Loop(entry) == Halt(State(), Returned);
      ghost var looped := State();
      if !flgErr && parenState != 0 {
        flgErr := true;
        errMsg := UnbalancedMessage(parenState);
      }
      flgRun := false;
      flgTrm := true;
      outcome := Returned;
      assert State() == Finish(looped);
    }
  }
}
