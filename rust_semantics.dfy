/**
 * What one `BFInterpreter` of src/interpreter.rs does, as functions on a value
 * that holds all of its fields. The handlers are defined for every value of
 * `bracket_state`; `Loop` and `Run` for the value 0 that `new` starts with and
 * that nothing reachable from there changes. The class
 * `RustMachine.BFInterpreter` is proved to compute these functions.
 */
module RustSemantics {
  import opened Wrappers
  import opened Bytes
  import opened Dtypes
  import opened Parsing

  /** The fields of a `BFInterpreter`; `mem_size` is `|mem|`. */
  datatype Machine = Machine(
    mem: seq<byte>,
    inBuf: seq<byte>,
    outBuf: seq<byte>,
    dataPtr: nat,
    runFlg: bool,
    termFlg: bool,
    errorFlg: bool,
    errorMsg: Option<string>,
    bracketState: int,
    jumpStack: seq<byte>,
    currentByte: Option<byte>)

  /**
   * Why the program panics: indexing `mem` at or past `mem_size`, `input_byte`,
   * `unwrap` of `None`, and `jump_stack.len() - 1` on an empty stack.
   */
  datatype Panic = IndexOutOfBounds | NotImplemented | UnwrapNone | SubtractOverflow

  /** A handler or the loop either finishes with a new machine or panics. */
  datatype Res = Done(m: Machine) | Panicked(reason: Panic)

  const Overran: string := "data pointer overran available memory"
  const Underran: string := "data pointer underran available memory"
  const NoClosing: string := "could not find closing ]"
  const Unmatched: string := "unmatched ]"

  /** `BFInterpreter::new(mem_size)` (lines 29-48). */
  function New(memSize: nat): (m: Machine)
    ensures |m.mem| == memSize && forall i :: 0 <= i < memSize ==> m.mem[i] == 0
    ensures m.inBuf == [] && m.outBuf == [] && m.jumpStack == []
    ensures m.dataPtr == 0 && m.bracketState == 0
    ensures !m.runFlg && !m.termFlg && !m.errorFlg
    ensures m.errorMsg.None? && m.currentByte.None?
  {
    Machine(seq(memSize, _ => 0), [], [], 0, false, false, false, None, 0, [], None)
  }

  /** Whether `ptr_val` (lines 50-53) can index `mem` without panicking. */
  predicate CanRead(m: Machine)
  {
    m.dataPtr < |m.mem|
  }

  function PtrVal(m: Machine): byte
    requires CanRead(m)
  {
    m.mem[m.dataPtr]
  }

  /** Records an error: `error_flg` up and `error_msg` set. */
  function Flag(m: Machine, msg: string): Machine
  {
    m.(errorFlg := true, errorMsg := Some(msg))
  }

  /** `move_pointer_right` (lines 56-63). */
  function MoveRight(m: Machine): (r: Machine)
    ensures r.dataPtr == m.dataPtr + 1
    ensures r.errorFlg <==> m.errorFlg || m.dataPtr + 1 >= |m.mem|
    ensures r.errorMsg == if m.dataPtr + 1 >= |m.mem| then Some(Overran) else m.errorMsg
    ensures r.(dataPtr := m.dataPtr, errorFlg := m.errorFlg, errorMsg := m.errorMsg) == m
  {
    var m1 := m.(dataPtr := m.dataPtr + 1);
    if m1.dataPtr >= |m.mem| then Flag(m1, Overran) else m1
  }

  /** `move_pointer_left` (lines 66-74): at 0 the pointer stays put. */
  function MoveLeft(m: Machine): (r: Machine)
    ensures r.dataPtr == if m.dataPtr == 0 then 0 else m.dataPtr - 1
    ensures r.errorFlg <==> m.errorFlg || m.dataPtr == 0
    ensures r.errorMsg == if m.dataPtr == 0 then Some(Underran) else m.errorMsg
    ensures r.(dataPtr := m.dataPtr, errorFlg := m.errorFlg, errorMsg := m.errorMsg) == m
  {
    if m.dataPtr == 0 then Flag(m, Underran) else m.(dataPtr := m.dataPtr - 1)
  }

  /** `increment_byte` (lines 77-85): `mem[data_ptr]` goes up by one, 255 rolling over to 0. */
  function Increment(m: Machine): (r: Res)
    ensures r.Done? <==> CanRead(m)
    ensures r.Panicked? ==> r.reason == IndexOutOfBounds
    ensures r.Done? ==> r.m == m.(mem := m.mem[m.dataPtr := (m.mem[m.dataPtr] as int + 1) % 256])
  {
    if !CanRead(m) then Panicked(IndexOutOfBounds)
    else Done(m.(mem := m.mem[m.dataPtr := if PtrVal(m) == 255 then 0 else PtrVal(m) + 1]))
  }

  /** `decrement_byte` (lines 88-96): `mem[data_ptr]` goes down by one, 0 rolling over to 255. */
  function Decrement(m: Machine): (r: Res)
    ensures r.Done? <==> CanRead(m)
    ensures r.Panicked? ==> r.reason == IndexOutOfBounds
    ensures r.Done? ==> r.m == m.(mem := m.mem[m.dataPtr := (m.mem[m.dataPtr] as int - 1) % 256])
  {
    if !CanRead(m) then Panicked(IndexOutOfBounds)
    else Done(m.(mem := m.mem[m.dataPtr := if PtrVal(m) == 0 then 255 else PtrVal(m) - 1]))
  }

  /** `output_byte` (lines 99-102): appends the current cell to `out_buf`. */
  function Output(m: Machine): (r: Res)
    ensures r.Done? <==> CanRead(m)
    ensures r.Panicked? ==> r.reason == IndexOutOfBounds
    ensures r.Done? ==> r.m == m.(outBuf := m.outBuf + [m.mem[m.dataPtr]])
  {
    if !CanRead(m) then Panicked(IndexOutOfBounds)
    else Done(m.(outBuf := m.outBuf + [PtrVal(m)]))
  }

  /** `input_byte` (lines 105-107). */
  function Input(m: Machine): (r: Res)
    ensures r == Panicked(NotImplemented)
  {
    Panicked(NotImplemented)
  }

  /**
   * What a byte adds to `bracket_state` in the scanning loops: the `match` on
   * `byte_to_command` at lines 118-128 and 164-174, +1 for `[`, -1 for `]`.
   */
  function BracketDelta(b: byte): (d: int)
    ensures d == Weight(b)
  {
    match ByteToCommand(b)
    case Some(JumpRightIfZero) => 1
    case Some(JumpLeftIfNonZero) => -1
    case _ => 0
  }

  /**
   * The skip loop of `jump_right_if_zero` (lines 117-134) for a given
   * `pre_bracket_state`: moves bytes from the front of `in_buf` to the top of
   * the jump stack, counting brackets, until the count is back at `pre` or
   * `in_buf` is empty. No byte is lost or reordered.
   */
  function Skip(m: Machine, pre: int): Machine
    decreases |m.inBuf|
  {
    if |m.inBuf| > 0 && m.bracketState != pre then
      var b := m.inBuf[0];
      Skip(m.(bracketState := m.bracketState + BracketDelta(b), jumpStack := m.jumpStack + [b], inBuf := m.inBuf[1..]), pre)
    else m
  }

  /**
   * The skip loop loses and reorders no byte and touches nothing but `in_buf`,
   * the jump stack and `bracket_state`.
   */
  lemma {:induction false} SkipMoves(m: Machine, pre: int)
    ensures Skip(m, pre).jumpStack + Skip(m, pre).inBuf == m.jumpStack + m.inBuf
    ensures |Skip(m, pre).inBuf| == 0 || Skip(m, pre).bracketState == pre
    ensures Skip(m, pre).(inBuf := m.inBuf, jumpStack := m.jumpStack, bracketState := m.bracketState) == m
    decreases |m.inBuf|
  {
    if |m.inBuf| > 0 && m.bracketState != pre {
      var b := m.inBuf[0];
      var m1 := m.(bracketState := m.bracketState + BracketDelta(b), jumpStack := m.jumpStack + [b], inBuf := m.inBuf[1..]);
      SkipMoves(m1, pre);
      assert m.inBuf == [b] + m1.inBuf;
    }
  }

  /** What the skip loop adds to `bracket_state` is the balance of the bytes it moved. */
  lemma {:induction false} SkipCounts(m: Machine, pre: int)
    ensures |m.jumpStack| <= |Skip(m, pre).jumpStack|
    ensures Skip(m, pre).bracketState == m.bracketState + Balance(Skip(m, pre).jumpStack[|m.jumpStack|..])
    decreases |m.inBuf|
  {
    if |m.inBuf| > 0 && m.bracketState != pre {
      var b := m.inBuf[0];
      var m1 := m.(bracketState := m.bracketState + BracketDelta(b), jumpStack := m.jumpStack + [b], inBuf := m.inBuf[1..]);
      var r := Skip(m1, pre);
      assert Skip(m, pre) == r;
      SkipCounts(m1, pre);
      var n := |m.jumpStack|;
      var tail := r.jumpStack[n + 1..];
      assert r.bracketState == m1.bracketState + Balance(tail);
      assert r.jumpStack[n] == b by {
        SkipMoves(m1, pre);
        assert (r.jumpStack + r.inBuf)[n] == (m1.jumpStack + m1.inBuf)[n];
      }
      assert r.jumpStack[n..] == [b] + tail;
      BalancePrepend(b, tail);
    } else {
      assert m.jumpStack[|m.jumpStack|..] == [];
    }
  }

  /**
   * `jump_right_if_zero` (lines 110-141). `pre_bracket_state` is read from
   * `bracket_state` itself, so the skip loop stops before its first iteration
   * and the error check cannot fire: `[` changes nothing, for every cell value
   * and every `bracket_state`, and panics only where `ptr_val` does.
   */
  function JumpRight(m: Machine): (r: Res)
    ensures r == if CanRead(m) then Done(m) else Panicked(IndexOutOfBounds)
  {
    var pre := m.bracketState;
    if !CanRead(m) then Panicked(IndexOutOfBounds)
    else if PtrVal(m) == 0 then Done(SkipChecked(m, pre))
    else Done(m)
  }

  /**
   * The skip loop and the error check after it (lines 117-139): "could not find
   * closing ]" when `in_buf` ran out before the count was back at `pre`.
   */
  function SkipChecked(m: Machine, pre: int): (r: Machine)
    ensures r.errorFlg <==> m.errorFlg || Skip(m, pre).bracketState != pre
    ensures Skip(m, pre).bracketState != pre ==> r == Flag(Skip(m, pre), NoClosing)
    ensures m.bracketState == pre ==> r == m
  {
    SkipMoves(m, pre);
    var m1 := Skip(m, pre);
    if m1.bracketState != pre then Flag(m1, NoClosing) else m1
  }

  /**
   * The rewind loop of `jump_left_if_non_zero` (lines 163-178): moves bytes from
   * the top of the jump stack to the front of `in_buf`, counting brackets, until
   * the count is back at `pre`; an empty stack panics at `len() - 1`.
   */
  function Rewind(m: Machine, pre: int): (r: Res)
    ensures r.Done? ==> r.m.jumpStack + r.m.inBuf == m.jumpStack + m.inBuf
    ensures r.Done? ==> |r.m.jumpStack| <= |m.jumpStack|
    ensures r.Done? ==> r.m == m.(inBuf := r.m.inBuf, jumpStack := r.m.jumpStack, bracketState := pre)
    ensures r.Panicked? ==> r.reason == SubtractOverflow
    ensures m.bracketState != pre && |m.jumpStack| == 0 ==> r == Panicked(SubtractOverflow)
    ensures r.Done? && m.bracketState < pre ==>
      |r.m.jumpStack| < |m.jumpStack| && |r.m.inBuf| > 0 && r.m.inBuf[0] == OpenBracket
    decreases |m.jumpStack|
  {
    if m.bracketState == pre then Done(m)
    else if |m.jumpStack| == 0 then Panicked(SubtractOverflow)
    else
      assert m.jumpStack == m.jumpStack[..|m.jumpStack| - 1] + [m.jumpStack[|m.jumpStack| - 1]];
      Rewind(RewoundOne(m), pre)
  }

  /** One iteration of the rewind loop: the top of the jump stack goes to the front of `in_buf`. */
  function RewoundOne(m: Machine): Machine
    requires |m.jumpStack| > 0
  {
    var n := |m.jumpStack| - 1;
    var b := m.jumpStack[n];
    m.(bracketState := m.bracketState + BracketDelta(b), inBuf := [b] + m.inBuf, jumpStack := m.jumpStack[..n])
  }

  /**
   * What the rewind loop takes off the jump stack has the bracket balance that
   * brings `bracket_state` to `pre`: the counterpart of `SkipCounts`.
   */
  lemma {:induction false} RewindCounts(m: Machine, pre: int)
    ensures var r := Rewind(m, pre);
      r.Done? ==> pre == m.bracketState + Balance(m.jumpStack[|r.m.jumpStack|..])
    decreases |m.jumpStack|
  {
    var r := Rewind(m, pre);
    if m.bracketState == pre {
      assert m.jumpStack[|m.jumpStack|..] == [];
    } else if |m.jumpStack| > 0 && r.Done? {
      var n := |m.jumpStack| - 1;
      var b := m.jumpStack[n];
      var m1 := RewoundOne(m);
      assert r == Rewind(m1, pre);
      RewindCounts(m1, pre);
      var k := |r.m.jumpStack|;
      var taken := m.jumpStack[k..];
      assert taken[..|taken| - 1] == m1.jumpStack[k..];
      assert taken[|taken| - 1] == b;
    }
  }

  /** The rewind loop goes on from where one iteration leaves it. */
  lemma RewindStep(m: Machine, pre: int)
    requires m.bracketState != pre && |m.jumpStack| > 0
    ensures Rewind(m, pre) == Rewind(RewoundOne(m), pre)
  {
  }

  /** `in_buf.pop_front()` into `current_byte`. */
  function PopFront(m: Machine): (r: Machine)
    ensures |m.inBuf| > 0 ==> r.currentByte == Some(m.inBuf[0]) && r.inBuf == m.inBuf[1..]
    ensures |m.inBuf| == 0 ==> r.currentByte.None? && r.inBuf == []
    ensures r.(inBuf := m.inBuf, currentByte := m.currentByte) == m
  {
    if |m.inBuf| == 0 then m.(currentByte := None)
    else m.(currentByte := Some(m.inBuf[0]), inBuf := m.inBuf[1..])
  }

  /**
   * `jump_left_if_non_zero` (lines 144-183). With `bracket_state` 0 it records
   * "unmatched ]" and changes nothing else. Otherwise, on a nonzero cell, `]` and
   * the rewound bytes go back in front of `in_buf` and the first of them, the
   * matching `[`, becomes `current_byte`; no byte is lost or reordered.
   */
  function JumpLeft(m: Machine): (r: Res)
    ensures m.bracketState == 0 ==> r == Done(Flag(m, Unmatched))
    ensures m.bracketState != 0 && !CanRead(m) ==> r == Panicked(IndexOutOfBounds)
    ensures m.bracketState != 0 && CanRead(m) && PtrVal(m) == 0 ==>
      r == Done(m.(bracketState := m.bracketState - 1))
    ensures m.bracketState != 0 && CanRead(m) && PtrVal(m) > 0 && m.currentByte.None? ==>
      r == Panicked(UnwrapNone)
    ensures r.Done? && m.currentByte.Some? ==>
      (r.m.currentByte.Some? &&
       r.m.jumpStack + [r.m.currentByte.value] + r.m.inBuf == m.jumpStack + [m.currentByte.value] + m.inBuf)
    ensures m.bracketState != 0 && CanRead(m) && PtrVal(m) > 0 && r.Done? ==>
      && r.m.currentByte == Some(OpenBracket)
      && |r.m.jumpStack| < |m.jumpStack|
    ensures r.Done? ==>
      r.m.bracketState == if m.bracketState != 0 && CanRead(m) && PtrVal(m) == 0 then m.bracketState - 1 else m.bracketState
    ensures r.Done? ==> r.m.dataPtr == m.dataPtr && r.m.mem == m.mem && r.m.outBuf == m.outBuf
    ensures r.Done? ==> r.m.errorFlg == (m.errorFlg || m.bracketState == 0)
  {
    if m.bracketState == 0 then Done(Flag(m, Unmatched))
    else
      var pre := m.bracketState;
      var m1 := m.(bracketState := m.bracketState - 1);
      if !CanRead(m1) then Panicked(IndexOutOfBounds)
      else if PtrVal(m1) > 0 then
        match m1.currentByte
        case None => Panicked(UnwrapNone)
        case Some(b) =>
          var m2 := m1.(inBuf := [b] + m1.inBuf);
          match Rewind(m2, pre)
          case Panicked(p) => Panicked(p)
          case Done(m3) =>
            assert m3.inBuf == [m3.inBuf[0]] + m3.inBuf[1..];
            var m4 := PopFront(m3);
            assert m4.jumpStack + [m4.currentByte.value] + m4.inBuf == m3.jumpStack + m3.inBuf;
            assert m2.jumpStack + m2.inBuf == m.jumpStack + [b] + m.inBuf;
            Done(m4)
      else Done(m1)
  }

  /**
   * The handler `run` dispatches `cmd` to (lines 195-204). No handler changes
   * the tape length or shortens `out_buf`; with `bracket_state` 0 none touches
   * `in_buf`, the jump stack, `current_byte` or `bracket_state`.
   */
  function Handle(cmd: Command, m: Machine): (r: Res)
  {
    match cmd
    case MovePointerRight => Done(MoveRight(m))
    case MovePointerLeft => Done(MoveLeft(m))
    case IncrementByte => Increment(m)
    case DecrementByte => Decrement(m)
    case OutputByte => Output(m)
    case InputByte => Input(m)
    case JumpRightIfZero => JumpRight(m)
    case JumpLeftIfNonZero => JumpLeft(m)
  }

  /** `jump_stack.push(current_byte.unwrap())` (line 208). */
  function Push(m: Machine): (r: Res)
    ensures r.Done? <==> m.currentByte.Some?
    ensures r.Done? ==> r.m == m.(jumpStack := m.jumpStack + [m.currentByte.value])
  {
    match m.currentByte
    case None => Panicked(UnwrapNone)
    case Some(b) => Done(m.(jumpStack := m.jumpStack + [b]))
  }

  /**
   * One iteration of the loop of `run` (lines 193-208): pop, dispatch, push. A
   * byte that is not a command only moves from `in_buf` to the jump stack and
   * into `current_byte`.
   */
  function Step(m: Machine): (r: Res)
    requires |m.inBuf| > 0
  {
    var m1 := PopFront(m);
    match ByteToCommand(m.inBuf[0])
    case None => Push(m1)
    case Some(cmd) =>
      match Handle(cmd, m1)
      case Panicked(p) => Panicked(p)
      case Done(m2) => Push(m2)
  }

  /**
   * The `while in_buf.len() > 0 && !error_flg` loop of `run` (lines 192-209),
   * from a machine whose `bracket_state` is 0. It consumes `in_buf` from the
   * front onto the jump stack and stops only when `in_buf` is empty or an error
   * is recorded; `bracket_state` stays 0.
   */
  function Loop(m: Machine): (r: Res)
    requires m.bracketState == 0
    ensures r.Done? ==> r.m.jumpStack + r.m.inBuf == m.jumpStack + m.inBuf
    ensures r.Done? ==> |r.m.inBuf| == 0 || r.m.errorFlg
    ensures r.Done? ==> r.m.bracketState == 0
    ensures r.Done? ==> |r.m.mem| == |m.mem| && r.m.runFlg == m.runFlg && r.m.termFlg == m.termFlg
    decreases |m.inBuf|
  {
    if |m.inBuf| == 0 || m.errorFlg then Done(m)
    else
      StepConsumes(m);
      match Step(m)
      case Panicked(p) => Panicked(p)
      case Done(m1) =>
        assert m1.jumpStack + m1.inBuf == m.jumpStack + m.inBuf by {
          assert m.inBuf == [m.inBuf[0]] + m.inBuf[1..];
        }
        Loop(m1)
  }

  /** `run` (lines 185-214): the loop between raising `run_flg` and lowering it and raising `term_flg`. */
  function Run(m: Machine): (r: Res)
    requires m.bracketState == 0
    ensures r.Done? ==> !r.m.runFlg && r.m.termFlg
    ensures r.Done? ==> r.m.jumpStack + r.m.inBuf == m.jumpStack + m.inBuf
    ensures r.Done? ==> |r.m.inBuf| == 0 || r.m.errorFlg
    ensures r.Done? ==> r.m.bracketState == 0 && |r.m.mem| == |m.mem|
  {
    match Loop(m.(runFlg := true))
    case Panicked(p) => Panicked(p)
    case Done(m1) => Done(m1.(runFlg := false, termFlg := true))
  }

  /** `fill_in_buff` (lines 216-220) on a program given as its bytes. */
  function FillInBuff(m: Machine, prog: seq<byte>): Machine
  {
    m.(inBuf := m.inBuf + prog)
  }

  // ----- one iteration -----

  /**
   * With `bracket_state` 0 an iteration that does not panic moves exactly the
   * front byte of `in_buf` to the top of the jump stack and leaves
   * `bracket_state` at 0.
   */
  lemma StepConsumes(m: Machine)
    requires |m.inBuf| > 0 && m.bracketState == 0
    ensures Step(m).Done? ==>
      && Step(m).m.inBuf == m.inBuf[1..]
      && Step(m).m.jumpStack == m.jumpStack + [m.inBuf[0]]
      && Step(m).m.bracketState == 0
  {
  }

  /** An iteration that does not panic or record an error is followed by the rest of the loop. */
  lemma LoopUnfold(m: Machine)
    requires m.bracketState == 0 && |m.inBuf| > 0 && !m.errorFlg && Step(m).Done?
    ensures Step(m).m.bracketState == 0 && Loop(m) == Loop(Step(m).m)
  {
    StepConsumes(m);
  }

  /** What `+`, `-` and `[` add to the current cell: 1, -1 and 0. */
  function CellDelta(b: byte): int
  {
    if b == 43 then 1 else if b == 45 then -1 else 0
  }

  /**
   * The machine after an iteration on `+`, `-` or `[`: the front byte of
   * `in_buf` consumed and pushed, the cell changed by `CellDelta` modulo 256.
   */
  function Consumed(m: Machine): (r: Machine)
    requires |m.inBuf| > 0 && CanRead(m)
    ensures r.inBuf == m.inBuf[1..] && r.dataPtr == m.dataPtr && |r.mem| == |m.mem|
    ensures r.mem[m.dataPtr] == (m.mem[m.dataPtr] + CellDelta(m.inBuf[0])) % 256
    ensures r.bracketState == m.bracketState && r.errorFlg == m.errorFlg && r.outBuf == m.outBuf
  {
    var b := m.inBuf[0];
    m.(inBuf := m.inBuf[1..], currentByte := Some(b), jumpStack := m.jumpStack + [b],
       mem := m.mem[m.dataPtr := (m.mem[m.dataPtr] + CellDelta(b)) % 256])
  }

  /**
   * With `bracket_state` 0, `+` and `-` over a cell on the tape change it by one
   * modulo 256 and `[` changes nothing; the loop goes on with the rest.
   */
  lemma LoopCellCommand(m: Machine)
    requires m.bracketState == 0 && !m.errorFlg && |m.inBuf| > 0 && CanRead(m)
    requires m.inBuf[0] == 43 || m.inBuf[0] == 45 || m.inBuf[0] == OpenBracket
    ensures Consumed(m).bracketState == 0 && Loop(m) == Loop(Consumed(m))
  {
    var b := m.inBuf[0];
    if b == OpenBracket {
      assert m.mem[m.dataPtr := (m.mem[m.dataPtr] + 0) % 256] == m.mem;
    }
    assert Step(m) == Done(Consumed(m));
    LoopUnfold(m);
  }

  /**
   * The machine after `steps` iterations on the byte `b` (`+` or `-`), each
   * changing the current cell by `CellDelta(b)` modulo 256, with `rest` left in
   * `in_buf`.
   */
  function CellRepeated(m: Machine, b: byte, steps: nat, rest: seq<byte>): (r: Machine)
    requires CanRead(m)
    ensures r.inBuf == rest && r.dataPtr == m.dataPtr && |r.mem| == |m.mem|
    ensures b == 43 ==> r.mem[m.dataPtr] == (m.mem[m.dataPtr] + steps) % 256
    ensures b == 45 ==> r.mem[m.dataPtr] == (m.mem[m.dataPtr] - steps) % 256
    ensures r.bracketState == m.bracketState && r.errorFlg == m.errorFlg && r.outBuf == m.outBuf
  {
    m.(inBuf := rest, jumpStack := m.jumpStack + Repeat(b, steps),
       currentByte := if steps == 0 then m.currentByte else Some(b),
       mem := m.mem[m.dataPtr := (m.mem[m.dataPtr] + steps * CellDelta(b)) % 256])
  }

  /** One iteration on `b` followed by `steps - 1` more is `steps` of them. */
  lemma CellRepeatedTwice(m: Machine, b: byte, steps: nat, rest: seq<byte>)
    requires CanRead(m) && |m.inBuf| > 0 && m.inBuf[0] == b && steps >= 1
    ensures CellRepeated(Consumed(m), b, steps - 1, rest) == CellRepeated(m, b, steps, rest)
  {
    var p := m.dataPtr;
    var v := m.mem[p];
    var d := CellDelta(b);
    assert v + d + (steps - 1) * d == v + steps * d;
    ModAdd(v + d, (steps - 1) * d);
    var w := (v + steps * d) % 256;
    assert m.mem[p := (v + d) % 256][p := w] == m.mem[p := w];
    assert m.jumpStack + [b] + Repeat(b, steps - 1) == m.jumpStack + Repeat(b, steps);
  }

  /**
   * With `bracket_state` 0, `n` times `+` (or `-`) at the front of `in_buf`
   * changes the current cell by `n` (or `-n`) modulo 256; the loop then goes on
   * with the rest.
   */
  lemma {:induction false} CellsWrap(m: Machine, b: byte, n: nat, rest: seq<byte>)
    requires m.bracketState == 0 && !m.errorFlg && CanRead(m) && (b == 43 || b == 45)
    requires m.inBuf == Repeat(b, n) + rest
    ensures Loop(m) == Loop(CellRepeated(m, b, n, rest))
    decreases n
  {
    if n == 0 {
      assert m.inBuf == rest;
      CellRepeatedNone(m, b);
    } else {
      var m1 := Consumed(m);
      assert m1.inBuf == Repeat(b, n - 1) + rest;
      CellRepeatedTwice(m, b, n, rest);
      LoopCellCommand(m);
      CellsWrap(m1, b, n - 1, rest);
    }
  }

  /** No repetition at all leaves the machine as it is. */
  lemma CellRepeatedNone(m: Machine, b: byte)
    requires CanRead(m)
    ensures CellRepeated(m, b, 0, m.inBuf) == m
  {
    assert m.mem[m.dataPtr := (m.mem[m.dataPtr] + 0) % 256] == m.mem;
    assert m.jumpStack + Repeat(b, 0) == m.jumpStack;
  }

  /** `]` with `bracket_state` 0 records "unmatched ]", whatever the cell holds. */
  lemma CloseFails(m: Machine)
    requires |m.inBuf| > 0 && m.inBuf[0] == CloseBracket && m.bracketState == 0
    ensures Step(m).Done? && Step(m).m.errorFlg && Step(m).m.errorMsg == Some(Unmatched)
  {
  }

  /** While no error is recorded the pointer stays inside `mem`. */
  lemma StepKeepsPointer(m: Machine)
    requires |m.inBuf| > 0 && CanRead(m)
    ensures Step(m).Done? ==> Step(m).m.errorFlg || CanRead(Step(m).m)
    ensures Step(m).Done? ==> |Step(m).m.mem| == |m.mem|
  {
  }

  /** No iteration clears the error flag or takes anything off `out_buf`. */
  lemma StepMonotone(m: Machine)
    requires |m.inBuf| > 0
    ensures Step(m).Done? ==> (m.errorFlg ==> Step(m).m.errorFlg)
    ensures Step(m).Done? ==> m.outBuf <= Step(m).m.outBuf
  {
  }

  /**
   * For every `bracket_state`, an iteration that does not panic keeps the byte
   * history `jump_stack ++ in_buf` unchanged: bytes only move between the two.
   */
  lemma StepKeepsTrace(m: Machine)
    requires |m.inBuf| > 0
    ensures Step(m).Done? ==> Step(m).m.jumpStack + Step(m).m.inBuf == m.jumpStack + m.inBuf
  {
    var b := m.inBuf[0];
    var m1 := PopFront(m);
    assert m.inBuf == [b] + m1.inBuf;
    match ByteToCommand(b)
    case None =>
    case Some(cmd) => HandleKeepsTrace(cmd, m1);
  }

  /** A handler that does not panic keeps `jump_stack ++ [current_byte] ++ in_buf`. */
  lemma HandleKeepsTrace(cmd: Command, m: Machine)
    requires m.currentByte.Some?
    ensures var h := Handle(cmd, m);
      h.Done? ==> h.m.currentByte.Some? && h.m.jumpStack + [h.m.currentByte.value] + h.m.inBuf == m.jumpStack + [m.currentByte.value] + m.inBuf
  {
  }

  // ----- the loop -----

  /** `out_buf` only grows, and a recorded error is never cleared. */
  lemma {:induction false} LoopMonotone(m: Machine)
    requires m.bracketState == 0
    ensures Loop(m).Done? ==> m.outBuf <= Loop(m).m.outBuf
    ensures Loop(m).Done? ==> (m.errorFlg ==> Loop(m).m.errorFlg)
    decreases |m.inBuf|
  {
    if |m.inBuf| > 0 && !m.errorFlg {
      StepConsumes(m);
      StepMonotone(m);
      if Step(m).Done? {
        LoopMonotone(Step(m).m);
      }
    }
  }

  /**
   * `!error_flg ==> data_ptr < mem_size` holds at every head of the loop, so it
   * holds when the loop ends.
   */
  lemma {:induction false} LoopKeepsPointer(m: Machine)
    requires m.bracketState == 0 && CanRead(m)
    ensures Loop(m).Done? ==> Loop(m).m.errorFlg || CanRead(Loop(m).m)
    decreases |m.inBuf|
  {
    if |m.inBuf| > 0 && !m.errorFlg {
      StepConsumes(m);
      StepKeepsPointer(m);
      if Step(m).Done? && !Step(m).m.errorFlg {
        LoopKeepsPointer(Step(m).m);
      }
    }
  }

  /** A program that still holds a `]` ends in a panic or with the error flag up. */
  lemma {:induction false} CloseAlwaysFails(m: Machine)
    requires m.bracketState == 0 && CloseBracket in m.inBuf
    ensures Loop(m).Panicked? || Loop(m).m.errorFlg
    decreases |m.inBuf|
  {
    if !m.errorFlg {
      StepConsumes(m);
      if m.inBuf[0] == CloseBracket {
        CloseFails(m);
        LoopMonotone(Step(m).m);
      } else if Step(m).Done? {
        assert CloseBracket in m.inBuf[1..];
        CloseAlwaysFails(Step(m).m);
      }
    }
  }

  /**
   * A run that ends without a panic performed one iteration per byte it moved
   * to the jump stack, so at most `|in_buf|` of them.
   */
  lemma RunIterations(m: Machine)
    requires m.bracketState == 0
    ensures Run(m).Done? ==> |Run(m).m.jumpStack| - |m.jumpStack| == |m.inBuf| - |Run(m).m.inBuf| <= |m.inBuf|
  {
    if Run(m).Done? {
      assert |Run(m).m.jumpStack + Run(m).m.inBuf| == |m.jumpStack + m.inBuf|;
    }
  }
}
