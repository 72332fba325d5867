/**
 * The programs of the unit tests of both implementations, run through the
 * models: what each machine leaves behind, as the code is written. Where a
 * test expects something the code does not do, the lemma states what the code
 * does. Tape sizes are parameters, so each lemma covers every tape size on
 * which the program behaves the same way.
 */
module Scenarios {
  import opened Wrappers
  import opened Bytes
  import PyS = PySemantics
  import RsS = RustSemantics

  /** A fresh `BFI(mem_sz)` with `prog` assigned to `in_buf`, then `run()`. */
  function PyRun(memSz: nat, prog: seq<byte>): PyS.Halt
  {
    PyS.Run(PyS.Init(memSz).(inBuf := prog))
  }

  /** The object as the loop of `run` first sees it. */
  function PyStart(memSz: nat, prog: seq<byte>): (c: PyS.Config)
    ensures c.inBuf == prog && c.ptr == 0 && |c.mem| == memSz && c.parenState == 0
    ensures c.flgRun && !c.flgErr && c.outBuf == [] && c.jumpStack == [] && c.inBufIdx == 0
    ensures memSz > 0 ==> PyS.CanRead(c) && PyS.Cell(c) == 0
  {
    PyS.Init(memSz).(inBuf := prog, flgRun := true)
  }

  /** A fresh `BFInterpreter::new(mem_size)`, `fill_in_buff(prog)`, then `run()`. */
  function RsRun(memSize: nat, prog: seq<byte>): RsS.Res
  {
    RsS.Run(RsS.FillInBuff(RsS.New(memSize), prog))
  }

  /** The interpreter as the loop of `run` first sees it. */
  function RsStart(memSize: nat, prog: seq<byte>): (m: RsS.Machine)
    ensures m.inBuf == prog && m.dataPtr == 0 && |m.mem| == memSize && m.bracketState == 0
    ensures m.runFlg && !m.errorFlg && m.outBuf == [] && m.jumpStack == []
    ensures memSize > 0 ==> m.mem[0] == 0
  {
    RsS.FillInBuff(RsS.New(memSize), prog).(runFlg := true)
  }

  // ----- bfipy/test/interpreter.py -----

  /** `>` on two or more cells moves the pointer to 1 and ends without error. */
  lemma PyMoveRight(memSz: nat)
    requires memSz >= 2
    ensures var h := PyRun(memSz, [62]);
      h.outcome == PyS.Returned && h.final.ptr == 1 && !h.final.flgErr && !h.final.flgRun && h.final.flgTrm
  {
    var c := PyStart(memSz, [62]);
    PyS.PointerMoves(c);
    PyS.LoopUnfold(c);
  }

  /** `><` on two or more cells brings the pointer back to 0 without error. */
  lemma PyMoveLeft(memSz: nat)
    requires memSz >= 2
    ensures var h := PyRun(memSz, [62, 60]);
      h.outcome == PyS.Returned && h.final.ptr == 0 && !h.final.flgErr && !h.final.flgRun && h.final.flgTrm
  {
    var c0 := PyStart(memSz, [62, 60]);
    PyS.PointerMoves(c0);
    PyS.LoopUnfold(c0);
    var c1 := PyS.Step(c0).c;
    assert c1.ptr == 1 && c1.inBuf == [60] && !c1.flgErr && c1.parenState == 0;
    PyS.PointerMoves(c1);
    PyS.LoopUnfold(c1);
  }

  /** `>>>>` on three cells stops at the third move with the overrun message. */
  lemma PyOverrun(memSz: nat)
    requires memSz == 3
    ensures var h := PyRun(memSz, [62, 62, 62, 62]);
      && h.outcome == PyS.Returned && h.final.flgErr && !h.final.flgRun && h.final.flgTrm
      && h.final.errMsg == "data pointer overran memory size"
      && h.final.ptr == 3 && h.final.inBuf == [62]
  {
    var c0 := PyStart(memSz, [62, 62, 62, 62]);
    PyS.PointerMoves(c0);
    PyS.LoopUnfold(c0);
    var c1 := PyS.Step(c0).c;
    assert c1.ptr == 1 && c1.inBuf == [62, 62, 62] && !c1.flgErr && |c1.mem| == 3;
    PyS.PointerMoves(c1);
    PyS.LoopUnfold(c1);
    var c2 := PyS.Step(c1).c;
    assert c2.ptr == 2 && c2.inBuf == [62, 62] && !c2.flgErr && |c2.mem| == 3;
    PyS.PointerMoves(c2);
  }

  /** `<` from cell 0 fails at once with the underrun message, whatever the tape size. */
  lemma PyUnderrun(memSz: nat)
    ensures var h := PyRun(memSz, [60]);
      && h.outcome == PyS.Returned && h.final.flgErr && !h.final.flgRun && h.final.flgTrm
      && h.final.errMsg == "data pointer underran memory size"
  {
    PyS.PointerMoves(PyStart(memSz, [60]));
  }

  /**
   * `a` times `+`, `b` times `-`, then `.` outputs exactly the byte `a - b`
   * modulo 256: 0 for `.`, 1 for `+.`, 5 for `+++++.`, 255 for `-.` and 254
   * for `++----.`.
   */
  lemma {:induction false} PyOutput(memSz: nat, a: nat, b: nat)
    requires memSz >= 1
    ensures var h := PyRun(memSz, Repeat(43, a) + Repeat(45, b) + [46]);
      h.outcome == PyS.Returned && !h.final.flgErr && h.final.outBuf == [(a - b) % 256]
    ensures Repeat(43, 0) + Repeat(45, 0) + [46] == [46]
    ensures Repeat(43, 1) + Repeat(45, 0) + [46] == [43, 46]
    ensures Repeat(43, 5) + Repeat(45, 0) + [46] == [43, 43, 43, 43, 43, 46]
    ensures Repeat(43, 0) + Repeat(45, 1) + [46] == [45, 46]
    ensures Repeat(43, 2) + Repeat(45, 4) + [46] == [43, 43, 45, 45, 45, 45, 46]
  {
    assert Repeat(43, 0) + Repeat(45, 0) + [46] == [46];
    assert Repeat(43, 1) + Repeat(45, 0) + [46] == [43, 46];
    assert Repeat(43, 5) + Repeat(45, 0) + [46] == [43, 43, 43, 43, 43, 46];
    assert Repeat(43, 0) + Repeat(45, 1) + [46] == [45, 46];
    assert Repeat(43, 2) + Repeat(45, 4) + [46] == [43, 43, 45, 45, 45, 45, 46];
    var prog := Repeat(43, a) + Repeat(45, b) + [46];
    var c0 := PyStart(memSz, prog);
    assert c0.inBuf == Repeat(43, a) + (Repeat(45, b) + [46]);
    var c1 := PyS.CellChanged(c0, Repeat(45, b) + [46], a, 1);
    assert c1.inBuf == Repeat(45, b) + [46];
    var c2 := PyS.CellChanged(c1, [46], b, -1);
    ModAdd(a, -(b as int));
    assert PyS.Cell(c2) == (a - b) % 256;
    var c3 := Emitted(c2);
    assert c3.inBuf == [] && c3.outBuf == [(a - b) % 256];
    PyS.IncrementsWrap(c0, a, Repeat(45, b) + [46]);
    PyS.DecrementsWrap(c1, b, [46]);
    LoopEmit(c2);
    PyEnds(memSz, prog, c3);
  }

  /** `n` times `+` leaves `n` modulo 256 in cell 0: 255 after 255, 0 after 256. */
  lemma PyIncrements(memSz: nat, n: nat)
    requires memSz >= 1
    ensures var h := PyRun(memSz, Repeat(43, n));
      h.outcome == PyS.Returned && !h.final.flgErr && h.final.mem[0] == n % 256
  {
    var c := PyStart(memSz, Repeat(43, n));
    assert c.inBuf == Repeat(43, n) + [];
    PyS.IncrementsWrap(c, n, []);
  }

  /** `+` then `n` times `-` leaves `1 - n` modulo 256 in cell 0: 255 after two, 254 after three. */
  lemma PyDecrements(memSz: nat, n: nat)
    requires memSz >= 1
    ensures var h := PyRun(memSz, [43] + Repeat(45, n));
      h.outcome == PyS.Returned && !h.final.flgErr && h.final.mem[0] == (1 - n) % 256
  {
    var c := PyStart(memSz, [43] + Repeat(45, n));
    PyS.LoopIncrement(c);
    var c1 := PyS.CellChanged(c, Repeat(45, n), 1, 1);
    assert c1.inBuf == Repeat(45, n) + [];
    PyS.DecrementsWrap(c1, n, []);
  }

  /** `,` raises NotImplementedError and leaves the flags as `run` set them. */
  lemma PyInput(memSz: nat)
    ensures var h := PyRun(memSz, [44]);
      h.outcome == PyS.Raised(PyS.NotImplementedError) && h.final.flgRun && !h.final.flgTrm
  {
    PyS.InputRaises(PyStart(memSz, [44]));
  }

  /** `]` alone fails with "unmatched ]". */
  lemma PyUnmatchedClose(memSz: nat)
    ensures var h := PyRun(memSz, [93]);
      h.outcome == PyS.Returned && h.final.flgErr && h.final.flgTrm && h.final.errMsg == "unmatched ]"
  {
    PyS.CloseCounts(PyStart(memSz, [93]));
  }

  /**
   * `[+++` fails with "no closing ] found", not with the "could not find
   * matching ]" the unit test expects.
   */
  lemma PyMissingClose(memSz: nat)
    requires memSz >= 1
    ensures var h := PyRun(memSz, [91, 43, 43, 43]);
      && h.outcome == PyS.Returned && h.final.flgErr && h.final.flgTrm
      && h.final.errMsg == "no closing ] found" && h.final.errMsg != "could not find matching ]"
  {
    var c := PyStart(memSz, [91, 43, 43, 43]);
    var rest: seq<byte> := [43, 43, 43];
    assert c.inBuf[1..] == rest;
    assert CloseBracket !in rest;
    PyS.SkipOnZero(c);
  }

  /**
   * `[+++].` on a zero cell: the body is skipped, the `]` after it finds the
   * cell zero and falls through, and `.` outputs 0.
   */
  lemma PySkipBody(memSz: nat)
    requires memSz >= 1
    ensures var h := PyRun(memSz, [91, 43, 43, 43, 93, 46]);
      h.outcome == PyS.Returned && !h.final.flgErr && h.final.outBuf == [0]
  {
    SkipBodyFrom(PyStart(memSz, [91, 43, 43, 43, 93, 46]));
  }

  /** The loop of `run` on `[+++].`, from any object with a zero current cell and no `[` pending. */
  lemma SkipBodyFrom(c: PyS.Config)
    requires c.inBuf == [91, 43, 43, 43, 93, 46] && PyS.CanRead(c) && PyS.Cell(c) == 0
    requires c.parenState == 0 && !c.flgErr && c.outBuf == []
    ensures var h := PyS.Loop(c);
      h.outcome == PyS.Returned && !h.final.flgErr && h.final.outBuf == [0] && h.final.parenState == 0
  {
    var body: seq<byte> := [43, 43, 43];
    assert c.inBuf == [OpenBracket] + body + [CloseBracket] + [46];
    PyS.SkipBracketFreeBody(c, body, [46]);
    assert Reverse(body) == body;
    PyS.LoopUnfold(c);
    CloseThenOutput(c.(inBuf := [93, 46], parenState := 1, jumpStack := body + [OpenBracket] + c.jumpStack, inBufIdx := c.inBufIdx + 1));
  }

  /** The loop of `run` on `].` with one `[` pending and a zero current cell. */
  lemma CloseThenOutput(c: PyS.Config)
    requires c.inBuf == [93, 46] && PyS.CanRead(c) && PyS.Cell(c) == 0
    requires c.parenState == 1 && !c.flgErr && c.outBuf == []
    ensures var h := PyS.Loop(c);
      h.outcome == PyS.Returned && !h.final.flgErr && h.final.outBuf == [0] && h.final.parenState == 0
  {
    PyS.FallThroughOnZero(c);
    PyS.LoopUnfold(c);
    var c1 := c.(inBuf := [46], parenState := 0, inBufIdx := c.inBufIdx + 1);
    PyS.OutputAppends(c1);
    PyS.LoopUnfold(c1);
  }

  /**
   * `+[++>]<.` on two or more cells: `[` over 1 enters the body, `]` over the
   * zero in cell 1 falls through, and `.` outputs 3.
   */
  lemma PyJumpNonZero(memSz: nat)
    requires memSz >= 2
    ensures var h := PyRun(memSz, [43, 91, 43, 43, 62, 93, 60, 46]);
      h.outcome == PyS.Returned && !h.final.flgErr && h.final.outBuf == [3]
  {
    var prog: seq<byte> := [43, 91, 43, 43, 62, 93, 60, 46];
    var c0 := PyStart(memSz, prog);
    assert c0.mem[0] == 0 && c0.mem[1] == 0;
    var c1 := Bumped(c0);
    assert c1.mem[0] == 1 && c1.ptr == 0 && c1.inBuf == [91, 43, 43, 62, 93, 60, 46];
    var c2 := Entered(c1);
    var c3 := Bumped(c2);
    var c4 := Bumped(c3);
    assert c4.mem[0] == 3 && c4.mem[1] == 0 && c4.inBuf == [62, 93, 60, 46] && c4.parenState == 1;
    var c5 := Moved(c4);
    LoopBump(c0);
    LoopEnter(c1);
    LoopBump(c2);
    LoopBump(c3);
    LoopMove(c4);
    var c6 := CloseBackOut(c5);
    PyEnds(memSz, prog, c6);
  }

  /**
   * `++++>[]<.` on two or more cells: `[` over the zero in cell 1 skips the
   * empty body, `]` falls through, and `.` outputs 4.
   */
  lemma PyEmptyBody(memSz: nat)
    requires memSz >= 2
    ensures var h := PyRun(memSz, [43, 43, 43, 43, 62, 91, 93, 60, 46]);
      h.outcome == PyS.Returned && !h.final.flgErr && h.final.outBuf == [4]
  {
    var prog: seq<byte> := [43, 43, 43, 43, 62, 91, 93, 60, 46];
    var rest: seq<byte> := [62, 91, 93, 60, 46];
    assert prog == Repeat(43, 4) + rest;
    var c0 := PyStart(memSz, prog);
    assert c0.mem[1] == 0;
    var c1 := PyS.CellChanged(c0, rest, 4, 1);
    assert c1.mem[0] == 4 && c1.mem[1] == 0 && c1.ptr == 0 && c1.parenState == 0;
    var c2 := Moved(c1);
    assert c2.inBuf == [91] + [] + [93] + [60, 46] && c2.ptr == 1;
    var c3 := Skipped(c2, [], [60, 46]);
    PyS.IncrementsWrap(c0, 4, rest);
    LoopMove(c1);
    LoopSkip(c2, [], [60, 46]);
    var c4 := CloseBackOut(c3);
    PyEnds(memSz, prog, c4);
  }

  /**
   * The loop of `run` on `]<.` with the pointer on a zero cell 1 and one `[`
   * pending: `]` falls through, `<` moves to cell 0 and `.` outputs it.
   */
  lemma CloseBackOut(c: PyS.Config) returns (c1: PyS.Config)
    requires c.inBuf == [93, 60, 46] && 2 <= |c.mem| && c.ptr == 1 && c.mem[1] == 0 && c.parenState == 1
    ensures PyS.Loop(c) == PyS.Loop(c1)
    ensures c1.inBuf == [] && c1.flgErr == c.flgErr && c1.outBuf == c.outBuf + [c.mem[0]] && c1.parenState == 0
  {
    var l := Left(c);
    var m := Moved(l);
    assert m.ptr == 0 && m.inBuf == [46] && PyS.Cell(m) == c.mem[0];
    c1 := Emitted(m);
    LoopLeave(c);
    LoopMove(l);
    LoopEmit(m);
  }

  /**
   * `n` times `+` and then `[->+<]>.`: with `n` equal to 1 modulo 256 the body
   * runs once and `.` outputs 1. With a larger value in cell 0 the `]` finds
   * it nonzero and scans back for its `[`, but nothing was parked on the jump
   * stack, so `pop(0)` raises IndexError: `++[->+<]>.` and `++++[->+<]>.` do
   * not output 2 and 4.
   */
  lemma {:induction false} PyTransfer(memSz: nat, n: nat)
    requires memSz >= 2 && n % 256 != 0
    ensures var h := PyRun(memSz, Repeat(43, n) + [91, 45, 62, 43, 60, 93, 62, 46]);
      && (n % 256 == 1 ==> h.outcome == PyS.Returned && !h.final.flgErr && h.final.outBuf == [1])
      && (n % 256 >= 2 ==> h.outcome == PyS.Raised(PyS.IndexError) && h.final.outBuf == [])
    ensures Repeat(43, 1) + [91, 45, 62, 43, 60, 93, 62, 46] == [43, 91, 45, 62, 43, 60, 93, 62, 46]
    ensures Repeat(43, 2) + [91, 45, 62, 43, 60, 93, 62, 46] == [43, 43, 91, 45, 62, 43, 60, 93, 62, 46]
    ensures Repeat(43, 4) + [91, 45, 62, 43, 60, 93, 62, 46] == [43, 43, 43, 43, 91, 45, 62, 43, 60, 93, 62, 46]
  {
    var tail: seq<byte> := [91, 45, 62, 43, 60, 93, 62, 46];
    assert Repeat(43, 1) + tail == [43, 91, 45, 62, 43, 60, 93, 62, 46];
    assert Repeat(43, 2) + tail == [43, 43, 91, 45, 62, 43, 60, 93, 62, 46];
    assert Repeat(43, 4) + tail == [43, 43, 43, 43, 91, 45, 62, 43, 60, 93, 62, 46];
    var prog := Repeat(43, n) + tail;
    var c0 := PyStart(memSz, prog);
    assert c0.mem[1] == 0;
    var c1 := PyS.CellChanged(c0, tail, n, 1);
    assert c1.mem[0] == n % 256 && c1.mem[1] == 0 && c1.ptr == 0;
    PyS.IncrementsWrap(c0, n, tail);
    var b := TransferStart(c1);
    if n % 256 == 1 {
      var c2 := CloseOverZero(b);
      PyEnds(memSz, prog, c2);
    } else {
      TransferRaises(b);
    }
  }

  /**
   * The loop of `run` on `[->+<` followed by `]>.`, with pointer 0, a nonzero
   * cell 0 and a zero cell 1: the body runs once, moving one unit from cell 0
   * to cell 1, and the loop goes on at the `]` with the counter at 1.
   */
  lemma TransferStart(c: PyS.Config) returns (b: PyS.Config)
    requires c.inBuf == [91, 45, 62, 43, 60, 93, 62, 46] && 2 <= |c.mem| && c.ptr == 0
    requires c.mem[0] != 0 && c.mem[1] == 0 && c.parenState == 0
    ensures PyS.Loop(c) == PyS.Loop(b)
    ensures b.inBuf == [93, 62, 46] && b.ptr == 0 && |b.mem| == |c.mem| && b.mem[0] == c.mem[0] - 1 && b.mem[1] == 1
    ensures b.parenState == 1 && b.jumpStack == c.jumpStack && b.outBuf == c.outBuf && b.flgErr == c.flgErr
  {
    var e := Entered(c);
    var d := Bumped(e);
    assert d.inBuf == [62, 43, 60, 93, 62, 46] && d.mem[0] == c.mem[0] - 1 && d.mem[1] == 0;
    var m := Moved(d);
    var p := Bumped(m);
    assert p.inBuf == [60, 93, 62, 46] && p.mem[0] == c.mem[0] - 1 && p.mem[1] == 1;
    b := Moved(p);
    LoopEnter(c);
    LoopBump(e);
    LoopMove(d);
    LoopBump(m);
    LoopMove(p);
  }

  /** The loop of `run` on `]>.` with the pointer on a zero cell 0 and one `[` pending: `.` outputs cell 1. */
  lemma CloseOverZero(b: PyS.Config) returns (c1: PyS.Config)
    requires b.inBuf == [93, 62, 46] && 2 <= |b.mem| && b.ptr == 0 && b.mem[0] == 0 && b.parenState == 1
    ensures PyS.Loop(b) == PyS.Loop(c1)
    ensures c1.inBuf == [] && c1.flgErr == b.flgErr && c1.outBuf == b.outBuf + [b.mem[1]] && c1.parenState == 0
  {
    var l := Left(b);
    var r := Moved(l);
    assert r.ptr == 1 && r.inBuf == [46] && PyS.Cell(r) == b.mem[1];
    c1 := Emitted(r);
    LoopLeave(b);
    LoopMove(l);
    LoopEmit(r);
  }

  /**
   * The loop of `run` on `]>.` over a nonzero cell with one `[` pending and
   * nothing parked: the scan back for the `[` raises IndexError.
   */
  lemma TransferRaises(b: PyS.Config)
    requires b.inBuf == [93, 62, 46] && 0 <= b.ptr < |b.mem| && b.mem[b.ptr] != 0 && b.parenState == 1
    requires b.jumpStack == []
    ensures PyS.Loop(b).outcome == PyS.Raised(PyS.IndexError) && PyS.Loop(b).final.outBuf == b.outBuf
  {
    assert PyS.Cell(b) != 0;
    PyS.RepeatOnNonZero(b);
  }

  /**
   * `+++>[[]]<.` on two or more cells: `[` over the zero in cell 1 parks the
   * inner `[`, the first `]` falls through and the second one, with the counter
   * back at 0, ends the run with "unmatched ]" before anything is output.
   */
  lemma PyNestedEmpty(memSz: nat)
    requires memSz >= 2
    ensures var h := PyRun(memSz, [43, 43, 43, 62, 91, 91, 93, 93, 60, 46]);
      h.outcome == PyS.Returned && h.final.flgErr && h.final.errMsg == "unmatched ]" && h.final.outBuf == []
  {
    var prog: seq<byte> := [43, 43, 43, 62, 91, 91, 93, 93, 60, 46];
    var rest: seq<byte> := [62, 91, 91, 93, 93, 60, 46];
    assert prog == Repeat(43, 3) + rest;
    var c0 := PyStart(memSz, prog);
    assert c0.mem[1] == 0;
    var c1 := PyS.CellChanged(c0, rest, 3, 1);
    assert c1.mem[1] == 0 && c1.ptr == 0 && c1.parenState == 0;
    var c2 := Moved(c1);
    assert c2.ptr == 1 && c2.inBuf == [91] + [91] + [93] + [93, 60, 46];
    var c3 := Skipped(c2, [91], [93, 60, 46]);
    assert c3.inBuf == [93, 93, 60, 46] && c3.parenState == 1;
    var c4 := Left(c3);
    assert c4.inBuf == [93, 60, 46] && c4.parenState == 0 && c4.outBuf == [] && !c4.flgErr;
    PyS.CloseCounts(c4);
    PyS.IncrementsWrap(c0, 3, rest);
    LoopMove(c1);
    LoopSkip(c2, [91], [93, 60, 46]);
    LoopLeave(c3);
  }

  /** After `>` or `<`: the byte consumed and the pointer moved. */
  function Moved(c: PyS.Config): PyS.Config
    requires |c.inBuf| > 0
  {
    c.(inBuf := c.inBuf[1..], ptr := if c.inBuf[0] == 62 then c.ptr + 1 else c.ptr - 1, inBufIdx := c.inBufIdx + 1)
  }

  /** After `+` or `-` over a cell on the tape: the byte consumed and the cell changed by one modulo 256. */
  function Bumped(c: PyS.Config): PyS.Config
    requires |c.inBuf| > 0 && 0 <= c.ptr < |c.mem|
  {
    c.(inBuf := c.inBuf[1..], inBufIdx := c.inBufIdx + 1,
       mem := c.mem[c.ptr := (c.mem[c.ptr] as int + (if c.inBuf[0] == 43 then 1 else -1)) % 256])
  }

  /** After `[` over a nonzero cell: the byte consumed and the counter up. */
  function Entered(c: PyS.Config): PyS.Config
    requires |c.inBuf| > 0
  {
    c.(inBuf := c.inBuf[1..], parenState := c.parenState + 1, inBufIdx := c.inBufIdx + 1)
  }

  /** After `[` over a zero cell in front of `body` and a `]`: the body parked, the `]` next. */
  function Skipped(c: PyS.Config, body: seq<byte>, tail: seq<byte>): PyS.Config
  {
    c.(inBuf := [93] + tail, parenState := c.parenState + 1,
       jumpStack := Reverse(body) + [91] + c.jumpStack, inBufIdx := c.inBufIdx + 1)
  }

  /** After `]` over a zero cell: the byte consumed and the counter down. */
  function Left(c: PyS.Config): PyS.Config
    requires |c.inBuf| > 0
  {
    c.(inBuf := c.inBuf[1..], parenState := c.parenState - 1, inBufIdx := c.inBufIdx + 1)
  }

  /** After `.`: the byte consumed and the current cell appended to `out_buf`. */
  function Emitted(c: PyS.Config): PyS.Config
    requires |c.inBuf| > 0 && PyS.CanRead(c)
  {
    c.(inBuf := c.inBuf[1..], inBufIdx := c.inBufIdx + 1, outBuf := c.outBuf + [PyS.Cell(c)])
  }

  /** `>` or `<` to a cell on the tape; the loop goes on from there. */
  lemma LoopMove(c: PyS.Config)
    requires |c.inBuf| > 0 && (c.inBuf[0] == 62 || c.inBuf[0] == 60)
    requires 0 <= (if c.inBuf[0] == 62 then c.ptr + 1 else c.ptr - 1) < |c.mem|
    ensures PyS.Loop(c) == PyS.Loop(Moved(c))
  {
    PyS.PointerMoves(c);
    assert PyS.Step(c) == PyS.Next(Moved(c));
    PyS.LoopUnfold(c);
  }

  /** `+` or `-` over a cell on the tape; the loop goes on from there. */
  lemma LoopBump(c: PyS.Config)
    requires |c.inBuf| > 0 && (c.inBuf[0] == 43 || c.inBuf[0] == 45) && 0 <= c.ptr < |c.mem|
    ensures PyS.Loop(c) == PyS.Loop(Bumped(c))
  {
    assert PyS.Slot(c.ptr, |c.mem|) == c.ptr && PyS.Cell(c) == c.mem[c.ptr];
    if c.inBuf[0] == 43 {
      PyS.IncrementWraps(c);
    } else {
      PyS.DecrementWraps(c);
    }
    PyS.LoopUnfold(c);
  }

  /** `[` over a nonzero cell on the tape; the loop goes on with the body. */
  lemma LoopEnter(c: PyS.Config)
    requires |c.inBuf| > 0 && c.inBuf[0] == 91 && 0 <= c.ptr < |c.mem| && c.mem[c.ptr] != 0
    ensures PyS.Loop(c) == PyS.Loop(Entered(c))
  {
    assert PyS.Slot(c.ptr, |c.mem|) == c.ptr && PyS.Cell(c) == c.mem[c.ptr];
    PyS.EnterOnNonZero(c);
    assert PyS.Step(c) == PyS.Next(Entered(c));
    PyS.LoopUnfold(c);
  }

  /** `[` over a zero cell on the tape in front of a body without `]`; the loop goes on at the `]`. */
  lemma LoopSkip(c: PyS.Config, body: seq<byte>, tail: seq<byte>)
    requires c.inBuf == [91] + body + [93] + tail && CloseBracket !in body
    requires 0 <= c.ptr < |c.mem| && c.mem[c.ptr] == 0
    ensures PyS.Loop(c) == PyS.Loop(Skipped(c, body, tail))
  {
    assert PyS.Slot(c.ptr, |c.mem|) == c.ptr && PyS.Cell(c) == c.mem[c.ptr];
    PyS.SkipBracketFreeBody(c, body, tail);
    assert PyS.Step(c) == PyS.Next(Skipped(c, body, tail));
    PyS.LoopUnfold(c);
  }

  /** `]` over a zero cell on the tape with a `[` pending; the loop goes on after it. */
  lemma LoopLeave(c: PyS.Config)
    requires |c.inBuf| > 0 && c.inBuf[0] == 93 && c.parenState >= 1 && 0 <= c.ptr < |c.mem| && c.mem[c.ptr] == 0
    ensures PyS.Loop(c) == PyS.Loop(Left(c))
  {
    assert PyS.Slot(c.ptr, |c.mem|) == c.ptr && PyS.Cell(c) == c.mem[c.ptr];
    PyS.FallThroughOnZero(c);
    assert PyS.Step(c) == PyS.Next(Left(c));
    PyS.LoopUnfold(c);
  }

  /** `.` over a cell on the tape; the loop goes on with the cell appended to `out_buf`. */
  lemma LoopEmit(c: PyS.Config)
    requires |c.inBuf| > 0 && c.inBuf[0] == 46 && PyS.CanRead(c)
    ensures PyS.Loop(c) == PyS.Loop(Emitted(c))
  {
    PyS.OutputAppends(c);
    PyS.LoopUnfold(c);
  }

  /** A run whose loop consumes all of `in_buf` with the counter back at 0 and no error returns cleanly. */
  lemma PyEnds(memSz: nat, prog: seq<byte>, c: PyS.Config)
    requires c.inBuf == [] && !c.flgErr && c.parenState == 0
    requires PyS.Loop(PyStart(memSz, prog)) == PyS.Loop(c)
    ensures var h := PyRun(memSz, prog);
      h.outcome == PyS.Returned && !h.final.flgErr && h.final.outBuf == c.outBuf
  {
  }

  // ----- the tests of src/interpreter.rs -----

  /** `+++` leaves 3 in cell 0; more generally, `n` times `+` leaves `n` modulo 256. */
  lemma {:induction false} RsIncrements(memSize: nat, n: nat)
    requires memSize >= 1
    ensures var r := RsRun(memSize, Repeat(43, n)); r.Done? && r.m.mem[0] == n % 256
    ensures Repeat(43, 3) == [43, 43, 43]
  {
    assert Repeat(43, 3) == [43, 43, 43];
    var prog := Repeat(43, n);
    var m0 := RsStart(memSize, prog);
    assert m0.inBuf == prog + [];
    var m1 := RsS.CellRepeated(m0, 43, n, []);
    assert m1.mem[0] == n % 256;
    RsS.CellsWrap(m0, 43, n, []);
    RsLoopEnds(memSize, prog, m1);
  }

  /** `+++---` leaves 0 in cell 0; more generally, `n` times `+` then `n` times `-` does. */
  lemma {:induction false} RsIncDec(memSize: nat, n: nat)
    requires memSize >= 1
    ensures var r := RsRun(memSize, Repeat(43, n) + Repeat(45, n)); r.Done? && r.m.mem[0] == 0
    ensures Repeat(43, 3) + Repeat(45, 3) == [43, 43, 43, 45, 45, 45]
  {
    assert Repeat(43, 3) == [43, 43, 43] && Repeat(45, 3) == [45, 45, 45];
    var prog := Repeat(43, n) + Repeat(45, n);
    var m0 := RsStart(memSize, prog);
    var m1 := RsS.CellRepeated(m0, 43, n, Repeat(45, n));
    assert m1.inBuf == Repeat(45, n) + [];
    var m2 := RsS.CellRepeated(m1, 45, n, []);
    ModAdd(n, -(n as int));
    assert m2.mem[0] == 0;
    RsS.CellsWrap(m0, 43, n, Repeat(45, n));
    RsS.CellsWrap(m1, 45, n, []);
    RsLoopEnds(memSize, prog, m2);
  }

  /** A run whose loop consumes all of `in_buf` without an error ends with the loop's machine. */
  lemma {:induction false} RsLoopEnds(memSize: nat, prog: seq<byte>, m: RsS.Machine)
    requires m.inBuf == [] && !m.errorFlg && m.bracketState == 0
    requires RsS.Loop(RsStart(memSize, prog)) == RsS.Loop(m)
    ensures RsRun(memSize, prog) == RsS.Done(m.(runFlg := false, termFlg := true))
  {
  }

  /**
   * `[+++` on the Rust interpreter: `[` changes nothing, so the body runs and
   * the run ends without an error, with 3 in cell 0; the same holds for any
   * number of `+`.
   */
  lemma {:induction false} RsMissingClose(memSize: nat, n: nat)
    requires memSize >= 1
    ensures var r := RsRun(memSize, [91] + Repeat(43, n));
      r.Done? && !r.m.errorFlg && r.m.mem[0] == n % 256
    ensures [91] + Repeat(43, 3) == [91, 43, 43, 43]
  {
    assert Repeat(43, 3) == [43, 43, 43];
    assert [91] + Repeat(43, 3) == [91, 43, 43, 43];
    var prog := [91] + Repeat(43, n);
    var m0 := RsStart(memSize, prog);
    assert m0.inBuf[1..] == Repeat(43, n) + [];
    var m1 := RsS.Consumed(m0);
    assert m1.mem[0] == 0;
    var m2 := RsS.CellRepeated(m1, 43, n, []);
    assert m2.mem[0] == n % 256;
    RsS.LoopCellCommand(m0);
    RsS.CellsWrap(m1, 43, n, []);
    RsLoopEnds(memSize, prog, m2);
  }

  /**
   * `[+++].` on the Rust interpreter stops at the `]` with "unmatched ]", before
   * the `.`; the same holds for any number of `+`.
   */
  lemma {:induction false} RsUnmatchedClose(memSize: nat, n: nat)
    requires memSize >= 1
    ensures var r := RsRun(memSize, [91] + Repeat(43, n) + [93, 46]);
      r.Done? && r.m.errorFlg && r.m.errorMsg == Some(RsS.Unmatched) && r.m.outBuf == [] && r.m.inBuf == [46]
    ensures [91] + Repeat(43, 3) + [93, 46] == [91, 43, 43, 43, 93, 46]
  {
    assert Repeat(43, 3) == [43, 43, 43];
    assert [91] + Repeat(43, 3) + [93, 46] == [91, 43, 43, 43, 93, 46];
    var prog := [91] + Repeat(43, n) + [93, 46];
    var m0 := RsStart(memSize, prog);
    assert m0.inBuf[1..] == Repeat(43, n) + [93, 46];
    var m1 := RsS.Consumed(m0);
    var m2 := RsS.CellRepeated(m1, 43, n, [93, 46]);
    assert m2.outBuf == [] && m2.inBuf == [93, 46];
    RsS.LoopCellCommand(m0);
    RsS.CellsWrap(m1, 43, n, [93, 46]);
    CloseThenStop(m2);
    RsRunOfLoop(memSize, prog);
  }

  /** `run` ends with the machine its loop leaves, the run flag down and the terminated flag up. */
  lemma {:induction false} RsRunOfLoop(memSize: nat, prog: seq<byte>)
    ensures var l := RsS.Loop(RsStart(memSize, prog));
      l.Done? ==> RsRun(memSize, prog) == RsS.Done(l.m.(runFlg := false, termFlg := true))
  {
  }

  /** The loop of `run` on `].` with `bracket_state` 0 stops at the `]` with "unmatched ]". */
  lemma CloseThenStop(m: RsS.Machine)
    requires m.inBuf == [93, 46] && m.bracketState == 0 && !m.errorFlg
    ensures var r := RsS.Loop(m);
      r.Done? && r.m.errorFlg && r.m.errorMsg == Some(RsS.Unmatched) && r.m.outBuf == m.outBuf && r.m.inBuf == [46]
  {
    RsS.CloseFails(m);
    var m1 := RsS.Step(m).m;
    assert m1.inBuf == [46] && m1.outBuf == m.outBuf && m1.errorFlg;
  }
}
