/**
 * How the two implementations relate: their `Command` enums correspond one to
 * one, their decoders agree on every byte, and on programs without brackets
 * (where the jump logic of the two differs) they compute the same tape, the
 * same output and the same error flag, and fail in corresponding ways.
 */
module Agreement {
  import opened Wrappers
  import opened Bytes
  import Py = PyCommand
  import Rs = Dtypes
  import Parsing
  import PyS = PySemantics
  import RsS = RustSemantics

  /** The Rust variant of the same name. */
  function ToRust(c: Py.Command): Rs.Command
  {
    match c
    case MovePointerRight => Rs.MovePointerRight
    case MovePointerLeft => Rs.MovePointerLeft
    case IncrementByte => Rs.IncrementByte
    case DecrementByte => Rs.DecrementByte
    case OutputByte => Rs.OutputByte
    case InputByte => Rs.InputByte
    case JumpRightIfZero => Rs.JumpRightIfZero
    case JumpLeftIfNonZero => Rs.JumpLeftIfNonZero
  }

  /** The Python member of the same name. */
  function ToPython(c: Rs.Command): Py.Command
  {
    match c
    case MovePointerRight => Py.MovePointerRight
    case MovePointerLeft => Py.MovePointerLeft
    case IncrementByte => Py.IncrementByte
    case DecrementByte => Py.DecrementByte
    case OutputByte => Py.OutputByte
    case InputByte => Py.InputByte
    case JumpRightIfZero => Py.JumpRightIfZero
    case JumpLeftIfNonZero => Py.JumpLeftIfNonZero
  }

  /** The two enums correspond one to one. */
  lemma CommandsCorrespond(p: Py.Command, r: Rs.Command)
    ensures ToPython(ToRust(p)) == p
    ensures ToRust(ToPython(r)) == r
    ensures ToRust(p) == r <==> ToPython(r) == p
  {
  }

  /** `byte_to_command` and `_parse_command` agree on every byte. */
  lemma DecodersAgree(b: byte)
    ensures Parsing.ByteToCommand(b) == MapOption(Py.ParseCommand(b), ToRust)
    ensures MapOption(Parsing.ByteToCommand(b), ToPython) == Py.ParseCommand(b)
  {
  }

  /** A program in which neither `[` nor `]` occurs. */
  predicate BracketFree(s: seq<byte>)
  {
    OpenBracket !in s && CloseBracket !in s
  }

  /** An exception of the Python machine and a panic of the Rust one that happen in the same place. */
  predicate Corresponds(e: PyS.Exception, p: RsS.Panic)
  {
    || (e == PyS.NotImplementedError && p == RsS.NotImplemented)
    || (e == PyS.IndexError && p == RsS.IndexOutOfBounds)
  }

  /** Two machines with the same tape, pointer, buffers and no error, between iterations. */
  predicate Related(c: PyS.Config, m: RsS.Machine)
  {
    && c.mem == m.mem && c.ptr == m.dataPtr
    && c.inBuf == m.inBuf && c.outBuf == m.outBuf
    && !c.flgErr && !m.errorFlg
    && c.parenState == 0 && m.bracketState == 0
  }

  /**
   * One Python iteration and one Rust iteration agree: both go on, to related
   * machines; or both record an error, with the same tape and output; or both
   * fail, in the corresponding way.
   */
  predicate IterationsAgree(it: PyS.Iteration, r: RsS.Res)
  {
    match it
    case Next(c) => r.Done? && !r.m.errorFlg && Related(c, r.m)
    case Break(c) =>
      && r.Done? && r.m.errorFlg && c.flgErr
      && c.mem == r.m.mem && c.outBuf == r.m.outBuf && c.parenState == 0
    case Raise(_, e) => r.Panicked? && Corresponds(e, r.reason)
  }

  /** On a byte other than `[` and `]`, the iterations of related machines agree. */
  lemma StepsAgree(c: PyS.Config, m: RsS.Machine)
    requires Related(c, m) && |c.inBuf| > 0 && c.inBuf[0] != OpenBracket && c.inBuf[0] != CloseBracket
    ensures IterationsAgree(PyS.Step(c), RsS.Step(m))
  {
    var b := c.inBuf[0];
    if b == 43 || b == 45 || b == 46 {
      CellCommandsAgree(c, m);
    } else if b == 60 || b == 62 {
      MovesAgree(c, m);
    } else if b == 44 {
      assert PyS.Step(c) == PyS.Raise(c.(inBuf := c.inBuf[1..]), PyS.NotImplementedError);
    } else {
      assert b !in CommandBytes;
      assert PyS.Step(c).Next?;
    }
  }

  lemma CellCommandsAgree(c: PyS.Config, m: RsS.Machine)
    requires Related(c, m) && |c.inBuf| > 0 && c.inBuf[0] in {43, 45, 46}
    ensures IterationsAgree(PyS.Step(c), RsS.Step(m))
  {
    var c0 := c.(inBuf := c.inBuf[1..]);
    var m0 := RsS.PopFront(m);
    assert PyS.CanRead(c0) <==> RsS.CanRead(m0);
    if RsS.CanRead(m0) {
      assert PyS.Slot(c0.ptr, |c0.mem|) == m0.dataPtr;
    }
  }

  lemma MovesAgree(c: PyS.Config, m: RsS.Machine)
    requires Related(c, m) && |c.inBuf| > 0 && c.inBuf[0] in {60, 62}
    ensures IterationsAgree(PyS.Step(c), RsS.Step(m))
  {
  }

  /** On a bracket-free program the two loops agree, in the sense of `StepsAgree`. */
  lemma {:induction false} LoopsAgree(c: PyS.Config, m: RsS.Machine)
    requires Related(c, m) && BracketFree(c.inBuf)
    ensures PyS.Loop(c).outcome.Raised? <==> RsS.Loop(m).Panicked?
    ensures PyS.Loop(c).outcome.Raised? ==> Corresponds(PyS.Loop(c).outcome.exc, RsS.Loop(m).reason)
    ensures RsS.Loop(m).Done? ==>
      && PyS.Loop(c).final.mem == RsS.Loop(m).m.mem
      && PyS.Loop(c).final.outBuf == RsS.Loop(m).m.outBuf
      && PyS.Loop(c).final.flgErr == RsS.Loop(m).m.errorFlg
      && PyS.Loop(c).final.parenState == 0
    decreases |c.inBuf|
  {
    if |c.inBuf| > 0 {
      assert c.inBuf[0] in c.inBuf;
      StepsAgree(c, m);
      PyS.StepDecreases(c);
      RsS.StepConsumes(m);
      if PyS.Step(c).Next? {
        var c1, m1 := PyS.Step(c).c, RsS.Step(m).m;
        assert c1.inBuf == c.inBuf[1..];
        assert BracketFree(c1.inBuf) by {
          assert forall x :: x in c1.inBuf ==> x in c.inBuf;
        }
        LoopsAgree(c1, m1);
      }
    }
  }

  /**
   * A fresh Python machine and a fresh Rust machine of the same size, loaded
   * with the same bracket-free program and run, leave the same tape, output and
   * error flag, and raise exactly when the Rust one panics, in the
   * corresponding way.
   */
  lemma RunsAgree(memSz: nat, prog: seq<byte>)
    requires BracketFree(prog)
    ensures var h := PyS.Run(PyS.Init(memSz).(inBuf := prog));
      var r := RsS.Run(RsS.FillInBuff(RsS.New(memSz), prog));
      && (h.outcome.Raised? <==> r.Panicked?)
      && (h.outcome.Raised? ==> Corresponds(h.outcome.exc, r.reason))
      && (r.Done? ==>
        && h.final.mem == r.m.mem && h.final.outBuf == r.m.outBuf
        && h.final.flgErr == r.m.errorFlg)
  {
    var c := PyS.Init(memSz).(inBuf := prog, flgRun := true);
    var m := RsS.FillInBuff(RsS.New(memSz), prog).(runFlg := true);
    LoopsAgree(c, m);
  }
}
