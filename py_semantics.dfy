/**
 * What one `BFI` object of bfipy/interpreter.py does, as functions on a value
 * that holds all of its attributes: one iteration of the loop in `run`, the
 * loop itself and `run` as a whole. The class `PyMachine.BFI` is proved to
 * compute exactly these functions.
 */
module PySemantics {
  import opened Wrappers
  import opened Bytes
  import opened PyCommand

  /** The attributes of a `BFI` object; `mem_sz` is `|mem|`. */
  datatype Config = Config(
    mem: seq<byte>,
    ptr: int,
    inBuf: seq<byte>,
    outBuf: seq<byte>,
    flgRun: bool,
    flgTrm: bool,
    flgErr: bool,
    errMsg: string,
    inBufIdx: int,
    parenState: int,
    jumpStack: seq<byte>)

  /** The exceptions that can escape from `run`. */
  datatype Exception = NotImplementedError | IndexError

  /** How `run` ends: by returning, or by an exception propagating out of it. */
  datatype Outcome = Returned | Raised(exc: Exception)

  /** How one iteration of the `while` loop of `run` ends. */
  datatype Iteration = Next(c: Config) | Break(c: Config) | Raise(c: Config, exc: Exception)

  /** The machine when the loop or `run` has ended, and how it ended. */
  datatype Halt = Halt(final: Config, outcome: Outcome)

  /** What a forward skip or a backward scan leaves in `in_buf` and the jump stack. */
  datatype Moved = Moved(found: bool, inBuf: seq<byte>, jumpStack: seq<byte>)

  /** `BFI(mem_sz)`: a zeroed tape, pointer 0, empty buffers, all flags down. */
  function Init(memSz: nat): (c: Config)
    ensures |c.mem| == memSz && forall i :: 0 <= i < memSz ==> c.mem[i] == 0
    ensures c.ptr == 0 && c.inBuf == [] && c.outBuf == [] && c.jumpStack == []
    ensures !c.flgRun && !c.flgTrm && !c.flgErr && c.errMsg == "" && c.inBufIdx == 0 && c.parenState == 0
    ensures CanRead(c) <==> memSz > 0
  {
    Config(seq(memSz, _ => 0), 0, [], [], false, false, false, "", 0, 0, [])
  }

  /** Python can index a bytearray of length `n` with `-n <= i < n`; anything else raises IndexError. */
  predicate Indexable(i: int, n: nat)
  {
    0 <= i + n && i < n
  }

  /** The element a Python index designates: negative indexes count from the end. */
  function Slot(i: int, n: nat): (k: nat)
    requires Indexable(i, n)
    ensures k < n
    ensures 0 <= i ==> k == i
  {
    if i < 0 then i + n else i
  }

  /** The slot of a Python index is the one index of the tape congruent to it modulo the tape length. */
  lemma SlotCongruent(i: int, n: nat)
    requires Indexable(i, n)
    ensures n > 0 && Slot(i, n) % n == i % n
  {
    var k := Slot(i, n);
    if i < 0 {
      assert k == i + n && 0 <= k < n;
      assert i == -1 * n + k;
      assert i / n == -1;
    } else {
      assert i == 0 * n + k;
      assert i / n == 0;
    }
  }

  predicate CanRead(c: Config)
  {
    Indexable(c.ptr, |c.mem|)
  }

  /** `ptr_val`: `mem[ptr]`. */
  function Cell(c: Config): byte
    requires CanRead(c)
  {
    c.mem[Slot(c.ptr, |c.mem|)]
  }

  /** `ptr_val` reads `mem[ptr]` for a pointer on the tape and counts a negative one from the end. */
  lemma CellIndexing(c: Config)
    requires CanRead(c)
    ensures 0 <= c.ptr ==> Cell(c) == c.mem[c.ptr]
    ensures c.ptr < 0 ==> Cell(c) == c.mem[|c.mem| + c.ptr]
  {
  }

  /** `mem[ptr] = v`. */
  function Store(c: Config, v: byte): Config
    requires CanRead(c)
  {
    c.(mem := c.mem[Slot(c.ptr, |c.mem|) := v])
  }

  /** The `in_buf_idx += 1` that ends every iteration that does not break or raise. */
  function Tick(c: Config): Config
  {
    c.(inBufIdx := c.inBufIdx + 1)
  }

  /** Sets the error flag and message, as each `break` of `run` does first. */
  function Fail(c: Config, msg: string): Config
  {
    c.(flgErr := true, errMsg := msg)
  }

  /**
   * The forward skip of `[` on a zero cell (lines 232-244): the `[` and then every
   * byte before the next `]` go onto the front of the jump stack, most recent
   * first, and that `]` is put back at the front of `in_buf`. Without a `]`,
   * every byte is popped and all but the last are pushed onto the stack.
   */
  function Park(open: byte, inBuf: seq<byte>, jumpStack: seq<byte>): Moved
    requires |inBuf| > 0
  {
    var k := IndexOf(inBuf, CloseBracket);
    if k < |inBuf| then Moved(true, inBuf[k..], Reverse(inBuf[..k]) + [open] + jumpStack)
    else Moved(false, [], Reverse(inBuf[..|inBuf| - 1]) + [open] + jumpStack)
  }

  /**
   * The forward skip finds a `]` iff there is one, leaves it at the front of
   * `in_buf`, and parks the `[` above the old stack and above it the bytes it
   * skipped, none of them a `]`. Those bytes read back in program order give
   * exactly what was taken from `in_buf`; without a `]`, only the last byte is lost.
   */
  lemma ParkKeepsBytes(open: byte, inBuf: seq<byte>, jumpStack: seq<byte>)
    requires |inBuf| > 0
    ensures var r := Park(open, inBuf, jumpStack);
      var p := |r.jumpStack| - |jumpStack| - 1;
      && (r.found <==> CloseBracket in inBuf)
      && (r.found ==> |r.inBuf| > 0 && r.inBuf[0] == CloseBracket)
      && (!r.found ==> r.inBuf == [])
      && 0 <= p
      && r.jumpStack[p..] == [open] + jumpStack
      && CloseBracket !in r.jumpStack[..p]
      && (r.found ==> Reverse(r.jumpStack[..p]) + r.inBuf == inBuf)
      && (!r.found ==> Reverse(r.jumpStack[..p]) == inBuf[..|inBuf| - 1])
  {
    var k := IndexOf(inBuf, CloseBracket);
    if k < |inBuf| {
      ParkFound(open, inBuf, jumpStack, k);
    } else {
      ParkMissing(open, inBuf, jumpStack);
    }
  }

  /** The forward skip when `in_buf` holds a `]`, the first one at `k`. */
  lemma ParkFound(open: byte, inBuf: seq<byte>, jumpStack: seq<byte>, k: nat)
    requires k == IndexOf(inBuf, CloseBracket) && k < |inBuf|
    ensures var r := Park(open, inBuf, jumpStack);
      && r.found && r.inBuf == inBuf[k..]
      && r.jumpStack[k..] == [open] + jumpStack && |r.jumpStack| == k + 1 + |jumpStack|
      && CloseBracket !in r.jumpStack[..k]
      && Reverse(r.jumpStack[..k]) + r.inBuf == inBuf
  {
    var skipped := inBuf[..k];
    assert Park(open, inBuf, jumpStack) == Moved(true, inBuf[k..], Reverse(skipped) + ([open] + jumpStack));
    IndexOfPrefix(inBuf, CloseBracket);
    StackedReversed(skipped, [open] + jumpStack);
    assert skipped + inBuf[k..] == inBuf;
  }

  /** The forward skip when `in_buf` holds no `]`. */
  lemma ParkMissing(open: byte, inBuf: seq<byte>, jumpStack: seq<byte>)
    requires |inBuf| > 0 && CloseBracket !in inBuf
    ensures var r := Park(open, inBuf, jumpStack);
      var p := |inBuf| - 1;
      && !r.found && r.inBuf == []
      && r.jumpStack[p..] == [open] + jumpStack && |r.jumpStack| == p + 1 + |jumpStack|
      && CloseBracket !in r.jumpStack[..p]
      && Reverse(r.jumpStack[..p]) == inBuf[..p]
  {
    var kept := inBuf[..|inBuf| - 1];
    assert Park(open, inBuf, jumpStack) == Moved(false, [], Reverse(kept) + ([open] + jumpStack));
    StackedReversed(kept, [open] + jumpStack);
    assert CloseBracket !in kept;
  }

  /** Bytes stacked reversed on top of `below` read back in their own order and leave `below` intact. */
  lemma StackedReversed(s: seq<byte>, below: seq<byte>)
    ensures var st := Reverse(s) + below;
      st[..|s|] == Reverse(s) && st[|s|..] == below && Reverse(st[..|s|]) == s
      && (forall x :: x in st[..|s|] <==> x in s)
  {
    ReverseReverse(s);
    var st := Reverse(s) + below;
    assert st[..|s|] == Reverse(s);
    forall x {
      ReverseHas(x, s);
    }
  }

  /**
   * The backward scan of `]` on a nonzero cell (lines 259-265): the `]`, then each
   * byte popped from the front of the jump stack, go onto the front of `in_buf`
   * until the first `[`, which ends up first. When the stack runs out first,
   * `pop(0)` raises IndexError after everything has been moved.
   */
  function Restore(close: byte, inBuf: seq<byte>, jumpStack: seq<byte>): Moved
  {
    var k := IndexOf(jumpStack, OpenBracket);
    if k < |jumpStack| then Moved(true, [OpenBracket] + Reverse(jumpStack[..k]) + [close] + inBuf, jumpStack[k + 1..])
    else Moved(false, Reverse(jumpStack) + [close] + inBuf, [])
  }

  /**
   * The backward scan finds a `[` iff the stack holds one and empties the stack
   * otherwise. It puts the `]` back in front of the old `in_buf` and in front of
   * that the bytes it took off the stack: read back to front, followed by what
   * is left on the stack, they are exactly the old stack. Found, the first of
   * them is the `[` and no other is one.
   */
  lemma RestoreKeepsBytes(close: byte, inBuf: seq<byte>, jumpStack: seq<byte>)
    ensures var r := Restore(close, inBuf, jumpStack);
      var q := |r.inBuf| - |inBuf| - 1;
      && (r.found <==> OpenBracket in jumpStack)
      && (!r.found ==> r.jumpStack == [])
      && 0 <= q
      && r.inBuf[q..] == [close] + inBuf
      && Reverse(r.inBuf[..q]) + r.jumpStack == jumpStack
      && (r.found ==> r.inBuf[0] == OpenBracket && OpenBracket !in r.inBuf[1..q])
      && (!r.found ==> OpenBracket !in r.inBuf[..q])
  {
    var k := IndexOf(jumpStack, OpenBracket);
    if k < |jumpStack| {
      RestoreFound(close, inBuf, jumpStack, k);
    } else {
      RestoreMissing(close, inBuf, jumpStack);
    }
  }

  /** The backward scan when the jump stack holds a `[`, the first one at `k`. */
  lemma RestoreFound(close: byte, inBuf: seq<byte>, jumpStack: seq<byte>, k: nat)
    requires k == IndexOf(jumpStack, OpenBracket) && k < |jumpStack|
    ensures var r := Restore(close, inBuf, jumpStack);
      && r.found && |r.inBuf| == k + 2 + |inBuf|
      && r.inBuf[k + 1..] == [close] + inBuf
      && Reverse(r.inBuf[..k + 1]) + r.jumpStack == jumpStack
      && r.inBuf[0] == OpenBracket && OpenBracket !in r.inBuf[1..k + 1]
  {
    var skipped := jumpStack[..k];
    CutAt(jumpStack, k);
    var moved := [OpenBracket] + Reverse(skipped);
    assert Restore(close, inBuf, jumpStack) == Moved(true, moved + ([close] + inBuf), jumpStack[k + 1..]);
    var r := Restore(close, inBuf, jumpStack);
    Split(moved, [close] + inBuf);
    assert r.inBuf[..k + 1] == moved;
    IndexOfPrefix(jumpStack, OpenBracket);
    ReverseHas(OpenBracket, skipped);
    assert r.inBuf[1..k + 1] == Reverse(skipped);
    ReverseCons(OpenBracket, Reverse(skipped));
    ReverseReverse(skipped);
    assert Reverse(moved) == skipped + [OpenBracket];
  }

  /** The backward scan when the jump stack holds no `[`. */
  lemma RestoreMissing(close: byte, inBuf: seq<byte>, jumpStack: seq<byte>)
    requires OpenBracket !in jumpStack
    ensures var r := Restore(close, inBuf, jumpStack);
      var q := |jumpStack|;
      && !r.found && r.jumpStack == [] && |r.inBuf| == q + 1 + |inBuf|
      && r.inBuf[q..] == [close] + inBuf
      && Reverse(r.inBuf[..q]) == jumpStack
      && OpenBracket !in r.inBuf[..q]
  {
    var a := Reverse(jumpStack);
    assert IndexOf(jumpStack, OpenBracket) == |jumpStack|;
    assert a + [close] + inBuf == a + ([close] + inBuf);
    assert Restore(close, inBuf, jumpStack) == Moved(false, a + ([close] + inBuf), []);
    ReverseHas(OpenBracket, jumpStack);
    Split(Reverse(jumpStack), [close] + inBuf);
    ReverseReverse(jumpStack);
  }

  /** The two halves of a concatenation, sliced back out. */
  lemma Split(a: seq<byte>, b: seq<byte>)
    ensures (a + b)[..|a|] == a && (a + b)[|a|..] == b
  {
  }

  /**
   * True when the next iteration is certain not to jump: the next byte is a `]`
   * over a zero cell (as a forward skip leaves it) or a `[` over a nonzero cell
   * (as a backward scan leaves it).
   */
  predicate Settled(c: Config)
  {
    && |c.inBuf| > 0
    && CanRead(c)
    && ((c.inBuf[0] == CloseBracket && Cell(c) == 0) || (c.inBuf[0] == OpenBracket && Cell(c) != 0))
  }

  /**
   * A jump keeps `|in_buf| + |jump_stack|` but leaves a settled machine; every
   * other iteration shrinks that sum. So this decreases on every iteration.
   */
  function Measure(c: Config): nat
  {
    2 * (|c.inBuf| + |c.jumpStack|) + (if Settled(c) then 0 else 1)
  }

  /** One iteration of the loop of `run` (lines 182-266): pop the front byte and execute it. */
  function Step(c: Config): (r: Iteration)
    requires |c.inBuf| > 0
    ensures |r.c.mem| == |c.mem|
    ensures r.c.flgRun == c.flgRun && r.c.flgTrm == c.flgTrm
  {
    Execute(c.inBuf[0], c.(inBuf := c.inBuf[1..]))
  }

  /** The `match self._parse_command(byte)` of `run`, on the machine from which `b` was popped. */
  function Execute(b: byte, c: Config): (r: Iteration)
    ensures |r.c.mem| == |c.mem|
    ensures r.c.flgRun == c.flgRun && r.c.flgTrm == c.flgTrm
  {
    match ParseCommand(b)
    case None => Next(Tick(c))
    case Some(MovePointerRight) =>
      var c1 := c.(ptr := c.ptr + 1);
      if c1.ptr >= |c.mem| then Break(Fail(c1, "data pointer overran memory size"))
      else Next(Tick(c1))
    case Some(MovePointerLeft) =>
      var c1 := c.(ptr := c.ptr - 1);
      if c1.ptr < 0 then Break(Fail(c1, "data pointer underran memory size"))
      else Next(Tick(c1))
    case Some(IncrementByte) =>
      if !CanRead(c) then Raise(c, IndexError)
      else Next(Tick(Store(c, if Cell(c) == 255 then 0 else Cell(c) + 1)))
    case Some(DecrementByte) =>
      if !CanRead(c) then Raise(c, IndexError)
      else Next(Tick(Store(c, if Cell(c) == 0 then 255 else Cell(c) - 1)))
    case Some(OutputByte) =>
      if !CanRead(c) then Raise(c, IndexError)
      else Next(Tick(c.(outBuf := c.outBuf + [Cell(c)])))
    case Some(InputByte) => Raise(c, NotImplementedError)
    case Some(JumpRightIfZero) => JumpRight(b, c)
    case Some(JumpLeftIfNonZero) => JumpLeft(b, c)
  }

  /** The `Command.JumpRightIfZero` branch (lines 220-244). */
  function JumpRight(b: byte, c: Config): (r: Iteration)
    ensures |r.c.mem| == |c.mem|
    ensures r.c.flgRun == c.flgRun && r.c.flgTrm == c.flgTrm
  {
    var c1 := c.(parenState := c.parenState + 1);
    if !CanRead(c1) then Raise(c1, IndexError)
    else if Cell(c1) != 0 then Next(Tick(c1))
    else if |c1.inBuf| == 0 then Break(Fail(c1, "no bytes in input buffer after ["))
    else
      var m := Park(b, c1.inBuf, c1.jumpStack);
      var c2 := c1.(inBuf := m.inBuf, jumpStack := m.jumpStack);
      if m.found then Next(Tick(c2)) else Break(Fail(c2, "no closing ] found"))
  }

  /** The `Command.JumpLeftIfNonZero` branch (lines 245-265). */
  function JumpLeft(b: byte, c: Config): (r: Iteration)
    ensures |r.c.mem| == |c.mem|
    ensures r.c.flgRun == c.flgRun && r.c.flgTrm == c.flgTrm
  {
    if c.parenState < 1 then Break(Fail(c, "unmatched ]"))
    else
      var c1 := c.(parenState := c.parenState - 1);
      if !CanRead(c1) then Raise(c1, IndexError)
      else if Cell(c1) == 0 then Next(Tick(c1))
      else
        var m := Restore(b, c1.inBuf, c1.jumpStack);
        var c2 := c1.(inBuf := m.inBuf, jumpStack := m.jumpStack);
        if m.found then Next(Tick(c2)) else Raise(c2, IndexError)
  }

  /** The `while len(self.in_buf) > 0` loop of `run` (lines 181-266), from the state it is entered in. */
  function Loop(c: Config): (h: Halt)
    ensures |h.final.mem| == |c.mem|
    ensures h.final.flgRun == c.flgRun && h.final.flgTrm == c.flgTrm
    decreases Measure(c)
  {
    if |c.inBuf| == 0 then Halt(c, Returned)
    else
      StepDecreases(c);
      match Step(c)
      case Next(c') => Loop(c')
      case Break(c') => Halt(c', Returned)
      case Raise(c', e) => Halt(c', Raised(e))
  }

  /**
   * Every iteration that goes on to the next one decreases `Measure`, although
   * backward jumps make `in_buf` grow again: `run` always ends.
   */
  lemma StepDecreases(c: Config)
    requires |c.inBuf| > 0
    ensures Step(c).Next? ==> Measure(Step(c).c) < Measure(c)
  {
    var b := c.inBuf[0];
    var c1 := c.(inBuf := c.inBuf[1..]);
    assert Step(c) == Execute(b, c1);
    match ParseCommand(b)
    case Some(JumpRightIfZero) =>
      assert b == OpenBracket;
      JumpRightDecreases(b, c1);
    case Some(JumpLeftIfNonZero) =>
      assert b == CloseBracket;
      JumpLeftDecreases(b, c1);
    case _ =>
  }

  lemma JumpRightDecreases(b: byte, c: Config)
    requires b == OpenBracket
    ensures JumpRight(b, c).Next? ==>
      Measure(JumpRight(b, c).c) <= 2 * (|c.inBuf| + |c.jumpStack|) + 2
      && (Measure(JumpRight(b, c).c) == 2 * (|c.inBuf| + |c.jumpStack|) + 2 ==> CanRead(c) && Cell(c) == 0)
  {
    var c1 := c.(parenState := c.parenState + 1);
    if CanRead(c1) && Cell(c1) == 0 && |c1.inBuf| > 0 {
      var m := Park(b, c1.inBuf, c1.jumpStack);
      if m.found {
        assert m.inBuf[0] == CloseBracket;
        assert Settled(JumpRight(b, c).c);
      }
    }
  }

  lemma JumpLeftDecreases(b: byte, c: Config)
    requires b == CloseBracket
    ensures JumpLeft(b, c).Next? ==>
      Measure(JumpLeft(b, c).c) <= 2 * (|c.inBuf| + |c.jumpStack|) + 2
      && (Measure(JumpLeft(b, c).c) == 2 * (|c.inBuf| + |c.jumpStack|) + 2 ==> CanRead(c) && Cell(c) != 0)
  {
    if c.parenState >= 1 {
      var c1 := c.(parenState := c.parenState - 1);
      if CanRead(c1) && Cell(c1) != 0 {
        var m := Restore(b, c1.inBuf, c1.jumpStack);
        if m.found {
          assert Settled(JumpLeft(b, c).c);
        }
      }
    }
  }

  /** The decimal digits of `n`, most significant first, without leading zeros. */
  function Decimal(n: nat): (s: string)
    ensures |s| > 0 && forall i :: 0 <= i < |s| ==> '0' <= s[i] <= '9'
    ensures |s| > 1 ==> s[0] != '0'
    decreases n
  {
    if n < 10 then [Digit(n)] else Decimal(n / 10) + [Digit(n % 10)]
  }

  function Digit(d: nat): (ch: char)
    requires d < 10
    ensures ch as int == '0' as int + d
  {
    "0123456789"[d]
  }

  /** The number a string of decimal digits denotes, read as `int()` reads it. */
  function ParseDecimal(s: string): nat
    requires forall i :: 0 <= i < |s| ==> '0' <= s[i] <= '9'
  {
    if s == [] then 0 else 10 * ParseDecimal(s[..|s| - 1]) + (s[|s| - 1] as int - '0' as int)
  }

  /** Reading the digits back gives the number: `Decimal` loses nothing. */
  lemma {:induction false} DecimalRoundTrip(n: nat)
    ensures ParseDecimal(Decimal(n)) == n
    decreases n
  {
    if n >= 10 {
      var s := Decimal(n);
      assert s[..|s| - 1] == Decimal(n / 10);
      DecimalRoundTrip(n / 10);
    }
  }

  /** The prefix of the end-of-run bracket message, before the signed count. */
  const UnbalancedPrefix := "unbalanced [ ] (paren state: "

  /**
   * The message of the end-of-run bracket check: the prefix, the count as
   * `{:+d}` renders it (a sign, then its decimal digits) and a closing parenthesis.
   */
  function UnbalancedMessage(parenState: int): string
  {
    UnbalancedPrefix + [if parenState < 0 then '-' else '+'] + Decimal(if parenState < 0 then -parenState else parenState) + ")"
  }

  /** The message carries the sign of the count and digits that read back as its magnitude. */
  lemma UnbalancedMessageReadsBack(parenState: int)
    ensures var msg := UnbalancedMessage(parenState);
      var p := |UnbalancedPrefix|;
      && |msg| >= p + 3
      && msg[..p] == UnbalancedPrefix
      && msg[p] == (if parenState < 0 then '-' else '+')
      && msg[|msg| - 1] == ')'
      && (forall i :: p + 1 <= i < |msg| - 1 ==> '0' <= msg[i] <= '9')
      && ParseDecimal(msg[p + 1..|msg| - 1]) == (if parenState < 0 then -parenState else parenState)
  {
    var n := if parenState < 0 then -parenState else parenState;
    DecimalRoundTrip(n);
    var msg := UnbalancedMessage(parenState);
    assert msg[|UnbalancedPrefix| + 1..|msg| - 1] == Decimal(n);
  }

  /** The bracket check after the loop and the final flag updates (lines 269-275). */
  function Finish(c: Config): (r: Config)
    ensures !r.flgRun && r.flgTrm
    ensures r.flgErr <==> c.flgErr || c.parenState != 0
    ensures c.flgErr ==> r.errMsg == c.errMsg
    ensures !c.flgErr && c.parenState != 0 ==> r.errMsg == UnbalancedMessage(c.parenState)
    ensures !c.flgErr && c.parenState == 0 ==> r.errMsg == c.errMsg
    ensures r.(flgRun := c.flgRun, flgTrm := c.flgTrm, flgErr := c.flgErr, errMsg := c.errMsg) == c
  {
    var checked := if !c.flgErr && c.parenState != 0 then Fail(c, UnbalancedMessage(c.parenState)) else c;
    checked.(flgRun := false, flgTrm := true)
  }

  /**
   * `run`. When it returns, the run flag is down and the terminated flag up, and
   * the error flag is set iff the loop set it or left a nonzero paren counter;
   * an error message recorded by the loop is never overwritten. An exception
   * leaves the flags as the loop left them: running, not terminated.
   */
  function Run(c: Config): (h: Halt)
    ensures h.outcome.Returned? ==> !h.final.flgRun && h.final.flgTrm
    ensures h.outcome.Returned? ==>
      var l := Loop(c.(flgRun := true));
      && (h.final.flgErr <==> l.final.flgErr || l.final.parenState != 0)
      && (l.final.flgErr ==> h.final.errMsg == l.final.errMsg)
      && (!l.final.flgErr && l.final.parenState != 0 ==> h.final.errMsg == UnbalancedMessage(l.final.parenState))
    ensures h.outcome.Raised? ==> h.final.flgRun && h.final.flgTrm == c.flgTrm
    ensures |h.final.mem| == |c.mem|
  {
    var l := Loop(c.(flgRun := true));
    if l.outcome.Raised? then l else Halt(Finish(l.final), Returned)
  }

  // ----- one iteration -----

  /** A byte that is not a command changes nothing but `in_buf` and `in_buf_idx`. */
  lemma NonCommandIgnored(c: Config)
    requires |c.inBuf| > 0 && c.inBuf[0] !in CommandBytes
    ensures Step(c) == Next(c.(inBuf := c.inBuf[1..], inBufIdx := c.inBufIdx + 1))
  {
  }

  /** `+` adds one to the current cell modulo 256 (255 becomes 0) and changes no other cell. */
  lemma IncrementWraps(c: Config)
    requires |c.inBuf| > 0 && c.inBuf[0] == 43 && CanRead(c)
    ensures Step(c) == Next(c.(inBuf := c.inBuf[1..], inBufIdx := c.inBufIdx + 1,
                               mem := c.mem[Slot(c.ptr, |c.mem|) := (Cell(c) + 1) % 256]))
  {
  }

  /** `-` subtracts one from the current cell modulo 256 (0 becomes 255) and changes no other cell. */
  lemma DecrementWraps(c: Config)
    requires |c.inBuf| > 0 && c.inBuf[0] == 45 && CanRead(c)
    ensures Step(c) == Next(c.(inBuf := c.inBuf[1..], inBufIdx := c.inBufIdx + 1,
                               mem := c.mem[Slot(c.ptr, |c.mem|) := (Cell(c) - 1) % 256]))
  {
  }

  /** `.` appends exactly the current cell to `out_buf`. */
  lemma OutputAppends(c: Config)
    requires |c.inBuf| > 0 && c.inBuf[0] == 46 && CanRead(c)
    ensures Step(c) == Next(c.(inBuf := c.inBuf[1..], inBufIdx := c.inBufIdx + 1, outBuf := c.outBuf + [Cell(c)]))
  {
  }

  /** `,` raises NotImplementedError, after the byte has been popped and before anything else changes. */
  lemma InputRaises(c: Config)
    requires |c.inBuf| > 0 && c.inBuf[0] == 44
    ensures Step(c) == Raise(c.(inBuf := c.inBuf[1..]), NotImplementedError)
  {
  }

  /**
   * `>` and `<` move the pointer by one; a move that leaves `[0, mem_sz)` sets the
   * error flag and message and breaks out of the loop.
   */
  lemma PointerMoves(c: Config)
    requires |c.inBuf| > 0 && (c.inBuf[0] == 62 || c.inBuf[0] == 60)
    ensures var p := if c.inBuf[0] == 62 then c.ptr + 1 else c.ptr - 1;
      var moved := c.(inBuf := c.inBuf[1..], ptr := p);
      Step(c) == if 0 <= p < |c.mem| || (c.inBuf[0] == 62 && p < 0) || (c.inBuf[0] == 60 && p >= |c.mem|)
                 then Next(Tick(moved))
                 else if c.inBuf[0] == 62 then Break(Fail(moved, "data pointer overran memory size"))
                 else Break(Fail(moved, "data pointer underran memory size"))
  {
  }

  /** `[` increments the paren counter whatever happens next. */
  lemma OpenCounts(c: Config)
    requires |c.inBuf| > 0 && c.inBuf[0] == OpenBracket
    ensures Step(c).c.parenState == c.parenState + 1
  {
  }

  /** `]` fails with "unmatched ]" when the counter is below 1 and otherwise decrements it. */
  lemma CloseCounts(c: Config)
    requires |c.inBuf| > 0 && c.inBuf[0] == CloseBracket
    ensures c.parenState < 1 ==> Step(c) == Break(Fail(c.(inBuf := c.inBuf[1..]), "unmatched ]"))
    ensures c.parenState >= 1 ==> Step(c).c.parenState == c.parenState - 1
  {
  }

  /** The byte `[` is executed by the `JumpRightIfZero` branch. */
  lemma OpenStep(c: Config)
    requires |c.inBuf| > 0 && c.inBuf[0] == OpenBracket
    ensures Step(c) == JumpRight(OpenBracket, c.(inBuf := c.inBuf[1..]))
  {
    assert ParseCommand(OpenBracket) == Some(JumpRightIfZero);
  }

  /**
   * The `JumpRightIfZero` branch over a zero cell, on the machine from which the
   * `[` was popped: the three ways the forward skip can end.
   */
  lemma ParkOnZero(c: Config)
    requires CanRead(c) && Cell(c) == 0
    ensures var c1 := c.(parenState := c.parenState + 1);
      var k := IndexOf(c.inBuf, CloseBracket);
      && (c.inBuf == [] ==> JumpRight(OpenBracket, c) == Break(Fail(c1, "no bytes in input buffer after [")))
      && (c.inBuf != [] && k < |c.inBuf| ==>
            JumpRight(OpenBracket, c)
            == Next(Tick(c1.(inBuf := c.inBuf[k..], jumpStack := Reverse(c.inBuf[..k]) + [OpenBracket] + c.jumpStack)))
            && c.inBuf[k] == CloseBracket)
      && (c.inBuf != [] && k == |c.inBuf| ==>
            JumpRight(OpenBracket, c).Break? && JumpRight(OpenBracket, c).c.errMsg == "no closing ] found"
            && JumpRight(OpenBracket, c).c.inBuf == [])
  {
    var c1 := c.(parenState := c.parenState + 1);
    assert CanRead(c1) && Cell(c1) == 0;
    if c.inBuf != [] {
      ParkedOnZero(c);
      var k := IndexOf(c.inBuf, CloseBracket);
      if k < |c.inBuf| {
        assert Park(OpenBracket, c.inBuf, c.jumpStack)
            == Moved(true, c.inBuf[k..], Reverse(c.inBuf[..k]) + [OpenBracket] + c.jumpStack);
      } else {
        assert Park(OpenBracket, c.inBuf, c.jumpStack).inBuf == [];
      }
    }
  }

  /** `[` on a zero cell with bytes left: the result of the forward skip. */
  lemma ParkedOnZero(c: Config)
    requires CanRead(c) && Cell(c) == 0 && c.inBuf != []
    ensures var m := Park(OpenBracket, c.inBuf, c.jumpStack);
      var c2 := c.(parenState := c.parenState + 1, inBuf := m.inBuf, jumpStack := m.jumpStack);
      JumpRight(OpenBracket, c) == if m.found then Next(Tick(c2)) else Break(Fail(c2, "no closing ] found"))
  {
    var c1 := c.(parenState := c.parenState + 1);
    assert CanRead(c1) && Cell(c1) == 0 && |c1.inBuf| != 0;
  }

  /**
   * `[` on a zero cell: with `in_buf` empty it fails; otherwise the bytes up to
   * the next `]` are parked on the jump stack, most recent first, behind the `[`,
   * and that `]` is the next byte to run; without a `]` it fails.
   */
  lemma SkipOnZero(c: Config)
    requires |c.inBuf| > 0 && c.inBuf[0] == OpenBracket && CanRead(c) && Cell(c) == 0
    ensures var rest := c.inBuf[1..];
      var c1 := c.(inBuf := rest, parenState := c.parenState + 1);
      var k := IndexOf(rest, CloseBracket);
      && (rest == [] ==> Step(c) == Break(Fail(c1, "no bytes in input buffer after [")))
      && (rest != [] && k < |rest| ==>
            Step(c) == Next(Tick(c1.(inBuf := rest[k..], jumpStack := Reverse(rest[..k]) + [OpenBracket] + c.jumpStack)))
            && Step(c).c.inBuf[0] == CloseBracket)
      && (rest != [] && k == |rest| ==> Step(c).Break? && Step(c).c.errMsg == "no closing ] found" && Step(c).c.inBuf == [])
  {
    OpenStep(c);
    ParkOnZero(c.(inBuf := c.inBuf[1..]));
  }

  /**
   * `[` on a zero cell in front of a loop body without brackets parks the body
   * on the jump stack, most recent first, behind the `[`, and leaves the `]` next.
   */
  lemma SkipBracketFreeBody(c: Config, body: seq<byte>, tail: seq<byte>)
    requires c.inBuf == [OpenBracket] + body + [CloseBracket] + tail && CloseBracket !in body
    requires CanRead(c) && Cell(c) == 0
    ensures Step(c) == Next(c.(inBuf := [CloseBracket] + tail, parenState := c.parenState + 1,
                               jumpStack := Reverse(body) + [OpenBracket] + c.jumpStack, inBufIdx := c.inBufIdx + 1))
  {
    var c0 := c.(inBuf := c.inBuf[1..]);
    assert c0.inBuf == body + [CloseBracket] + tail;
    assert CanRead(c0) && Cell(c0) == 0;
    ParkBody(c0, body, tail);
    OpenStep(c);
  }

  /** The forward skip of a `[` over a zero cell, in front of a body without `]`. */
  lemma ParkBody(c: Config, body: seq<byte>, tail: seq<byte>)
    requires c.inBuf == body + [CloseBracket] + tail && CloseBracket !in body
    requires CanRead(c) && Cell(c) == 0
    ensures JumpRight(OpenBracket, c)
         == Next(c.(inBuf := [CloseBracket] + tail, parenState := c.parenState + 1,
                    jumpStack := Reverse(body) + [OpenBracket] + c.jumpStack, inBufIdx := c.inBufIdx + 1))
  {
    FirstClose(c.inBuf, body, tail);
    assert Park(OpenBracket, c.inBuf, c.jumpStack)
        == Moved(true, [CloseBracket] + tail, Reverse(body) + [OpenBracket] + c.jumpStack);
    ParkedOnZero(c);
  }

  /** In a body without `]` followed by a `]`, the first `]` is the one right after the body. */
  lemma FirstClose(rest: seq<byte>, body: seq<byte>, tail: seq<byte>)
    requires rest == body + [CloseBracket] + tail && CloseBracket !in body
    ensures IndexOf(rest, CloseBracket) == |body|
    ensures rest[..|body|] == body && rest[|body|..] == [CloseBracket] + tail
  {
    assert forall i :: 0 <= i < |body| ==> rest[i] == body[i] && rest[i] != CloseBracket;
    assert rest[|body|] == CloseBracket;
  }

  /** `[` on a nonzero cell only increments the paren counter: the body runs next. */
  lemma EnterOnNonZero(c: Config)
    requires |c.inBuf| > 0 && c.inBuf[0] == OpenBracket && CanRead(c) && Cell(c) != 0
    ensures Step(c) == Next(c.(inBuf := c.inBuf[1..], parenState := c.parenState + 1, inBufIdx := c.inBufIdx + 1))
  {
    OpenStep(c);
  }

  /** `]` on a zero cell with the counter at least 1 decrements the counter and falls through. */
  lemma FallThroughOnZero(c: Config)
    requires |c.inBuf| > 0 && c.inBuf[0] == CloseBracket && c.parenState >= 1 && CanRead(c) && Cell(c) == 0
    ensures Step(c) == Next(c.(inBuf := c.inBuf[1..], parenState := c.parenState - 1, inBufIdx := c.inBufIdx + 1))
  {
    assert ParseCommand(CloseBracket) == Some(JumpLeftIfNonZero);
  }

  /**
   * `]` on a nonzero cell with the counter at least 1: the `]` and the jump-stack
   * bytes before the first `[` go back onto `in_buf`, which then starts with that
   * `[`; without a `[` on the stack, `pop(0)` raises IndexError.
   */
  lemma RepeatOnNonZero(c: Config)
    requires |c.inBuf| > 0 && c.inBuf[0] == CloseBracket && c.parenState >= 1 && CanRead(c) && Cell(c) != 0
    ensures var k := IndexOf(c.jumpStack, OpenBracket);
      && (k < |c.jumpStack| ==>
            && Step(c).Next?
            && Step(c).c.inBuf == [OpenBracket] + Reverse(c.jumpStack[..k]) + c.inBuf
            && Step(c).c.jumpStack == c.jumpStack[k + 1..])
      && (k == |c.jumpStack| ==>
            Step(c) == Raise(c.(inBuf := Reverse(c.jumpStack) + c.inBuf, jumpStack := [],
                                parenState := c.parenState - 1), IndexError))
  {
    var k := IndexOf(c.jumpStack, OpenBracket);
    if k < |c.jumpStack| {
      assert [OpenBracket] + Reverse(c.jumpStack[..k]) + [c.inBuf[0]] + c.inBuf[1..]
          == [OpenBracket] + Reverse(c.jumpStack[..k]) + c.inBuf;
    } else {
      assert Reverse(c.jumpStack) + [c.inBuf[0]] + c.inBuf[1..] == Reverse(c.jumpStack) + c.inBuf;
    }
  }

  /**
   * The two scans are inverse on a loop body without brackets: what a forward
   * skip parks, the next backward scan gives back, in program order, behind a `[`.
   */
  lemma {:induction false} ParkThenRestore(body: seq<byte>, rest: seq<byte>, js: seq<byte>, later: seq<byte>)
    requires OpenBracket !in body && CloseBracket !in body
    ensures var parked := Park(OpenBracket, body + [CloseBracket] + rest, js);
      && parked.found
      && parked.inBuf == [CloseBracket] + rest
      && Restore(CloseBracket, later, parked.jumpStack)
         == Moved(true, [OpenBracket] + body + [CloseBracket] + later, js)
  {
    var s := body + [CloseBracket] + rest;
    assert s[..|body|] == body;
    assert s[|body|..] == [CloseBracket] + rest;
    assert s[|body|] == CloseBracket;
    assert forall i :: 0 <= i < |body| ==> s[i] == body[i] && s[i] != CloseBracket;
    assert IndexOf(s, CloseBracket) == |body|;
    var stack := Reverse(body) + [OpenBracket] + js;
    assert stack[..|body|] == Reverse(body);
    assert stack[|body| + 1..] == js;
    assert stack[|body|] == OpenBracket;
    assert forall i :: 0 <= i < |body| ==> stack[i] == Reverse(body)[i] && stack[i] != OpenBracket;
    assert IndexOf(stack, OpenBracket) == |body|;
    ReverseReverse(body);
  }

  /** While the pointer is inside the tape, an iteration that continues keeps it there. */
  lemma StepKeepsPointer(c: Config)
    requires |c.inBuf| > 0 && 0 <= c.ptr < |c.mem|
    ensures Step(c).Next? ==> 0 <= Step(c).c.ptr < |c.mem|
    ensures !(0 <= Step(c).c.ptr < |c.mem|) ==>
      Step(c).Break? && Step(c).c.flgErr
      && Step(c).c.errMsg in {"data pointer overran memory size", "data pointer underran memory size"}
  {
  }

  /** Iterations that continue do not touch the error flag or message; a break always sets the flag. */
  lemma StepErrors(c: Config)
    requires |c.inBuf| > 0
    ensures Step(c).Next? ==> Step(c).c.flgErr == c.flgErr && Step(c).c.errMsg == c.errMsg
    ensures Step(c).Break? ==> Step(c).c.flgErr
  {
  }

  /** The paren counter never goes below zero. */
  lemma StepParen(c: Config)
    requires |c.inBuf| > 0 && c.parenState >= 0
    ensures Step(c).c.parenState >= 0
  {
  }

  /** No iteration removes anything from `out_buf`. */
  lemma StepOutput(c: Config)
    requires |c.inBuf| > 0
    ensures c.outBuf <= Step(c).c.outBuf
  {
  }

  // ----- the whole loop -----

  /** `out_buf` never shrinks. */
  lemma {:induction false} LoopOutputGrows(c: Config)
    ensures c.outBuf <= Loop(c).final.outBuf
    decreases Measure(c)
  {
    if |c.inBuf| > 0 {
      StepOutput(c);
      StepDecreases(c);
      if Step(c).Next? {
        LoopOutputGrows(Step(c).c);
      }
    }
  }

  /**
   * Started with the pointer on the tape, the loop leaves it there unless it
   * ended on the overrun or underrun error.
   */
  lemma {:induction false} LoopKeepsPointer(c: Config)
    requires 0 <= c.ptr < |c.mem|
    ensures var h := Loop(c);
      !(0 <= h.final.ptr < |c.mem|) ==>
        h.outcome == Returned && h.final.flgErr
        && h.final.errMsg in {"data pointer overran memory size", "data pointer underran memory size"}
    decreases Measure(c)
  {
    if |c.inBuf| > 0 {
      StepKeepsPointer(c);
      StepDecreases(c);
      if Step(c).Next? {
        LoopKeepsPointer(Step(c).c);
      }
    }
  }

  /** The paren counter stays non-negative over the whole loop. */
  lemma {:induction false} LoopParen(c: Config)
    requires c.parenState >= 0
    ensures Loop(c).final.parenState >= 0
    decreases Measure(c)
  {
    if |c.inBuf| > 0 {
      StepParen(c);
      StepDecreases(c);
      if Step(c).Next? {
        LoopParen(Step(c).c);
      }
    }
  }

  /**
   * When the loop returns normally with the error flag down, it consumed all of
   * `in_buf`; when it left the flag as it found it, the message is unchanged too.
   */
  lemma {:induction false} LoopErrors(c: Config)
    ensures var h := Loop(c);
      && (h.outcome == Returned && !h.final.flgErr ==> h.final.inBuf == [] && !c.flgErr)
      && (c.flgErr ==> h.final.flgErr)
      && (!c.flgErr && !h.final.flgErr ==> h.final.errMsg == c.errMsg)
    decreases Measure(c)
  {
    if |c.inBuf| > 0 {
      StepErrors(c);
      StepDecreases(c);
      if Step(c).Next? {
        LoopErrors(Step(c).c);
      }
    }
  }

  /**
   * The machine after `steps` iterations that each changed the current cell by
   * `d`, modulo 256, and that left `rest` in `in_buf`.
   */
  function CellChanged(c: Config, rest: seq<byte>, steps: nat, d: int): (r: Config)
    requires CanRead(c)
    ensures CanRead(r) && Slot(r.ptr, |r.mem|) == Slot(c.ptr, |c.mem|) && Cell(r) == (Cell(c) + steps * d) % 256
  {
    c.(inBuf := rest, inBufIdx := c.inBufIdx + steps, mem := c.mem[Slot(c.ptr, |c.mem|) := (Cell(c) + steps * d) % 256])
  }

  /** One change of the cell by `d` followed by `steps - 1` more is `steps` of them. */
  lemma CellChangedTwice(c: Config, rest: seq<byte>, steps: nat, d: int)
    requires CanRead(c) && |c.inBuf| > 0 && steps >= 1
    ensures CellChanged(CellChanged(c, c.inBuf[1..], 1, d), rest, steps - 1, d) == CellChanged(c, rest, steps, d)
  {
    var k := Slot(c.ptr, |c.mem|);
    var v := Cell(c);
    var x := (steps - 1) * d;
    assert v + 1 * d + x == v + steps * d;
    ModAdd(v + 1 * d, x);
    var w := (v + steps * d) % 256;
    assert c.mem[k := (v + 1 * d) % 256][k := w] == c.mem[k := w];
  }

  /** An iteration that goes on is followed by the rest of the loop. */
  lemma LoopUnfold(c: Config)
    requires |c.inBuf| > 0 && Step(c).Next?
    ensures Loop(c) == Loop(Step(c).c)
  {
  }

  /** A `+` over a readable cell is followed by the rest of the loop. */
  lemma LoopIncrement(c: Config)
    requires |c.inBuf| > 0 && c.inBuf[0] == 43 && CanRead(c)
    ensures Loop(c) == Loop(CellChanged(c, c.inBuf[1..], 1, 1))
  {
    IncrementWraps(c);
    var c1 := CellChanged(c, c.inBuf[1..], 1, 1);
    assert Step(c) == Next(c1);
    LoopUnfold(c);
  }

  /** A `-` over a readable cell is followed by the rest of the loop. */
  lemma LoopDecrement(c: Config)
    requires |c.inBuf| > 0 && c.inBuf[0] == 45 && CanRead(c)
    ensures Loop(c) == Loop(CellChanged(c, c.inBuf[1..], 1, -1))
  {
    DecrementWraps(c);
    var c1 := CellChanged(c, c.inBuf[1..], 1, -1);
    assert Step(c) == Next(c1);
    LoopUnfold(c);
  }

  /**
   * `n` times `+` at the front of `in_buf` adds `n` to the current cell modulo
   * 256 and changes nothing else; the loop then goes on with the rest.
   */
  lemma {:induction false} IncrementsWrap(c: Config, n: nat, rest: seq<byte>)
    requires c.inBuf == Repeat(43, n) + rest && CanRead(c)
    ensures Loop(c) == Loop(CellChanged(c, rest, n, 1))
    decreases n
  {
    if n == 0 {
      assert c.inBuf == rest;
      assert c.mem[Slot(c.ptr, |c.mem|) := Cell(c) % 256] == c.mem;
      assert CellChanged(c, rest, 0, 1) == c;
    } else {
      var c1 := CellChanged(c, c.inBuf[1..], 1, 1);
      LoopIncrement(c);
      assert c1.inBuf == Repeat(43, n - 1) + rest;
      IncrementsWrap(c1, n - 1, rest);
      CellChangedTwice(c, rest, n, 1);
    }
  }

  /**
   * `n` times `-` at the front of `in_buf` subtracts `n` from the current cell
   * modulo 256 and changes nothing else; the loop then goes on with the rest.
   */
  lemma {:induction false} DecrementsWrap(c: Config, n: nat, rest: seq<byte>)
    requires c.inBuf == Repeat(45, n) + rest && CanRead(c)
    ensures Loop(c) == Loop(CellChanged(c, rest, n, -1))
    decreases n
  {
    if n == 0 {
      assert c.inBuf == rest;
      assert c.mem[Slot(c.ptr, |c.mem|) := Cell(c) % 256] == c.mem;
      assert CellChanged(c, rest, 0, -1) == c;
    } else {
      var c1 := CellChanged(c, c.inBuf[1..], 1, -1);
      LoopDecrement(c);
      assert c1.inBuf == Repeat(45, n - 1) + rest;
      DecrementsWrap(c1, n - 1, rest);
      CellChangedTwice(c, rest, n, -1);
    }
  }
}
