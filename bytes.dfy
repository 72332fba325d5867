/** Bytes and the sequence helpers both interpreters are specified with. */
module Bytes {

  /** An unsigned 8-bit value: a tape cell, a program byte or an output byte. */
  type byte = x: int | 0 <= x < 256

  /** The eight bytes that name commands: `+` `,` `-` `.` `<` `>` `[` `]`. */
  const CommandBytes: set<byte> := {43, 44, 45, 46, 60, 62, 91, 93}

  /** `[` and `]`, the two bytes the jump logic scans for. */
  const OpenBracket: byte := 91
  const CloseBracket: byte := 93

  /** `s` back to front. */
  function Reverse<T>(s: seq<T>): (r: seq<T>)
    ensures |r| == |s|
    ensures forall i :: 0 <= i < |s| ==> r[i] == s[|s| - 1 - i]
  {
    if s == [] then [] else [s[|s| - 1]] + Reverse(s[..|s| - 1])
  }

  lemma {:induction false} ReverseReverse<T>(s: seq<T>)
    ensures Reverse(Reverse(s)) == s
  {
    var r := Reverse(s);
    assert forall i :: 0 <= i < |s| ==> Reverse(r)[i] == s[i];
  }

  /** Reversing keeps the elements. */
  lemma ReverseHas<T>(x: T, s: seq<T>)
    ensures x in Reverse(s) <==> x in s
  {
    if x in s {
      var i :| 0 <= i < |s| && s[i] == x;
      assert Reverse(s)[|s| - 1 - i] == x;
    }
    if x in Reverse(s) {
      var j :| 0 <= j < |s| && Reverse(s)[j] == x;
      assert s[|s| - 1 - j] == x;
    }
  }

  /** Reversing `[x] + s` puts `x` last. */
  lemma ReverseCons<T>(x: T, s: seq<T>)
    ensures Reverse([x] + s) == Reverse(s) + [x]
  {
    var l := Reverse([x] + s);
    var r := Reverse(s) + [x];
    assert |l| == |r|;
    assert forall i :: 0 <= i < |l| ==> l[i] == r[i];
  }

  /** The position of the first `x` in `s`, or `|s|` when `x` does not occur. */
  function IndexOf(s: seq<byte>, x: byte): (k: nat)
    ensures k <= |s|
    ensures k < |s| <==> x in s
    ensures k < |s| ==> s[k] == x
    ensures forall i :: 0 <= i < k ==> s[i] != x
  {
    if s == [] then 0
    else if s[0] == x then 0
    else
      assert s == [s[0]] + s[1..];
      1 + IndexOf(s[1..], x)
  }

  /** A sequence cut around its element at `k`. */
  lemma CutAt<T>(s: seq<T>, k: nat)
    requires k < |s|
    ensures s[..k] + [s[k]] + s[k + 1..] == s
  {
  }

  /** Before the first `x` there is no `x`. */
  lemma IndexOfPrefix(s: seq<byte>, x: byte)
    ensures x !in s[..IndexOf(s, x)]
  {
    var k := IndexOf(s, x);
    forall i | 0 <= i < k
      ensures s[..k][i] != x
    {
      assert s[..k][i] == s[i];
    }
  }

  /** The number of `[` minus the number of `]` in `s`. */
  function Balance(s: seq<byte>): int
  {
    if s == [] then 0
    else Balance(s[..|s| - 1]) + Weight(s[|s| - 1])
  }

  /** What one byte adds to a bracket count: +1 for `[`, -1 for `]`, 0 otherwise. */
  function Weight(b: byte): int
  {
    if b == OpenBracket then 1 else if b == CloseBracket then -1 else 0
  }

  /** Counting from the front gives the same balance. */
  lemma {:induction false} BalancePrepend(b: byte, s: seq<byte>)
    ensures Balance([b] + s) == Weight(b) + Balance(s)
    decreases |s|
  {
    if s != [] {
      var t := s[..|s| - 1];
      assert ([b] + s)[..|s|] == [b] + t;
      BalancePrepend(b, t);
    }
  }

  /** `n` copies of `b`, a program such as `+++` given by its length. */
  function Repeat(b: byte, n: nat): (s: seq<byte>)
    ensures |s| == n
    ensures forall i :: 0 <= i < n ==> s[i] == b
  {
    seq(n, _ => b)
  }

  /** Reducing modulo 256 before an addition does not change the result modulo 256. */
  lemma ModAdd(a: int, x: int)
    ensures (a % 256 + x) % 256 == (a + x) % 256
  {
    var q := a / 256;
    assert a == 256 * q + a % 256;
    assert a + x == (a % 256 + x) + 256 * q;
  }
}
