/** Machine integers, network byte order and 16-bit serial arithmetic. */
module Bytes {
  type byte = x: int | 0 <= x < 256
  type u10 = x: int | 0 <= x < 1024
  type u15 = x: int | 0 <= x < 0x8000
  type u16 = x: int | 0 <= x < 0x1_0000
  type u32 = x: int | 0 <= x < 0x1_0000_0000

  datatype Option<+T> = None | Some(value: T)

  function Be16(hi: byte, lo: byte): u16 {
    256 * hi + lo
  }

  function Be32(b3: byte, b2: byte, b1: byte, b0: byte): u32 {
    0x100_0000 * b3 + 0x1_0000 * b2 + 256 * b1 + b0
  }

  function Hi(x: u16): byte {
    x / 256
  }

  function Lo(x: u16): byte {
    x % 256
  }

  lemma HiLo(x: u16)
    ensures Be16(Hi(x), Lo(x)) == x
  {
  }

  /** The last `n` bytes of `x`, most significant first. */
  function BytesBE(x: nat, n: nat): (r: seq<byte>)
    ensures |r| == n
  {
    if n == 0 then [] else BytesBE(x / 256, n - 1) + [x % 256]
  }

  lemma FourBytes(x: u32)
    ensures BytesBE(x, 4) == [x / 0x100_0000, x / 0x1_0000 % 256, x / 256 % 256, x % 256]
  {
    assert x / 256 / 256 == x / 0x1_0000 && x / 0x1_0000 / 256 == x / 0x100_0000;
    assert BytesBE(x / 0x100_0000, 1) == [x / 0x100_0000];
    assert BytesBE(x / 0x1_0000, 2) == [x / 0x100_0000, x / 0x1_0000 % 256];
    assert BytesBE(x / 256, 3) == [x / 0x100_0000, x / 0x1_0000 % 256, x / 256 % 256];
  }

  lemma JoinBytes(x: u32)
    ensures Be32(x / 0x100_0000, x / 0x1_0000 % 256, x / 256 % 256, x % 256) == x
  {
    var q1 := x / 256;
    var q2 := x / 0x1_0000;
    assert q2 == q1 / 256 && x / 0x100_0000 == q2 / 256;
  }

  /** The four bytes of `x`; reading them back with `Be32` gives `x`. */
  function Bytes32(x: u32): (r: seq<byte>)
    ensures |r| == 4 && Be32(r[0], r[1], r[2], r[3]) == x
  {
    FourBytes(x);
    JoinBytes(x);
    BytesBE(x, 4)
  }

  /** The next sequence number, with the wrap of a 16-bit counter. */
  function Succ16(x: u16): u16 {
    (x + 1) % 0x1_0000
  }

  /** `a - b` in 16-bit unsigned arithmetic. */
  function Diff16(a: u16, b: u16): u16 {
    (a - b) % 0x1_0000
  }

  /** The next value of a 32-bit counter. */
  function Inc32(x: u32): u32 {
    (x + 1) % 0x1_0000_0000
  }

  /** A 32-bit counter after `n` increments from zero. */
  ghost function Count32(n: nat): u32 {
    if n == 0 then 0 else Inc32(Count32(n - 1))
  }

  lemma IncModulo(x: nat)
    ensures Inc32(x % 0x1_0000_0000) == (x + 1) % 0x1_0000_0000
  {
    assert x == 0x1_0000_0000 * (x / 0x1_0000_0000) + x % 0x1_0000_0000;
  }

  lemma {:induction false} Count32IsModulo(n: nat)
    ensures Count32(n) == n % 0x1_0000_0000
  {
    hide Inc32;
    if n == 0 {
    } else {
      Count32IsModulo(n - 1);
      IncModulo(n - 1);
    }
  }

  /** `n * k` as repeated addition, so that proofs need no nonlinear arithmetic. */
  function Times(n: nat, k: nat): nat {
    if n == 0 then 0 else Times(n - 1, k) + k
  }

  lemma {:induction false} TimesIsProduct(n: nat, k: nat)
    ensures Times(n, k) == n * k
  {
    if n == 0 {
    } else {
      TimesIsProduct(n - 1, k);
      assert n * k == (n - 1) * k + k;
    }
  }

  lemma {:induction false} TimesMonotone(m: nat, n: nat, k: nat)
    requires m <= n
    ensures Times(m, k) <= Times(n, k)
  {
    if m >= n {
    } else {
      TimesMonotone(m, n - 1, k);
    }
  }

  /** `n * (c * k) == c * (n * k)`. */
  lemma {:induction false} TimesScales(n: nat, c: nat, k: nat)
    ensures Times(n, c * k) == c * Times(n, k)
  {
    if n == 0 {
    } else {
      TimesScales(n - 1, c, k);
      assert c * Times(n, k) == c * Times(n - 1, k) + c * k;
    }
  }

  function Last<T>(s: seq<T>): T
    requires s != []
  {
    s[|s| - 1]
  }

  function Front<T>(s: seq<T>): seq<T>
    requires s != []
  {
    s[..|s| - 1]
  }

  lemma FrontThenLast<T>(s: seq<T>)
    requires s != []
    ensures s == Front(s) + [Last(s)]
  {
  }

  lemma ConcatEnd<T>(a: seq<T>, b: seq<T>)
    requires b != []
    ensures Front(a + b) == a + Front(b) && Last(a + b) == Last(b)
  {
  }

  lemma MiddleOf<T>(a: seq<T>, m: seq<T>, z: seq<T>)
    ensures |a| + |m| <= |a + (m + z)| && (a + (m + z))[|a|..|a| + |m|] == m
  {
    var s := a + (m + z);
    assert s[|a|..] == m + z;
    assert s[|a|..|a| + |m|] == s[|a|..][..|m|];
  }

  lemma SliceOfSlice<T>(b: seq<T>, q: nat, m: seq<T>, from: nat, to: nat)
    requires q + |m| <= |b| && b[q..q + |m|] == m && from <= to <= |m|
    ensures b[q + from..q + to] == m[from..to]
  {
    forall k | from <= k < to
      ensures b[q + k] == m[k]
    {
      assert b[q..q + |m|][k] == b[q + k];
    }
  }

  lemma MiddleSlice<T>(a: seq<T>, m: seq<T>, z: seq<T>, from: nat, to: nat)
    requires from <= to <= |m|
    ensures |a| + to <= |a + (m + z)| && (a + (m + z))[|a| + from..|a| + to] == m[from..to]
  {
    MiddleOf(a, m, z);
    SliceOfSlice(a + (m + z), |a|, m, from, to);
  }

  function Zeros(n: nat): (r: seq<byte>)
    ensures |r| == n && forall j :: 0 <= j < n ==> r[j] == 0
  {
    seq(n, _ => 0)
  }
}
