/** Bytes, 32-byte words and big-endian integers: the parts of Go's
    `encoding/binary`, slice built-ins and go-ethereum's `common` package
    that the state manager relies on. */
module Bytes {

  /** A Go `byte`. */
  type byte = b: int | 0 <= b < 256

  /** A Go `uint64`. */
  type uint64 = x: int | 0 <= x < 0x1_0000_0000_0000_0000

  const UINT64_MODULUS: nat := 0x1_0000_0000_0000_0000

  /** The calling convention's word, `WORD_SIZE` in package `vm`. */
  const WORD_SIZE: nat := 32
  const ADDRESS_LENGTH: nat := 20

  /** The result of `make([]byte, n)`. */
  function Zeros(n: nat): (r: seq<byte>)
    ensures |r| == n
    ensures AllZero(r)
  {
    seq(n, _ => 0)
  }

  /** A `common.Hash`, and every other 32-byte word. */
  type Word = s: seq<byte> | |s| == 32 witness Zeros(32)

  /** A `common.Address`. */
  type Address = s: seq<byte> | |s| == 20 witness Zeros(20)

  predicate AllZero(s: seq<byte>)
  {
    forall i :: 0 <= i < |s| ==> s[i] == 0
  }

  function Pow256(n: nat): (r: nat)
    ensures r > 0
  {
    if n == 0 then 1 else 256 * Pow256(n - 1)
  }

  /** The n low-order bytes of v, most significant first. */
  function ToBigEndian(v: nat, n: nat): (r: seq<byte>)
    ensures |r| == n
  {
    if n == 0 then [] else ToBigEndian(v / 256, n - 1) + [v % 256]
  }

  /** The unsigned integer a big-endian byte string denotes. */
  function FromBigEndian(s: seq<byte>): (v: nat)
    ensures v < Pow256(|s|)
  {
    if s == [] then 0 else FromBigEndian(s[..|s| - 1]) * 256 + s[|s| - 1]
  }

  /** `binary.BigEndian.PutUint64`: the eight bytes it writes. */
  function PutUint64(v: uint64): (r: seq<byte>)
    ensures |r| == 8
    ensures FromBigEndian(r) == v
  {
    Pow256Eight();
    FromToBigEndian(v, 8);
    ToBigEndian(v, 8)
  }

  /** A 32-byte buffer from `make([]byte, 32)` whose last eight bytes were
      then filled by `PutUint64(v)`: the 256-bit big-endian word of v. */
  function Uint64Word(v: uint64): (r: Word)
    ensures AllZero(r[..24]) && r[24..] == PutUint64(v)
    ensures FromBigEndian(r) == v
  {
    var w := Zeros(24) + PutUint64(v);
    FromBigEndianZeroPrefix(24, PutUint64(v));
    w
  }

  /** Go's `copy(dst, src)`: the new contents of dst. */
  function Copy(dst: seq<byte>, src: seq<byte>): (r: seq<byte>)
    ensures |r| == |dst|
    ensures forall i :: 0 <= i < |dst| ==> r[i] == if i < |src| then src[i] else dst[i]
  {
    if |src| >= |dst| then src[..|dst|] else src + dst[|src|..]
  }

  /** What `SetBytes` of go-ethereum's fixed-size byte types does to a
      zeroed value of n bytes: keep the last n bytes of b, or copy b into
      the last |b| bytes, leaving the leading bytes zero. */
  function RightAligned(b: seq<byte>, n: nat): (r: seq<byte>)
    ensures |r| == n
    ensures |b| >= n ==> r == b[|b| - n..]
    ensures |b| < n ==> AllZero(r[..n - |b|]) && r[n - |b|..] == b
  {
    if |b| > n then b[|b| - n..] else Zeros(n - |b|) + b
  }

  /** `common.BytesToAddress`. */
  function BytesToAddress(b: seq<byte>): Address
  {
    RightAligned(b, ADDRESS_LENGTH)
  }

  /** `common.BytesToHash`. */
  function BytesToHash(b: seq<byte>): Word
  {
    RightAligned(b, WORD_SIZE)
  }

  lemma Pow256Eight()
    ensures Pow256(8) == UINT64_MODULUS
  {
  }

  /** Decoding a big-endian encoding gives back the value it encodes. */
  lemma {:induction false} FromToBigEndian(v: nat, n: nat)
    requires v < Pow256(n)
    ensures FromBigEndian(ToBigEndian(v, n)) == v
  {
    if n > 0 {
      var s := ToBigEndian(v, n);
      assert s[..n - 1] == ToBigEndian(v / 256, n - 1);
      FromToBigEndian(v / 256, n - 1);
    }
  }

  /** Two byte strings of one length that denote the same number are equal. */
  lemma {:induction false} FromBigEndianInjective(a: seq<byte>, b: seq<byte>)
    requires |a| == |b|
    requires FromBigEndian(a) == FromBigEndian(b)
    ensures a == b
  {
    if a != [] {
      var n := |a|;
      FromBigEndianInjective(a[..n - 1], b[..n - 1]);
      assert a == a[..n - 1] + [a[n - 1]];
      assert b == b[..n - 1] + [b[n - 1]];
    }
  }

  /** Leading zero bytes do not change the number. */
  lemma {:induction false} FromBigEndianZeroPrefix(k: nat, s: seq<byte>)
    ensures FromBigEndian(Zeros(k) + s) == FromBigEndian(s)
  {
    if s == [] {
      assert Zeros(k) + s == Zeros(k);
      FromBigEndianZeros(k);
    } else {
      var t := Zeros(k) + s;
      assert t[..|t| - 1] == Zeros(k) + s[..|s| - 1];
      FromBigEndianZeroPrefix(k, s[..|s| - 1]);
    }
  }

  lemma {:induction false} FromBigEndianZeros(k: nat)
    ensures FromBigEndian(Zeros(k)) == 0
  {
    if k > 0 {
      assert Zeros(k)[..k - 1] == Zeros(k - 1);
      FromBigEndianZeros(k - 1);
    }
  }

  /** For a value that fits in 64 bits, the word of `Uint64Word` is its
      256-bit big-endian encoding. */
  lemma Uint64WordIsBigEndian(v: uint64)
    ensures Uint64Word(v) == ToBigEndian(v, 32)
  {
    assert Pow256(8) <= Pow256(32) by { Pow256Monotone(8, 32); }
    FromToBigEndian(v, 32);
    FromBigEndianInjective(Uint64Word(v), ToBigEndian(v, 32));
  }

  lemma {:induction false} Pow256Monotone(m: nat, n: nat)
    requires m <= n
    ensures Pow256(m) <= Pow256(n)
  {
    if m < n {
      Pow256Monotone(m, n - 1);
    }
  }
}
