/** The return framer for dynamic byte payloads used by the code lookup of
    the state manager, a reader for the layout it writes, and, for
    comparison, the single dynamic `bytes` return value of the Solidity
    contract ABI ("Formal Specification of the Encoding"). */
module Abi {
  import opened Bytes

  datatype Option<T> = None | Some(value: T)

  /** `simpleAbiEncode`: two zero bytes, an offset word holding 2, a length
      word holding `uint64(len(bytes))`, the payload, then `len % 32` zero
      bytes. */
  function SimpleAbiEncode(bytes: seq<byte>): (r: seq<byte>)
    ensures |r| == 66 + |bytes| + |bytes| % WORD_SIZE
    ensures r[..2] == [0, 0]
    ensures AllZero(r[2..33]) && r[33] == 2 && FromBigEndian(r[2..34]) == 2
    ensures AllZero(r[34..58]) && FromBigEndian(r[34..66]) == |bytes| % UINT64_MODULUS
    ensures r[66..66 + |bytes|] == bytes
    ensures AllZero(r[66 + |bytes|..])
  {
    var encodedCode := Uint64Word(|bytes| % UINT64_MODULUS);
    var padding := Zeros(|bytes| % WORD_SIZE);
    var codeWithLength := encodedCode + bytes + padding;
    var offset := Uint64Word(2);
    FrameSlices(offset, encodedCode, bytes, padding);
    [0, 0] + (offset + codeWithLength)
  }

  /** Where the pieces of `SimpleAbiEncode` land in its result. */
  lemma FrameSlices(offset: seq<byte>, length: seq<byte>, payload: seq<byte>, padding: seq<byte>)
    requires |offset| == 32 && |length| == 32
    ensures var r := [0, 0] + (offset + (length + payload + padding));
      && |r| == 66 + |payload| + |padding|
      && r[..2] == [0, 0] && r[2..34] == offset && r[34..66] == length
      && r[66..66 + |payload|] == payload && r[66 + |payload|..] == padding
  {
  }

  /** Reads the layout `SimpleAbiEncode` writes: the length word at bytes
      34..66, then that many payload bytes. */
  function ReadSimpleAbi(buf: seq<byte>): (r: Option<seq<byte>>)
    ensures r.Some? ==> |buf| >= 66 + |r.value|
  {
    if |buf| < 66 then None
    else
      var n := FromBigEndian(buf[34..66]);
      if 66 + n <= |buf| then Some(buf[66..66 + n]) else None
  }

  /** Reading the length word and slicing recovers the payload exactly. */
  lemma SimpleAbiRoundTrip(bytes: seq<byte>)
    requires |bytes| < UINT64_MODULUS
    ensures ReadSimpleAbi(SimpleAbiEncode(bytes)) == Some(bytes)
  {
    var n := |bytes|;
    var r := SimpleAbiEncode(bytes);
    assert n % UINT64_MODULUS == n;
    assert |r| >= 66 + n;
    assert FromBigEndian(r[34..66]) == n;
    assert r[66..66 + n] == bytes;
  }

  /** The padding that aligns n payload bytes to the next word boundary,
      as the Solidity contract ABI demands. */
  function AbiPadding(n: nat): (p: nat)
    ensures p < WORD_SIZE && (n + p) % WORD_SIZE == 0
  {
    (WORD_SIZE - n % WORD_SIZE) % WORD_SIZE
  }

  /** The Solidity contract ABI encoding of a single dynamic `bytes` return
      value: offset word 0x20, length word, payload, zero padding. */
  function StandardAbiEncode(bytes: seq<byte>): (r: seq<byte>)
    ensures |r| % WORD_SIZE == 0
  {
    assert (64 + |bytes| + AbiPadding(|bytes|)) % WORD_SIZE == (|bytes| + AbiPadding(|bytes|)) % WORD_SIZE;
    ToBigEndian(0x20, 32) + ToBigEndian(|bytes|, 32) + bytes + Zeros(AbiPadding(|bytes|))
  }

  /** Generic ABI decoding of a single dynamic `bytes` return value: follow
      the offset word at 0, read the length word there, slice the payload. */
  function StandardAbiDecode(buf: seq<byte>): (r: Option<seq<byte>>)
  {
    if |buf| < 32 then None
    else
      var offset := FromBigEndian(buf[..32]);
      if offset + 32 > |buf| then None
      else
        var n := FromBigEndian(buf[offset..offset + 32]);
        if offset + 32 + n <= |buf| then Some(buf[offset + 32..offset + 32 + n]) else None
  }

  lemma StandardAbiRoundTrip(bytes: seq<byte>)
    requires |bytes| < Pow256(32)
    ensures StandardAbiDecode(StandardAbiEncode(bytes)) == Some(bytes)
  {
    var r := StandardAbiEncode(bytes);
    assert r[..32] == ToBigEndian(0x20, 32);
    assert r[32..64] == ToBigEndian(|bytes|, 32);
    assert r[64..64 + |bytes|] == bytes;
    assert 0x20 < Pow256(32) by { Pow256Monotone(1, 32); }
    FromToBigEndian(0x20, 32);
    FromToBigEndian(|bytes|, 32);
  }

  /** A generic ABI decoder reads the output's leading 32 bytes as offset 0
      and the same bytes as length 0: it sees an empty payload, whatever
      the payload was. */
  lemma StandardDecodeOfSimpleAbiEncode(bytes: seq<byte>)
    ensures StandardAbiDecode(SimpleAbiEncode(bytes)) == Some([])
  {
    var r := SimpleAbiEncode(bytes);
    forall i | 0 <= i < 32
      ensures r[..32][i] == 0
    {
      if i >= 2 {
        assert r[i] == r[2..33][i - 2];
      }
    }
    assert r[..32] == Zeros(32);
    FromBigEndianZeros(32);
    assert FromBigEndian(r[..32]) == 0;
    assert r[0..32] == r[..32];
    assert r[32..32] == [];
  }

  /** The code's padding `n % 32` is the aligning padding exactly when
      `n % 32` is 0 or 16. */
  lemma SimplePaddingAlignsIff(n: nat)
    ensures n % WORD_SIZE == AbiPadding(n) <==> n % WORD_SIZE == 0 || n % WORD_SIZE == 16
  {
  }

  /** Past the two leading bytes and the offset word, the code writes the
      standard length word, payload and padding exactly when `n % 32` is
      0 or 16. */
  lemma SimpleAbiTailIsStandardIff(bytes: seq<byte>)
    requires |bytes| < UINT64_MODULUS
    ensures SimpleAbiEncode(bytes)[34..] == StandardAbiEncode(bytes)[32..]
            <==> |bytes| % WORD_SIZE == 0 || |bytes| % WORD_SIZE == 16
  {
    var n := |bytes|;
    SimpleAbiTail(bytes);
    StandardAbiTail(bytes);
    Uint64WordIsBigEndian(n);
    SimplePaddingAlignsIff(n);
    var lengthWord := ToBigEndian(n, 32);
    var simplePad := Zeros(n % WORD_SIZE);
    var standardPad := Zeros(AbiPadding(n));
    if lengthWord + bytes + simplePad == lengthWord + bytes + standardPad {
      assert |simplePad| == |standardPad|;
    }
  }

  lemma SimpleAbiTail(bytes: seq<byte>)
    requires |bytes| < UINT64_MODULUS
    ensures SimpleAbiEncode(bytes)[34..] == Uint64Word(|bytes|) + bytes + Zeros(|bytes| % WORD_SIZE)
  {
    var n := |bytes|;
    assert n % UINT64_MODULUS == n;
    SimpleTailSlice(Uint64Word(2), Uint64Word(n), bytes, Zeros(n % WORD_SIZE));
  }

  lemma SimpleTailSlice(offset: seq<byte>, length: seq<byte>, payload: seq<byte>, padding: seq<byte>)
    requires |offset| == 32
    ensures ([0, 0] + (offset + (length + payload + padding)))[34..] == length + payload + padding
  {
  }

  lemma StandardAbiTail(bytes: seq<byte>)
    ensures StandardAbiEncode(bytes)[32..]
            == ToBigEndian(|bytes|, 32) + bytes + Zeros(AbiPadding(|bytes|))
  {
    StandardTailSlice(ToBigEndian(0x20, 32), ToBigEndian(|bytes|, 32), bytes, Zeros(AbiPadding(|bytes|)));
  }

  lemma StandardTailSlice(offset: seq<byte>, length: seq<byte>, payload: seq<byte>, padding: seq<byte>)
    requires |offset| == 32
    ensures (offset + length + payload + padding)[32..] == length + payload + padding
  {
  }
}
