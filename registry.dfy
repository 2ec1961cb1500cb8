/** Selector derivation and the registry of state-manager handlers: each
    canonical signature's selector is the first four bytes of the
    Keccak-256 digest of the signature's bytes, and the registry maps each
    selector to the handler registered under that signature. */
module Registry {
  import opened Bytes

  /** Keccak-256, a foreign hash: the model is stated for every function
      from byte strings to 32-byte digests. */
  type Keccak256 = seq<byte> -> Word

  /** The UTF-8 encoding of one Unicode scalar value. */
  function Utf8EncodeChar(c: char): (r: seq<byte>)
    ensures 1 <= |r| <= 4
    ensures (c as int < 0x80) == (r == [c as int])
  {
    var x := c as int;
    if x < 0x80 then [x]
    else if x < 0x800 then [0xC0 + x / 0x40, 0x80 + x % 0x40]
    else if x < 0x1_0000 then [0xE0 + x / 0x1000, 0x80 + (x / 0x40) % 0x40, 0x80 + x % 0x40]
    else [0xF0 + x / 0x4_0000, 0x80 + (x / 0x1000) % 0x40, 0x80 + (x / 0x40) % 0x40, 0x80 + x % 0x40]
  }

  /** Go's `[]byte(s)`: the UTF-8 bytes of a string. */
  function Utf8Encode(s: string): (r: seq<byte>)
    ensures |s| <= |r| <= 4 * |s|
  {
    if s == [] then [] else Utf8EncodeChar(s[0]) + Utf8Encode(s[1..])
  }

  predicate IsAscii(s: string)
  {
    forall i :: 0 <= i < |s| ==> s[i] as int < 0x80
  }

  /** An ASCII string, such as every registered signature, is its own
      byte string: one byte per character, holding the character's code. */
  lemma {:induction false} AsciiUtf8Encode(s: string)
    requires IsAscii(s)
    ensures |Utf8Encode(s)| == |s|
    ensures forall i :: 0 <= i < |s| ==> Utf8Encode(s)[i] == s[i] as int
  {
    if s != [] {
      assert IsAscii(s[1..]) by {
        forall i | 0 <= i < |s| - 1 ensures s[1..][i] as int < 0x80 {
          assert s[1..][i] == s[i + 1];
        }
      }
      AsciiUtf8Encode(s[1..]);
    }
  }

  /** `MethodSignatureToMethodId`: `copy` of the digest into a zeroed
      4-byte array, which keeps the digest's first four bytes. */
  function MethodSignatureToMethodId(keccak256: Keccak256, methodSignature: string): (id: seq<byte>)
    ensures |id| == 4
    ensures id == keccak256(Utf8Encode(methodSignature))[..4]
  {
    Copy(Zeros(4), keccak256(Utf8Encode(methodSignature)))
  }

  /** The handler functions a selector can be bound to. */
  datatype Handler =
    | GetStorage
    | SetStorage
    | GetOvmContractNonce
    | GetCodeContractBytecode
    | GetCodeContractHash
    | GetCodeContractAddress
    | AssociateCodeContract
    | IncrementOvmContractNonce

  /** `funcs`: the eight canonical signatures and their handlers. */
  const FUNCS: map<string, Handler> := map[
    "getStorage(address,bytes32)" := GetStorage,
    "setStorage(address,bytes32,bytes32)" := SetStorage,
    "getOvmContractNonce(address)" := GetOvmContractNonce,
    "getCodeContractBytecode(address)" := GetCodeContractBytecode,
    "getCodeContractHash(address)" := GetCodeContractHash,
    "getCodeContractAddress(address)" := GetCodeContractAddress,
    "associateCodeContract(address,address)" := AssociateCodeContract,
    "incrementOvmContractNonce(address)" := IncrementOvmContractNonce
  ]

  /** No two registered signatures share a selector. The registry build
      does not check this; it is a hypothesis on the hash. */
  predicate SelectorsDistinct(keccak256: Keccak256, funcs: map<string, Handler>)
  {
    forall a, b :: a in funcs && b in funcs && a != b ==>
      MethodSignatureToMethodId(keccak256, a) != MethodSignatureToMethodId(keccak256, b)
  }

  /** `init`: fills `methodIds` from `funcs`, visiting the signatures in an
      arbitrary order, as Go's map iteration does. Its keys are exactly the
      selectors of the registered signatures (the package-level `funcs`,
      whose value is `FUNCS`, is passed in). Each maps to the handler of
      some signature with that selector (on a collision the one visited
      last wins); when the selectors are distinct, to the handler of its
      own signature. */
  method Init(keccak256: Keccak256, funcs: map<string, Handler>) returns (methodIds: map<seq<byte>, Handler>)
    ensures methodIds.Keys == set sig | sig in funcs :: MethodSignatureToMethodId(keccak256, sig)
    ensures forall id :: id in methodIds ==>
              exists sig :: sig in funcs && MethodSignatureToMethodId(keccak256, sig) == id
                            && methodIds[id] == funcs[sig]
    ensures SelectorsDistinct(keccak256, funcs) ==>
              forall sig :: sig in funcs ==> methodIds[MethodSignatureToMethodId(keccak256, sig)] == funcs[sig]
  {
    methodIds := map[];
    var remaining := funcs.Keys;
    while remaining != {}
      invariant remaining <= funcs.Keys
      invariant methodIds.Keys == set sig | sig in funcs && sig !in remaining :: MethodSignatureToMethodId(keccak256, sig)
      invariant forall id :: id in methodIds ==>
                  exists sig :: sig in funcs && sig !in remaining && MethodSignatureToMethodId(keccak256, sig) == id
                                && methodIds[id] == funcs[sig]
      invariant SelectorsDistinct(keccak256, funcs) ==>
                  forall sig :: sig in funcs && sig !in remaining ==>
                    methodIds[MethodSignatureToMethodId(keccak256, sig)] == funcs[sig]
      decreases remaining
    {
      var methodSignature :| methodSignature in remaining;
      methodIds := methodIds[MethodSignatureToMethodId(keccak256, methodSignature) := funcs[methodSignature]];
      remaining := remaining - {methodSignature};
    }
  }

  /** Every handler is registered, under exactly one signature. */
  lemma EveryHandlerRegisteredOnce()
    ensures forall h: Handler :: h in FUNCS.Values
    ensures forall a, b :: a in FUNCS && b in FUNCS && FUNCS[a] == FUNCS[b] ==> a == b
  {
    forall h: Handler ensures h in FUNCS.Values {
      match h
      case GetStorage => assert FUNCS["getStorage(address,bytes32)"] == h;
      case SetStorage => assert FUNCS["setStorage(address,bytes32,bytes32)"] == h;
      case GetOvmContractNonce => assert FUNCS["getOvmContractNonce(address)"] == h;
      case GetCodeContractBytecode => assert FUNCS["getCodeContractBytecode(address)"] == h;
      case GetCodeContractHash => assert FUNCS["getCodeContractHash(address)"] == h;
      case GetCodeContractAddress => assert FUNCS["getCodeContractAddress(address)"] == h;
      case AssociateCodeContract => assert FUNCS["associateCodeContract(address,address)"] == h;
      case IncrementOvmContractNonce => assert FUNCS["incrementOvmContractNonce(address)"] == h;
    }
  }

  /** Every registered signature is ASCII, so the bytes hashed for its
      selector are its characters' codes, one byte per character. */
  lemma SignaturesAreAscii()
    ensures forall sig :: sig in FUNCS ==> IsAscii(sig)
    ensures forall sig :: sig in FUNCS ==>
              |Utf8Encode(sig)| == |sig| && forall i :: 0 <= i < |sig| ==> Utf8Encode(sig)[i] == sig[i] as int
  {
    forall sig | sig in FUNCS
      ensures IsAscii(sig)
      ensures |Utf8Encode(sig)| == |sig| && forall i :: 0 <= i < |sig| ==> Utf8Encode(sig)[i] == sig[i] as int
    {
      SignatureIsAscii(sig);
      AsciiUtf8Encode(sig);
    }
  }

  lemma SignatureIsAscii(sig: string)
    requires sig in FUNCS
    ensures IsAscii(sig)
  {
    match FUNCS[sig]
    case GetStorage => assert sig == "getStorage(address,bytes32)"; GetStorageSignatureIsAscii();
    case SetStorage => assert sig == "setStorage(address,bytes32,bytes32)"; SetStorageSignatureIsAscii();
    case GetOvmContractNonce => assert sig == "getOvmContractNonce(address)"; GetOvmContractNonceSignatureIsAscii();
    case GetCodeContractBytecode => assert sig == "getCodeContractBytecode(address)"; GetCodeContractBytecodeSignatureIsAscii();
    case GetCodeContractHash => assert sig == "getCodeContractHash(address)"; GetCodeContractHashSignatureIsAscii();
    case GetCodeContractAddress => assert sig == "getCodeContractAddress(address)"; GetCodeContractAddressSignatureIsAscii();
    case AssociateCodeContract => assert sig == "associateCodeContract(address,address)"; AssociateCodeContractSignatureIsAscii();
    case IncrementOvmContractNonce => assert sig == "incrementOvmContractNonce(address)"; IncrementOvmContractNonceSignatureIsAscii();
  }

  lemma GetStorageSignatureIsAscii()
    ensures IsAscii("getStorage(address,bytes32)")
  {
  }

  lemma SetStorageSignatureIsAscii()
    ensures IsAscii("setStorage(address,bytes32,bytes32)")
  {
  }

  lemma GetOvmContractNonceSignatureIsAscii()
    ensures IsAscii("getOvmContractNonce(address)")
  {
  }

  lemma GetCodeContractBytecodeSignatureIsAscii()
    ensures IsAscii("getCodeContractBytecode(address)")
  {
  }

  lemma GetCodeContractHashSignatureIsAscii()
    ensures IsAscii("getCodeContractHash(address)")
  {
  }

  lemma GetCodeContractAddressSignatureIsAscii()
    ensures IsAscii("getCodeContractAddress(address)")
  {
  }

  lemma AssociateCodeContractSignatureIsAscii()
    ensures IsAscii("associateCodeContract(address,address)")
  {
  }

  lemma IncrementOvmContractNonceSignatureIsAscii()
    ensures IsAscii("incrementOvmContractNonce(address)")
  {
  }
}
