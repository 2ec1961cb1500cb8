/** The eight state-manager handlers. Each takes the whole call input —
    the 4-byte selector followed by 32-byte argument words — and the state
    backend that `evm.StateDB` denotes. Reading a word past the end of the
    input panics in the source; here each handler requires the input to be
    long enough for the words it reads. */
module Handlers {
  import opened Bytes
  import opened Abi
  import opened Backend

  /** The address argument: the last 20 bytes of the word at 4..36. */
  function AddressArg(input: seq<byte>): (a: Address)
    requires |input| >= 36
    ensures a == input[16..36]
  {
    BytesToAddress(input[4..36])
  }

  /** The key argument: the word at 36..68. */
  function KeyArg(input: seq<byte>): (k: Word)
    requires |input| >= 68
    ensures k == input[36..68]
  {
    BytesToHash(input[36..68])
  }

  /** The value argument: the word at 68..100. */
  function ValueArg(input: seq<byte>): (v: Word)
    requires |input| >= 100
    ensures v == input[68..100]
  {
    BytesToHash(input[68..100])
  }

  /** The state change of `setStorage`: slot (input[16..36], input[36..68])
      now holds input[68..100]; no other slot, nonce or code entry changed. */
  twostate predicate StoredSlot(db: StateDB, input: seq<byte>)
    requires |input| >= 100
    reads db
  {
    && db.storage == old(db.storage)[(input[16..36], input[36..68]) := input[68..100]]
    && db.nonces == old(db.nonces) && db.code == old(db.code) && db.codeHash == old(db.codeHash)
  }

  /** The state change of `incrementOvmContractNonce`: the nonce of
      input[16..36] is one more than before, modulo 2^64; nothing else
      changed. */
  twostate predicate IncrementedNonce(db: StateDB, input: seq<byte>)
    requires |input| >= 36
    reads db
  {
    && db.nonces == old(db.nonces)[input[16..36] := (old(db.GetNonce(input[16..36])) + 1) % UINT64_MODULUS]
    && db.storage == old(db.storage) && db.code == old(db.code) && db.codeHash == old(db.codeHash)
  }

  /** `setStorage(address,bytes32,bytes32)`: writes one storage slot and
      nothing else, and returns nothing. */
  method SetStorage(db: StateDB, input: seq<byte>) returns (ret: seq<byte>)
    requires |input| >= 100
    modifies db
    ensures StoredSlot(db, input)
    ensures ret == []
  {
    var address := AddressArg(input);
    var key := KeyArg(input);
    var val := ValueArg(input);
    db.SetState(address, key, val);
    ret := [];
  }

  /** `getStorage(address,bytes32)`: the 32-byte value of the slot. */
  function GetStorage(db: StateDB, input: seq<byte>): (r: seq<byte>)
    requires |input| >= 68
    reads db
    ensures |r| == 32
    ensures r == StorageAt(db.storage, input[16..36], input[36..68])
  {
    var address := AddressArg(input);
    var key := KeyArg(input);
    db.GetState(address, key)
  }

  /** `getCodeContractBytecode(address)`: the code of the address, framed
      by `SimpleAbiEncode`; reading the frame gives the code back. */
  function GetCodeContractBytecode(db: StateDB, input: seq<byte>): (r: seq<byte>)
    requires |input| >= 36
    reads db
    ensures r == SimpleAbiEncode(db.GetCode(input[16..36]))
    ensures |db.GetCode(input[16..36])| < UINT64_MODULUS ==>
              ReadSimpleAbi(r) == Some(db.GetCode(input[16..36]))
  {
    var address := AddressArg(input);
    var code := db.GetCode(address);
    assert |code| < UINT64_MODULUS ==> ReadSimpleAbi(SimpleAbiEncode(code)) == Some(code) by {
      if |code| < UINT64_MODULUS {
        SimpleAbiRoundTrip(code);
      }
    }
    SimpleAbiEncode(code)
  }

  /** `getCodeContractHash(address)`: the 32-byte code hash, unframed. */
  function GetCodeContractHash(db: StateDB, input: seq<byte>): (r: seq<byte>)
    requires |input| >= 36
    reads db
    ensures |r| == 32
    ensures r == db.GetCodeHash(input[16..36])
  {
    var address := AddressArg(input);
    db.GetCodeHash(address)
  }

  /** `associateCodeContract(address,address)`: reads neither its input
      nor the backend, and returns an empty result. */
  function AssociateCodeContract(input: seq<byte>): (r: seq<byte>)
    ensures r == []
  {
    []
  }

  /** `getCodeContractAddress(address)`: the whole address word, verbatim;
      its last 20 bytes are the address argument. */
  function GetCodeContractAddress(input: seq<byte>): (r: seq<byte>)
    requires |input| >= 36
    ensures |r| == 32 && r == input[4..36]
    ensures BytesToAddress(r) == AddressArg(input)
  {
    input[4..36]
  }

  /** `getOvmContractNonce(address)`: 24 zero bytes, then the nonce as
      eight big-endian bytes; as a 256-bit big-endian word, the nonce. */
  function GetOvmContractNonce(db: StateDB, input: seq<byte>): (r: seq<byte>)
    requires |input| >= 36
    reads db
    ensures |r| == 32 && AllZero(r[..24])
    ensures r[24..] == PutUint64(db.GetNonce(input[16..36]))
    ensures FromBigEndian(r) == db.GetNonce(input[16..36])
  {
    var address := AddressArg(input);
    var b := PutUint64(db.GetNonce(address));
    var val := Zeros(24) + b;
    assert val == Uint64Word(db.GetNonce(address));
    val
  }

  /** `incrementOvmContractNonce(address)`: adds one to the nonce, wrapping
      at 2^64 as Go's uint64 does, changes nothing else, returns nothing. */
  method IncrementOvmContractNonce(db: StateDB, input: seq<byte>) returns (ret: seq<byte>)
    requires |input| >= 36
    modifies db
    ensures IncrementedNonce(db, input)
    ensures ret == []
  {
    var address := AddressArg(input);
    var oldNonce := db.GetNonce(address);
    db.SetNonce(address, (oldNonce + 1) % UINT64_MODULUS);
    ret := [];
  }

  /** After `setStorage`, reading a slot through `getStorage` gives the
      written value when the two calls name the same slot (the same bytes
      16..68: the address bytes and the key word), and its own slot's old
      value otherwise. */
  lemma {:induction false} SetThenGetStorage(storage: map<(Address, Word), Word>,
                                             setInput: seq<byte>, getInput: seq<byte>)
    requires |setInput| >= 100 && |getInput| >= 68
    ensures var written := storage[(setInput[16..36], setInput[36..68]) := setInput[68..100]];
      StorageAt(written, getInput[16..36], getInput[36..68])
        == if getInput[16..68] == setInput[16..68] then setInput[68..100]
           else StorageAt(storage, getInput[16..36], getInput[36..68])
  {
    var s, g := setInput, getInput;
    assert s[16..68] == s[16..36] + s[36..68];
    assert g[16..68] == g[16..36] + g[36..68];
    if g[16..36] == s[16..36] && g[36..68] == s[36..68] {
      assert g[16..68] == s[16..68];
    }
    if g[16..68] == s[16..68] {
      assert g[16..36] == g[16..68][..20] == s[16..36];
      assert g[36..68] == g[16..68][20..] == s[36..68];
    }
  }

  /** Only bytes 16..36 of the address word reach the backend: two inputs
      of at least one word that agree on those bytes read the same code,
      code hash and nonce, whatever their other bytes and lengths. */
  lemma AddressHighBytesIgnored(db: StateDB, a: seq<byte>, b: seq<byte>)
    requires |a| >= 36 && |b| >= 36 && a[16..36] == b[16..36]
    ensures GetCodeContractBytecode(db, a) == GetCodeContractBytecode(db, b)
    ensures GetCodeContractHash(db, a) == GetCodeContractHash(db, b)
    ensures GetOvmContractNonce(db, a) == GetOvmContractNonce(db, b)
  {
  }

  /** `getStorage` reads only bytes 16..68: two inputs that agree on the
      address bytes and the key word read the same slot. */
  lemma StorageReadUsesSlotBytesOnly(db: StateDB, a: seq<byte>, b: seq<byte>)
    requires |a| >= 68 && |b| >= 68 && a[16..68] == b[16..68]
    ensures GetStorage(db, a) == GetStorage(db, b)
  {
    assert a[16..36] == a[16..68][..20] == b[16..68][..20] == b[16..36];
    assert a[36..68] == a[16..68][20..] == b[16..68][20..] == b[36..68];
  }
}
