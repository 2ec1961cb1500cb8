/** `callStateManager`: the empty input is a no-op; otherwise the first
    four bytes select a handler in `methodIds`, which gets the whole input
    and whose result is returned unchanged. An input shorter than four
    bytes, an unregistered selector, or an input too short for the words
    the handler reads makes the source panic; those are the preconditions
    here. */
module Dispatch {
  import opened Bytes
  import opened Backend
  import Registry
  import H = Handlers

  /** How many input bytes a handler reads: the selector and the argument
      words it decodes (`associateCodeContract` decodes none). */
  function MinInputLength(h: Registry.Handler): (n: nat)
    ensures n >= 4 && (n - 4) % 32 == 0 && n <= 100
  {
    match h
    case SetStorage => 100
    case GetStorage => 68
    case AssociateCodeContract => 4
    case _ => 36
  }

  /** The calls the source completes without a panic. Every registered
      call that carries all three argument words completes; a non-empty
      input shorter than a selector, or with an unregistered selector,
      panics. */
  predicate Callable(methodIds: map<seq<byte>, Registry.Handler>, input: seq<byte>)
    ensures |input| >= 100 && input[..4] in methodIds ==> Callable(methodIds, input)
    ensures 0 < |input| < 4 ==> !Callable(methodIds, input)
    ensures |input| >= 4 && input[..4] !in methodIds ==> !Callable(methodIds, input)
  {
    |input| == 0
    || (|input| >= 4 && input[..4] in methodIds && |input| >= MinInputLength(methodIds[input[..4]]))
  }

  /** What running handler h on input does: its result and the new backend
      state, against the state before the call. */
  twostate predicate Performs(h: Registry.Handler, db: StateDB, input: seq<byte>, ret: seq<byte>)
    requires |input| >= MinInputLength(h)
    reads db
  {
    match h
    case SetStorage => H.StoredSlot(db, input) && ret == []
    case IncrementOvmContractNonce => H.IncrementedNonce(db, input) && ret == []
    case GetStorage => unchanged(db) && ret == H.GetStorage(db, input)
    case GetOvmContractNonce => unchanged(db) && ret == H.GetOvmContractNonce(db, input)
    case GetCodeContractBytecode => unchanged(db) && ret == H.GetCodeContractBytecode(db, input)
    case GetCodeContractHash => unchanged(db) && ret == H.GetCodeContractHash(db, input)
    case GetCodeContractAddress => unchanged(db) && ret == H.GetCodeContractAddress(input)
    case AssociateCodeContract => unchanged(db) && ret == H.AssociateCodeContract(input)
  }

  /** Calling the Go function value stored in the registry. */
  method Invoke(h: Registry.Handler, db: StateDB, input: seq<byte>) returns (ret: seq<byte>)
    requires |input| >= MinInputLength(h)
    modifies db
    ensures Performs(h, db, input, ret)
  {
    match h
    case SetStorage => ret := H.SetStorage(db, input);
    case IncrementOvmContractNonce => ret := H.IncrementOvmContractNonce(db, input);
    case GetStorage => ret := H.GetStorage(db, input);
    case GetOvmContractNonce => ret := H.GetOvmContractNonce(db, input);
    case GetCodeContractBytecode => ret := H.GetCodeContractBytecode(db, input);
    case GetCodeContractHash => ret := H.GetCodeContractHash(db, input);
    case GetCodeContractAddress => ret := H.GetCodeContractAddress(input);
    case AssociateCodeContract => ret := H.AssociateCodeContract(input);
  }

  /** `callStateManager`. */
  method CallStateManager(methodIds: map<seq<byte>, Registry.Handler>, db: StateDB, input: seq<byte>)
    returns (ret: seq<byte>)
    requires Callable(methodIds, input)
    modifies db
    ensures |input| == 0 ==> ret == [] && unchanged(db)
    ensures |input| > 0 ==> Performs(methodIds[input[..4]], db, input, ret)
  {
    if |input| == 0 {
      return [];
    }
    var methodId := Copy(Zeros(4), input[..4]);
    assert methodId == input[..4];
    ret := Invoke(methodIds[methodId], db, input);
  }

  /** Through the dispatcher: a `setStorage` call followed by a
      `getStorage` call on the same address bytes and key returns the value
      written. */
  method SetStorageThenGetStorage(methodIds: map<seq<byte>, Registry.Handler>, db: StateDB,
                                  setInput: seq<byte>, getInput: seq<byte>)
    returns (value: seq<byte>)
    requires |setInput| >= 100 && setInput[..4] in methodIds && methodIds[setInput[..4]] == Registry.SetStorage
    requires |getInput| >= 68 && getInput[..4] in methodIds && methodIds[getInput[..4]] == Registry.GetStorage
    requires getInput[16..68] == setInput[16..68]
    modifies db
    ensures value == setInput[68..100]
    ensures db.storage == old(db.storage)[(setInput[16..36], setInput[36..68]) := setInput[68..100]]
    ensures db.nonces == old(db.nonces) && db.code == old(db.code) && db.codeHash == old(db.codeHash)
  {
    var _ := CallStateManager(methodIds, db, setInput);
    value := CallStateManager(methodIds, db, getInput);
    H.SetThenGetStorage(old(db.storage), setInput, getInput);
  }

  /** Through the dispatcher: after `incrementOvmContractNonce`, a
      `getOvmContractNonce` call on the same address bytes returns the word
      whose big-endian value is the old nonce plus one, modulo 2^64. */
  method IncrementThenGetNonce(methodIds: map<seq<byte>, Registry.Handler>, db: StateDB,
                               incInput: seq<byte>, getInput: seq<byte>)
    returns (word: seq<byte>)
    requires |incInput| >= 36 && incInput[..4] in methodIds
    requires methodIds[incInput[..4]] == Registry.IncrementOvmContractNonce
    requires |getInput| >= 36 && getInput[..4] in methodIds
    requires methodIds[getInput[..4]] == Registry.GetOvmContractNonce
    requires getInput[16..36] == incInput[16..36]
    modifies db
    ensures |word| == 32 && AllZero(word[..24])
    ensures FromBigEndian(word) == (old(db.GetNonce(incInput[16..36])) + 1) % UINT64_MODULUS
    ensures db.storage == old(db.storage) && db.code == old(db.code) && db.codeHash == old(db.codeHash)
  {
    var _ := CallStateManager(methodIds, db, incInput);
    word := CallStateManager(methodIds, db, getInput);
  }
}
