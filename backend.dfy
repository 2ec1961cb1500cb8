/** The state backend the handlers reach through `evm.StateDB`: storage
    slots, nonces, code and code hashes per address, as plain finite maps.
    An entry that is absent reads as the backend's zero value. */
module Backend {
  import opened Bytes

  /** Storage slot (addr, key) of a storage map, zero when never written. */
  function StorageAt(storage: map<(Address, Word), Word>, addr: Address, key: Word): Word
  {
    if (addr, key) in storage then storage[(addr, key)] else Zeros(32)
  }

  /** The nonce of addr in a nonce map, zero when never written. */
  function NonceAt(nonces: map<Address, uint64>, addr: Address): uint64
  {
    if addr in nonces then nonces[addr] else 0
  }

  class StateDB {
    var storage: map<(Address, Word), Word>
    var nonces: map<Address, uint64>
    var code: map<Address, seq<byte>>
    var codeHash: map<Address, Word>

    constructor (storage: map<(Address, Word), Word>, nonces: map<Address, uint64>,
                 code: map<Address, seq<byte>>, codeHash: map<Address, Word>)
      ensures this.storage == storage && this.nonces == nonces
      ensures this.code == code && this.codeHash == codeHash
    {
      this.storage, this.nonces := storage, nonces;
      this.code, this.codeHash := code, codeHash;
    }

    /** `GetState`: the slot's value, or the zero word if never written. */
    function GetState(addr: Address, key: Word): (r: Word)
      reads this
      ensures (addr, key) in storage ==> r == storage[(addr, key)]
      ensures (addr, key) !in storage ==> AllZero(r)
    {
      StorageAt(storage, addr, key)
    }

    /** `GetNonce`: the stored nonce, or 0 for an address never set. */
    function GetNonce(addr: Address): (r: uint64)
      reads this
      ensures addr in nonces ==> r == nonces[addr]
      ensures addr !in nonces ==> r == 0
    {
      NonceAt(nonces, addr)
    }

    /** `GetCode`: the stored code, or nil (empty) for an address without code. */
    function GetCode(addr: Address): (r: seq<byte>)
      reads this
      ensures addr in code ==> r == code[addr]
      ensures addr !in code ==> r == []
    {
      if addr in code then code[addr] else []
    }

    /** `GetCodeHash`: the stored code hash, or the zero hash for an
        address the backend holds none for. */
    function GetCodeHash(addr: Address): (r: Word)
      reads this
      ensures addr in codeHash ==> r == codeHash[addr]
      ensures addr !in codeHash ==> AllZero(r)
    {
      if addr in codeHash then codeHash[addr] else Zeros(32)
    }

    method SetState(addr: Address, key: Word, value: Word)
      modifies this
      ensures storage == old(storage)[(addr, key) := value]
      ensures nonces == old(nonces) && code == old(code) && codeHash == old(codeHash)
    {
      storage := storage[(addr, key) := value];
    }

    method SetNonce(addr: Address, nonce: uint64)
      modifies this
      ensures nonces == old(nonces)[addr := nonce]
      ensures storage == old(storage) && code == old(code) && codeHash == old(codeHash)
    {
      nonces := nonces[addr := nonce];
    }
  }
}
