# State-manager precompile shim, modelled in Dafny

The state manager of this go-ethereum fork (`core/vm/state_manager.go`) is a
precompile that exposes a few state operations to contract code through an
ABI-style calling convention. A call is a 4-byte method selector followed by
32-byte argument words. The selector of a method is the first four bytes of
the Keccak-256 digest of its canonical signature, such as
`getStorage(address,bytes32)`. At package initialisation `init` fills the
`methodIds` map from selectors to handler functions. `callStateManager`
treats an empty input as a no-op and otherwise calls the handler found under
the first four input bytes, passing it the whole input. Six of the eight
handlers decode an address, the last 20 bytes of the word at 4..36;
`getStorage` and `setStorage` also decode the key word at 36, and
`setStorage` the value word at 68. These six then read or update storage,
nonces, code or code hashes in `evm.StateDB`.
Code is returned framed by `simpleAbiEncode`. `getCodeContractAddress`
returns the address word unchanged, and `associateCodeContract` returns an
empty result and touches nothing.

The project has six modules, one per component:

- `Bytes` (`bytes.dfy`): bytes, `uint64`, 32-byte words and 20-byte
  addresses. It holds big-endian encoding and decoding with their round-trip
  and injectivity lemmas, and the library behaviour the source relies on:
  `binary.BigEndian.PutUint64`, Go's `copy`, and `common.BytesToAddress` /
  `BytesToHash`, which keep the last 20 or 32 bytes.
- `Abi` (`abi.dfy`): `SimpleAbiEncode` as written, a reader for the layout
  it writes, and the Solidity contract ABI encoding of one dynamic `bytes`
  return value as a reference to compare it with.
- `Backend` (`backend.dfy`): the `StateDB` class. Its fields are finite
  maps (storage, nonces, code, code hashes). It has reader functions and two
  mutating methods, `SetState` and `SetNonce`.
- `Handlers` (`handlers.dfy`): the eight handlers. The two that change
  state are methods that modify the backend. Of the six that do not, four
  readers are functions of the input and the current state, and two
  (`getCodeContractAddress`, `associateCodeContract`) of the input alone.
- `Registry` (`registry.dfy`): UTF-8 encoding of the signature, selector
  derivation, the handler enumeration, the `funcs` table and `init`.
- `Dispatch` (`dispatch.dfy`): `callStateManager`, the handler call, and
  two methods that check storage and nonce round trips through the
  dispatcher.

How the model follows the code:

- Go panics become preconditions. The dispatcher requires `len(input) >= 4`
  and a registered selector; a missing entry would be a call through a nil
  function value. Each handler requires the input length its slices need:
  100 for `setStorage`, 68 for `getStorage`, 36 for the other
  single-address handlers. `associateCodeContract` reads no input, so it
  needs only the 4 selector bytes the dispatcher already requires.
- The code has no error for a short input or an unknown selector: it
  panics, and the model follows the code.
- `simpleAbiEncode` is not the Solidity ABI layout of one dynamic `bytes`
  return value, and the model keeps what the code writes: two zero bytes, an offset word holding 2, a length
  word, the payload, and then `len % 32` zero bytes of padding.
  `Abi.StandardDecodeOfSimpleAbiEncode` shows that a generic ABI decoder
  reads this output as an empty payload. `Abi.SimpleAbiTailIsStandardIff`
  shows that the tail after the offset word matches the standard layout
  exactly when `len % 32` is 0 or 16. `Abi.SimpleAbiRoundTrip` shows that
  reading the length word at 34..66 and slicing gives the payload back.
- Keccak-256 is the parameter `keccak256: seq<byte> -> Word` of every
  member that derives selectors. So the model holds for any 32-byte hash.
  Selector distinctness is the hypothesis `Registry.SelectorsDistinct`.

## Model

| member | source | states |
|---|---|---|
| `Registry.MethodSignatureToMethodId` | core/vm/state_manager.go:35-39 | The selector is always 4 bytes, namely the first four bytes of Keccak-256 of the signature's UTF-8 bytes: a `copy` of the digest into a zeroed 4-byte array keeps exactly those. |
| `Registry.Utf8Encode` | core/vm/state_manager.go:37 | `[]byte(s)` of a string has between one and four bytes per character. |
| `Registry.SignaturesAreAscii` | core/vm/state_manager.go:15-24 | Every signature registered in `funcs` is ASCII, so its `[]byte` conversion has one byte per character holding the character's code. |
| `Registry.AsciiUtf8Encode` | core/vm/state_manager.go:37 | `[]byte(sig)` of an ASCII signature has one byte per character, each holding the character's code, so the hashed bytes are the signature's characters. |
| `Registry.Init` | core/vm/state_manager.go:28-33 | Whatever the order the `funcs` entries are visited in, the keys of `methodIds` are exactly the selectors of the `funcs` signatures, and every key maps to the handler of some signature with that selector. When the selectors are pairwise distinct, each signature's selector maps to that signature's own handler. |
| `Registry.EveryHandlerRegisteredOnce` | core/vm/state_manager.go:15-24 | Each of the eight handlers appears in `funcs`, and under exactly one signature. |
| `Dispatch.MinInputLength` | core/vm/state_manager.go:51-108 | The input length a handler's slices need (:52-54, :61-62, :69, :76, :88, :94, :103; `associateCodeContract` at :82-85 reads no input, so 4) is the 4 selector bytes plus a whole number of 32-byte argument words, at most three (100 bytes). |
| `Dispatch.Callable` | core/vm/state_manager.go:43-47 | Every call with a registered selector and all three argument words (at least 100 bytes) completes without a panic, whichever handler it selects. A non-empty input shorter than four bytes, or one whose selector is not registered, panics. |
| `Dispatch.CallStateManager` | core/vm/state_manager.go:41-49 | On empty input it returns an empty result and leaves the backend unchanged, with no handler run. Otherwise the result and the new backend state are exactly those of the handler registered under `input[0..4)`, run on the whole unmodified input. |
| `Dispatch.Invoke` | core/vm/state_manager.go:47 | Calling a registered handler value does exactly what that handler does (`Dispatch.Performs`), for each of the eight handlers. |
| `Handlers.AddressArg` | core/vm/state_manager.go:52 | The decoded address is bytes 16..36 of the input: the last 20 bytes of the word at 4..36. |
| `Handlers.KeyArg` | core/vm/state_manager.go:53 | The decoded key is the word at 36..68, unchanged. |
| `Handlers.ValueArg` | core/vm/state_manager.go:54 | The decoded value is the word at 68..100, unchanged. |
| `Handlers.SetStorage` | core/vm/state_manager.go:51-58 | Slot (`input[16..36)`, `input[36..68)`) now holds `input[68..100)`. Every other slot, every nonce, all code and all code hashes are unchanged, and the result is empty. |
| `Handlers.GetStorage` | core/vm/state_manager.go:60-66 | The result is the 32-byte value of slot (`input[16..36)`, `input[36..68)`). |
| `Handlers.SetThenGetStorage` | core/vm/state_manager.go:51-66 | After a `setStorage`, `getStorage` reads the written value when the two inputs agree on bytes 16..68 (address bytes and key), and its own slot's old value otherwise. |
| `Handlers.GetCodeContractBytecode` | core/vm/state_manager.go:68-73 | The result is `simpleAbiEncode` of the address's code. For code shorter than 2^64 bytes, reading the frame recovers the code exactly. |
| `Handlers.GetCodeContractHash` | core/vm/state_manager.go:75-80 | The result is the 32-byte stored code hash of the address, with no framing. |
| `Handlers.AssociateCodeContract` | core/vm/state_manager.go:82-85 | The result is empty whatever the input, and the backend is not read. |
| `Handlers.GetCodeContractAddress` | core/vm/state_manager.go:87-91 | The result is the 32-byte word `input[4..36)` verbatim. Its last 20 bytes are the decoded address argument. |
| `Handlers.GetOvmContractNonce` | core/vm/state_manager.go:93-100 | The result is 32 bytes: 24 zero bytes, then the 8-byte big-endian nonce. Read as a 256-bit big-endian integer it is the address's nonce. |
| `Handlers.IncrementOvmContractNonce` | core/vm/state_manager.go:102-108 | The address's nonce becomes old + 1 mod 2^64 (uint64 wrap-around). All other nonces, all storage and all code are unchanged, and the result is empty. |
| `Handlers.AddressHighBytesIgnored` | core/vm/state_manager.go:68-100 | Any two inputs of at least 36 bytes that agree on bytes 16..36, the address bytes, give the same `getCodeContractBytecode`, `getCodeContractHash` and `getOvmContractNonce` results, whatever their selector, the high 12 bytes of the address word, and the bytes after it. |
| `Handlers.StorageReadUsesSlotBytesOnly` | core/vm/state_manager.go:60-66 | Any two inputs of at least 68 bytes that agree on bytes 16..68, the address bytes and the key, give the same `getStorage` result, whatever their other bytes. |
| `Dispatch.SetStorageThenGetStorage` | core/vm/state_manager.go:41-66 | Through the dispatcher, a `setStorage` call followed by a `getStorage` call on the same address bytes and key returns the written value. Only that slot changes. |
| `Dispatch.IncrementThenGetNonce` | core/vm/state_manager.go:93-108 | Through the dispatcher, `incrementOvmContractNonce` followed by `getOvmContractNonce` on the same address returns a zero-prefixed word whose value is old nonce + 1 mod 2^64. |
| `Abi.SimpleAbiEncode` | core/vm/state_manager.go:110-119 | For a payload of n bytes the output has length 66 + n + n%32 and this layout: bytes 0..2 are zero; the word at 2..34 is big-endian 2, with only byte 33 nonzero; the word at 34..66 holds n mod 2^64, with its first 24 bytes zero; bytes 66..66+n are the payload; the rest is zero. |
| `Abi.SimpleAbiRoundTrip` | core/vm/state_manager.go:110-119 | For payloads shorter than 2^64 bytes, reading the length word at 34..66 and slicing recovers the payload exactly. |
| `Abi.StandardDecodeOfSimpleAbiEncode` | core/vm/state_manager.go:115-118 | A generic Solidity ABI decoder finds offset 0 and length 0 in the output, so it reads an empty payload whatever was encoded. |
| `Abi.SimplePaddingAlignsIff` | core/vm/state_manager.go:113 | The padding `n % 32` equals the word-aligning padding `(32 - n % 32) % 32` if and only if `n % 32` is 0 or 16. |
| `Abi.SimpleAbiTailIsStandardIff` | core/vm/state_manager.go:110-119 | After the two leading bytes and the offset word, the output equals the standard length word, payload and padding if and only if `n % 32` is 0 or 16. |
| `Bytes.PutUint64` | core/vm/state_manager.go:96 | `PutUint64` writes eight bytes whose big-endian value is the `uint64` given. |
| `Bytes.Uint64Word` | core/vm/state_manager.go:111-112 | A zeroed 32-byte buffer with `PutUint64` into its last eight bytes has 24 leading zeros and is the 256-bit big-endian word of the value. |
| `Bytes.Copy` | core/vm/state_manager.go:46 | Go's `copy` overwrites the first min(len(dst), len(src)) bytes of dst with src and keeps len(dst). |
| `Bytes.RightAligned` | core/vm/state_manager.go:52 | `BytesToAddress`/`BytesToHash` keep the last 20 or 32 bytes of a longer input, and left-pad a shorter one with zeros. |
| `Bytes.Zeros` | core/vm/state_manager.go:111-115 | `make([]byte, n)` has length n and every byte zero. |
| `Backend.StateDB.GetState` | core/vm/state_manager.go:63 | The backend's slot read returns the stored value, or the zero word for a slot never written. |
| `Backend.StateDB.GetCode` | core/vm/state_manager.go:70 | The backend's code read returns the stored code, or empty code for an address without code. |
| `Backend.StateDB.GetCodeHash` | core/vm/state_manager.go:77 | The backend's code-hash read returns the stored hash, or the zero hash for an address without one. |
| `Backend.StateDB.GetNonce` | core/vm/state_manager.go:96 | The backend's nonce read returns the stored nonce, or 0 for an address never set. |
| `Backend.StateDB.SetState` | core/vm/state_manager.go:56 | The backend's slot write changes that slot only. |
| `Backend.StateDB.SetNonce` | core/vm/state_manager.go:105 | The backend's nonce write changes that nonce only. |

## Left out

- The `fmt.Println` / `hex.EncodeToString` trace output of every handler.
  It is I/O and does not affect results.
- Keccak-256 itself. It is a parameter, and no selector value is computed.
  Distinctness of the eight selectors is a hypothesis, not a proved fact.
- Go map iteration order in `init`. It is modelled as an arbitrary choice
  of the next signature. On a collision the model says only that some
  colliding signature's handler survives.
- The package-level `methodIds` variable. `Init` returns the map, and the
  map is passed to `CallStateManager`. `FUNCS` is `funcs`, and the model
  has `Init` take it as an argument.
- The real `StateDB`: tries, journaling, snapshots and account existence.
  The backend is four maps, and an absent entry reads as zero, empty code or
  a zero hash. The model assumes no link between code and code hash.
- The `*EVM` and `*Contract` arguments. Handlers use only `evm.StateDB`,
  which is the `db` parameter here; `contract` is unused.
- The `error` result. Every handler returns a nil error, so the model
  returns only the bytes. Go's nil slice and empty slice both become `[]`.
- Slice capacity and aliasing. In Go, `input[:4]`, `input[4:36]`,
  `input[36:68]` and `input[68:100]` on a shorter input with enough
  capacity do not panic, but the model requires the input to be that long. The
  result of `getCodeContractAddress` aliases the caller's input buffer; the
  model returns a copy of the value.
- The unused `executionMangerBytecode` variable.
- Concurrency: the file has none.
