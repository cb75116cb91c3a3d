# evm-db: a verified model

evm-db is a small Ethereum state engine: it decodes and admits signed transactions over JSON-RPC, runs them through
an EVM, and keeps accounts, storage, code, receipts and the block number in Redis. This project models its logic in
Dafny and proves properties of it. `dafny verify dfyconfig.toml` checks everything.

| file | part of the system |
|---|---|
| Bytes.dfy | bytes, 64-bit words, big-endian numerals |
| Rlp.dfy, RlpBuffer.dfy, Fields.dfy | RLP writer, growable buffer, reader (Appendix B of the Ethereum Yellow Paper) |
| Heap.dfy | the allocator as a sequence of answers |
| Tx.dfy, TxCode.dfy, Wire.dfy, Bounds.dfy | transaction envelope, signing preimage, decoder, recovery id, reads within the input (EIP-155, EIP-1559, EIP-2718) |
| Hex.dfy | hexadecimal text and the balance text |
| Keccak.dfy, KeccakHash.dfy | the Keccak-256 sponge (sections 4 and 5.1 of FIPS 202, with the 0x01 suffix) |
| Balance.dfy, Gas.dfy | 256-bit arithmetic; base fee and intrinsic gas |
| Redis.dfy | typed state over the flat textual store |
| Overlay.dfy, ExecContext.dfy, CreateAddress.dfy, Executor.dfy | storage overlay, contract addresses, execution |
| Admission.dfy | `eth_sendRawTransaction`, one request at a time |
| Cell.dfy, Schedule.dfy | the same requests as interleaved Redis commands, the two counters as shared cells |
| SerialSchedule.dfy | serial schedules, and one in which two sends collide |
| Batch.dfy | the JSON-RPC batch splitter |

The main results:

- Signing preimages are equal exactly when everything signed is equal, and decoding undoes encoding for every legacy
  and EIP-1559 transaction; what is signed is the head of what is sent, so a sender is recovered, with the recovery id
  that `v` carries, from the very bytes that were signed. The decoder's reading of any list of strings is given item by
  item.
- The decoder stays within its input when the outer list fits and its items are strings that do not wrap; for each of
  the three conditions there is an input without it that the decoder reads past, and the first is exact.
- Under every interleaving of Redis commands the stored nonce and block number never run ahead of the writes made.
  They count them, and no (sender, nonce) pair is accepted twice, exactly when no send is overtaken, that is, when no
  other send writes the counter between its read and its write. Sends of different accounts never disturb each other's
  nonces. Serial runs are among the schedules, with the same acceptances and no stale write; every transaction that
  executes has a two-thread schedule, made of the commands the code issues, that accepts it twice.
- The storage overlay is a map over the store: last write wins, commit overrides, and the storage statuses count the
  non-zero slots over any run. Execution is all or nothing for every behaviour of the VM, happens exactly when chain id,
  nonce and gas are right, and conserves gas; transactions of another chain are rejected in serial runs and schedules.
- The flat store of textual keys and values refines the typed state exactly: setters and getters commute with it, and
  store and typed state determine each other, so failed sends leave every stored byte alone.
- The Keccak code is the sponge over the injectively padded message; carry chains are exact under aliasing; the base
  fee stays within its geometric bounds over whole runs, also in the 64-bit code as long as there is room.
- The batch splitter dispatches exactly the rendered objects and answers with exactly their answers.

How foreign and nondeterministic parts enter: `keccakf` is any function on 25 lanes; the hash used elsewhere,
public-key recovery, receipt rendering and single-request dispatch are function parameters; an EVM run is any finite
sequence of host calls with any status, gas left and output; allocations are granted or refused in any pattern; Redis
answers every command. Where C would read outside its input, the decoder model answers `Overrun`.

Where code and comments disagree the model follows the code: the executor charges a base of 21000 gas for contract
creation too (src/evm/executor.c:588), although src/evm/gas.c:52 documents 53000; `evmdb_balance_cmp` has the sign of
`memcmp`, not only the values -1, 0 and 1; and setters return 0 whatever Redis says, so a commit cannot fail.

## Model

| member | source | states |
|---|---|---|
| `Rlp.LongHeader` | src/block/tx.c:176-196 | a long header's prefix byte gives the number of length bytes, and those bytes read back as the length |
| `Rlp.DecodeString` | src/block/tx.c:34-74 | decoding at an encoded string finds exactly its content and stops right behind it, in all three prefix ranges |
| `Rlp.DecodeList` | src/block/tx.c:76-97 | decoding a wrapped list finds exactly the payload |
| `Rlp.PrefixFree` | src/block/tx.c:198-252 | two items followed by anything, with equal bytes, are the same item followed by the same bytes |
| `Rlp.PiecesInjective` | src/block/tx.c:198-252 | equal list payloads come from equal lists, item by item, so also of equal length |
| `Rlp.ListInjective` | src/block/tx.c:254-260 | equal encoded lists have equal payloads |
| `RlpBuffers.DoublingEndsExactly` | src/block/tx.c:138-147 | in 64-bit arithmetic the doubling loop reaches the needed size if and only if that size is at most 2^63 |
| `RlpBuffers.LeastCapacity` | src/block/tx.c:136-157 | a capacity within the buffer's bounds is the least one that holds the contents, however they were appended |
| `RlpBuffers.RlpBuffer.constructor` | src/block/tx.c:263-264 | a zeroed buffer is empty and valid |
| `RlpBuffers.RlpBuffer.Reserve` | src/block/tx.c:136-157 | contents kept; it succeeds exactly when not refused memory, and then there is room for the request in a capacity of the doubling series below twice the need; a capacity given up is added to `moved`; on failure nothing changed |
| `RlpBuffers.RlpBuffer.Append` | src/block/tx.c:159-170 | contents become the concatenation; the capacity is 0 or 64*2^j, at most 64 or below twice the length, and never below the sum of all capacities given up before, which `moved` adds up; it fails exactly when refused memory and then changes nothing |
| `RlpBuffers.RlpBuffer.AppendByte` | src/block/tx.c:172-174 | appends the byte |
| `RlpBuffers.RlpBuffer.AppendLength` | src/block/tx.c:176-196 | appends the length prefix, or part of it exactly when refused memory |
| `RlpBuffers.RlpBuffer.AppendBytes` | src/block/tx.c:198-208 | appends the RLP string |
| `RlpBuffers.RlpBuffer.AppendUint64` | src/block/tx.c:210-225 | appends the RLP of the shortest big-endian form |
| `RlpBuffers.RlpBuffer.AppendBytes32` | src/block/tx.c:227-239 | appends the RLP of the word without leading zeros |
| `RlpBuffers.RlpBuffer.AppendAddress` | src/block/tx.c:241-248 | appends the RLP of the address, or of the empty string for a null one |
| `RlpBuffers.RlpBuffer.WrapList` | src/block/tx.c:254-260 | appends the list around another buffer's contents |
| `RlpBuffers.MinimalBytes` | src/block/tx.c:185-189 | the digit loop computes the shortest big-endian form and stays within its eight bytes |
| `Bytes.StripIsMinBE` | src/block/tx.c:227-239 | a word without its leading zeros is the shortest big-endian form of its value |
| `Fields.ParseBack` | src/block/tx.c:100-121 | every typed field (64-bit number, 256-bit word, recipient, calldata) comes back from its own wire form |
| `Fields.ReadsBack` | src/block/tx.c:362-425 | reading the fields of a list undoes writing them, whatever follows |
| `Fields.FieldsInjective` | src/block/tx.c:210-252 | lists of the same field types with equal items carry equal fields |
| `TxCode.RlpReader.DecodeItem` | src/block/tx.c:34-98 | the cursor code computes the decoding function, 64-bit wrap of `pos + len` included, and moves to the next item |
| `TxCode.RlpReader.AccumulateLength` | src/block/tx.c:64-67 | the shift-and-or loop is the big-endian value |
| `TxCode.RlpReader.Next` | src/block/tx.c:100-121 | one decode and its conversion: the field and the next position, or the failure |
| `TxCode.RlpReader.NextAll` | src/block/tx.c:366-465 | the sequence of field decodes stops at the first failure and otherwise returns all fields |
| `TxCode.TxDecode` | src/block/tx.c:326-477 | the decoder computes `DecodeTx` on every byte string; without memory for the raw copy it fails, without memory for the calldata it computes the decoding that passes the calldata over |
| `Transactions.DecodeUndoesEncode` | src/block/tx.c:326-477 | decoding the signed encoding of any legacy or EIP-1559 transaction returns every field; a legacy chain id is the one inside `v` |
| `Transactions.DecodeKeepsSigned` | src/block/tx.c:326-470 | the transaction decoded from a signed encoding has the signing preimage of the original if and only if a legacy chain id is the one inside `v` |
| `Transactions.LostCalldata` | src/block/tx.c:403-409 | when the calldata copy is refused memory, whatever would decode still decodes, with every other field and empty calldata |
| `Transactions.LostCalldataIsNotSigned` | src/block/tx.c:403-409 | a transaction that lost its calldata no longer has the preimage that was signed |
| `Bounds.ReaderInsideExactly` | src/block/tx.c:34-98 | a reader never touches a byte outside its memory, at any position, if and only if its limit lies within the memory |
| `Bounds.FieldOverrunsExactly` | src/block/tx.c:34-121 | within such a limit, using an item leaves the memory if and only if the item is a list or a string whose end wraps in 64 bits, and the bytes used do not fit |
| `Bounds.DecodeStaysInside` | src/block/tx.c:326-477 | the decoder stays within its input when the outer list fits the bytes behind its header and the items used are strings whose ends do not wrap |
| `Bounds.OuterListFitsExactly` | src/block/tx.c:76-97 | a transaction list of m bytes is decoded within the input for all strings in it if and only if its header announces at most m bytes |
| `Bounds.OuterListOverruns` | src/block/tx.c:76-83 | input: an outer list that announces nine bytes and has none |
| `Bounds.InnerListOverruns` | src/block/tx.c:76-83 | input: an item that is a list and announces a byte that is not there |
| `Bounds.WrappedStringOverruns` | src/block/tx.c:58-74 | input: a string of 2^64 - 1 bytes whose end wraps to within the list |
| `Transactions.EnvelopeInjective` | src/block/tx.c:271-313 | equal envelopes are of the same kind and hold the same items: the 0x02 form is never taken for a legacy list |
| `Transactions.PreimageInjective` | src/block/tx.c:262-313 | signing preimages are equal if and only if kind, chain id, nonce, fees, gas limit, recipient, value and calldata are; the 6-item and 9-item legacy forms are never confused |
| `Transactions.ReplayProtection` | src/block/tx.c:467-502 | for v = 2c+35+p the decoded transaction has chain id c, recovery id p and the signed contents of the original |
| `Transactions.Unprotected` | src/block/tx.c:499-500 | for v = 27+p the decoded transaction has no chain id, recovery id p and a six-item preimage |
| `Wires.SignsHeadOfWire` | src/block/tx.c:271-313 | whatever items a sent transaction holds, the signed bytes are their head: the type byte and the list of the first nine for EIP-1559, the list of the first six for legacy, followed by the chain id and two empty strings if there is one |
| `Wires.WireHasItems` | src/block/tx.c:15-22 | every sent transaction holds such a list of items |
| `Wires.LegacyMeaning` | src/block/tx.c:417-470 | on any nine strings, minimal or not, which item is which field: numbers from the first 8 bytes, words from the first 32, the address from the first 20, right-aligned; an empty recipient is none; the chain id from `v` |
| `Wires.Eip1559Meaning` | src/block/tx.c:362-425 | the same for twelve items and EIP-1559, with the access list passed over |
| `TxCode.AppendField` | src/block/tx.c:210-252 | the append functions write a field in its wire form, and fail exactly when refused memory |
| `TxCode.AppendFields` | src/block/tx.c:271-296 | the chain of appends builds exactly the list payload, and fails exactly when refused memory |
| `TxCode.SigningPreimage` | src/block/tx.c:262-322 | the two-buffer code builds exactly the preimage, whose items `Wires.SignsHeadOfWire` fixes; it answers nothing exactly for EIP-2930 or when refused memory |
| `Hex.DecodeEncode` | src/core/hex.c:8-56 | decoding undoes encoding for every byte string that fits |
| `Hex.DigitTable` | src/core/hex.c:8-32 | the digits written are 0-9a-f; those and A-F are read with their values, and no other byte |
| `Hex.PrefixOptional` | src/core/hex.c:34-56 | a prefix 0x or 0X is dropped, a text without one is taken as it is |
| `Hex.EncodeDecode` | src/core/hex.c:8-56 | re-encoding a decoded text gives its lower-case form with the 0x prefix |
| `Hex.EncodeInjective` | src/core/hex.c:8-25 | different byte strings have different texts |
| `Hex.ToFromUint64` | src/core/hex.c:58-88 | parsing the text of a 64-bit number gives the number |
| `Hex.BalanceTextIsMinimal` | src/rpc/handlers.c:250-256 | the trimmed balance text is the shortest text of the same integer, which is what hex_from_uint64 writes when it fits 64 bits |
| `Hex.HexEncode` | src/core/hex.c:8-25 | writes the text and its NUL and nothing behind, or refuses a short buffer and writes nothing |
| `Hex.HexDecode` | src/core/hex.c:34-56 | returns the decoded bytes, or -1 exactly when length, digits or room are wrong |
| `Hex.HexToUint64` | src/core/hex.c:73-88 | the accumulator is the value of the digits modulo 2^64, or an error exactly for a bad digit |
| `Hex.TrimBalance` | src/rpc/handlers.c:250-256 | the skip loop yields the shortest text of the balance |
| `Keccak.LaneRoundTrip` | src/core/keccak.c:12-24 | little-endian load and store of a lane undo each other |
| `Keccak.PadIsWholeBlocks` | src/core/keccak.c:103-107 | the padded length is a positive multiple of 136 |
| `Keccak.PadInjective` | src/core/keccak.c:103-107 | different messages have different padded forms, the single-byte 0x81 case included |
| `Keccak.LastBlockIsPad` | src/core/keccak.c:103-107 | the block filled in place is the padding of the rest |
| `Keccak.XorUndoes` | src/core/keccak.c:95-97 | xoring the same block twice restores the state, and the eight lanes beyond the rate stay |
| `Keccak.LoadLane` | src/core/keccak.c:12-18 | the byte loop computes the little-endian load |
| `Keccak.XorBlockInPlace` | src/core/keccak.c:95-97 | the lane loop xors the 17 lanes of the block and leaves the other eight alone |
| `Keccak.AbsorbBlock` | src/core/keccak.c:95-98 | one block absorbed: xor, then the permutation |
| `Keccak.FillLastBlock` | src/core/keccak.c:103-107 | copying the rest and setting two marks yields exactly its padded block |
| `Keccak.StoreLane` | src/core/keccak.c:20-24 | stores the eight bytes of a lane at its place and nothing else |
| `Keccak.SqueezeInto` | src/core/keccak.c:114-116 | the digest is the first four lanes in order |
| `Keccak.Keccak256` | src/core/keccak.c:89-117 | for every message and permutation the code equals absorbing the blocks of the padded message one by one and squeezing four lanes |
| `KeccakHash.HashBytes` | src/core/keccak.c:89-117 | the sponge as the hash that the rest of the code uses on its bytes |
| `KeccakHash.BitsOf` | src/core/keccak.c:12-24 | the bit vectors of the sponge are the binary forms of the bytes |
| `KeccakHash.SignedBlocksExactly` | src/block/tx.c:315-315 | the padded blocks absorbed for two signing hashes are equal if and only if everything signed is equal |
| `KeccakHash.CreateBlocksInjective` | src/evm/executor.c:544-549 | different (sender, nonce) pairs absorb different blocks for their contract address |
| `Balance.CompareIsNumeric` | src/state/accounts.c:8-12 | byte-wise comparison has the sign of the numeric comparison and is 0 only for equal values |
| `Balance.Add` | src/state/accounts.c:32-43 | the exact sum less the carry out, -1 exactly on carry out, also when the output is an operand |
| `Balance.Sub` | src/state/accounts.c:14-30 | the exact difference plus the borrow, -1 exactly when the first operand compares below the second, also when the output is an operand |
| `Balance.SubUndoesAdd` | src/state/accounts.c:14-43 | subtracting what was added gives the first operand back, and borrows exactly when the sum carried |
| `Balance.SumIsModular` | src/state/accounts.c:32-43 | the stored sum is a+b modulo the width |
| `Balance.DifferenceIsModular` | src/state/accounts.c:14-30 | the stored difference is a-b modulo the width |
| `Balance.FromUint64` | src/state/accounts.c:45-51 | the 32 bytes denote the number |
| `Balance.IsZero` | src/state/accounts.c:53-59 | true exactly for the value 0 |
| `Gas.CalcIsExact` | src/evm/gas.c:19-47 | the 64-bit code computes the recurrence whenever product and result fit |
| `Gas.StepBounds` | src/evm/gas.c:28-46 | one update within twice the target moves the fee by at most an eighth (at least 1 upward); a fee of 7 or more stays so |
| `Gas.ChangeExactly` | src/evm/gas.c:24-46 | the change is fee times distance over eight times the target, rounded down; at least 1 upward, and a fee that would come to 0 becomes 1 |
| `Gas.ExtremeBlocks` | src/evm/gas.c:28-46 | an empty block takes off exactly an eighth, a block at twice the target adds exactly an eighth, at least 1 |
| `Gas.RunBounds` | src/evm/gas.c:16-47 | over every run of k updates 8^k*fk >= 7^k*f0 and 8^k*(fk+8) <= 9^k*(f0+8), and fees of 7 or more never fall below 7 |
| `Gas.StepMonotone` | src/evm/gas.c:24-46 | more gas used never lowers the next fee, across the three branches |
| `Gas.MonotoneExactly` | src/evm/gas.c:43-45 | that holds for all usages if and only if the parent fee is at least 1 |
| `Gas.CalcRunIsExact` | src/evm/gas.c:16-47 | a run of the 64-bit code, each result the next parent fee, computes the recurrence when products and results fit |
| `Gas.RoomyRunFits` | src/evm/gas.c:16-47 | they fit over k blocks when 9^k*(f0+8)*target < 8^k*2^64 at the start |
| `Gas.CalcRunBounds` | src/evm/gas.c:16-47 | the bounds over whole runs for the 64-bit code |
| `Gas.CalcMonotone` | src/evm/gas.c:24-46 | more gas used never lowers the fee that the 64-bit code computes |
| `Gas.AddCalldata` | src/evm/gas.c:58-60 | the loop adds 16 per byte less 12 per zero byte |
| `Gas.GasIntrinsic` | src/evm/gas.c:54-63 | base 21000 or 53000 plus calldata; without creation it is what the executor charges |
| `Redis.KeyTextInjective` | src/state/redis_state.c:14-24 | distinct accounts, storages, codes and receipts never share a key, and the key families never overlap |
| `Redis.FieldTextInjective` | src/state/redis_state.c:117-249 | hash fields (nonce, balance, codehash, slots) never share a name |
| `Redis.HSetRepresents` | src/state/redis_state.c:117-249 | writing one hash field updates that field of the typed state and nothing else |
| `Redis.SetRepresents` | src/state/redis_state.c:279-355 | writing one string key updates that entry of the typed state and nothing else |
| `Redis.ParseDecText` | src/state/redis_state.c:182-199 | a stored decimal reads back as the number written, saturating at 2^64 - 1 |
| `Redis.StoreDeterminesWorld` | src/state/redis_state.c:76-355 | the flat store determines the typed state |
| `Redis.WorldDeterminesStore` | src/state/redis_state.c:76-355 | the typed state determines the flat store, so a setter with the right typed effect changes no other key, field or byte |
| `Redis.NonceCommand` | src/state/redis_state.c:198-199 | the store after setting a nonce is the one that HSET account:<address> nonce <decimal> makes, and no other |
| `Redis.BalanceCommand` | src/state/redis_state.c:164-165 | the same for HSET account:<address> balance <hex> |
| `Redis.CodeHashCommand` | src/state/redis_state.c:126-128 | the same for the codehash field of HSET account:<address> |
| `Redis.SlotCommand` | src/state/redis_state.c:243-244 | the same for HSET storage:<address> <key> <value> |
| `Redis.CodeCommand` | src/state/redis_state.c:285-286 | the same for SET code:<address> |
| `Redis.ReceiptCommand` | src/state/redis_state.c:323-324 | the same for SET receipt:<hash> |
| `Redis.BlockCommand` | src/state/redis_state.c:349-350 | the same for SET block:latest <decimal> |
| `Redis.RedisState.constructor` | src/state/redis_state.c:28-62 | an empty database stands for the empty typed state |
| `Redis.RedisState.GetAccount` | src/state/redis_state.c:76-115 | the three account fields, each zero when missing |
| `Redis.RedisState.SetAccount` | src/state/redis_state.c:117-133 | sets the three fields of one account in one command |
| `Redis.RedisState.GetBalance` | src/state/redis_state.c:135-153 | the balance, zero when missing |
| `Redis.RedisState.SetBalance` | src/state/redis_state.c:155-170 | sets one balance, keeping nonce and code hash |
| `Redis.RedisState.GetNonce` | src/state/redis_state.c:172-190 | the nonce, zero when missing |
| `Redis.RedisState.SetNonce` | src/state/redis_state.c:192-204 | sets one nonce, keeping balance and code hash |
| `Redis.RedisState.GetStorage` | src/state/redis_state.c:208-230 | the slot's value, zero when missing |
| `Redis.RedisState.SetStorage` | src/state/redis_state.c:232-249 | sets one slot |
| `Redis.RedisState.GetCode` | src/state/redis_state.c:253-277 | the code, empty when missing |
| `Redis.RedisState.SetCode` | src/state/redis_state.c:279-291 | sets one code |
| `Redis.RedisState.GetReceipt` | src/state/redis_state.c:293-315 | the receipt, empty when missing |
| `Redis.RedisState.SetReceipt` | src/state/redis_state.c:317-329 | sets one receipt |
| `Redis.RedisState.GetBlockNumber` | src/state/redis_state.c:333-345 | the block number, zero when missing |
| `Redis.RedisState.SetBlockNumber` | src/state/redis_state.c:347-355 | sets the block number |
| `Overlays.LogOrderIrrelevant` | src/evm/executor.c:122-131 | committing a log without duplicates gives the same map in any order |
| `Overlays.MapHasLog` | src/evm/executor.c:91-120 | every overlay is the meaning of some log that holds each slot once |
| `Overlays.ReadsLastWrite` | src/evm/executor.c:213-231 | after any host calls a read returns the last accepted write to the slot, or else the stored value |
| `Overlays.GrowingLogAcceptsAll` | src/evm/executor.c:91-120 | while the log can grow, every write is accepted |
| `Overlays.LogCapacity` | src/evm/executor.c:104-113 | the log doubles from 8 entries and is never larger than 8 or twice the slots written |
| `Overlays.StatusMeans` | src/evm/executor.c:233-267 | in the storage seen before and after: ASSIGNED exactly when the value at the slot is the same, ADDED and DELETED exactly when the slot enters or leaves the non-zero slots, MODIFIED exactly when it changes among them; no other slot changes |
| `Overlays.StatusesCountSlots` | src/evm/executor.c:233-267 | over any run of host calls, failed growth included, ADDED minus DELETED is the change in the number of non-zero visible slots |
| `ExecContexts.ExecContext.GetWrite` | src/evm/executor.c:74-89 | the backward search finds the slot's entry in the overlay map, or none |
| `ExecContexts.ExecContext.SetWrite` | src/evm/executor.c:91-120 | the overlay map is updated at one slot and the log keeps each slot once; refused exactly for a new slot when a full log cannot grow |
| `ExecContexts.ExecContext.HostGetStorage` | src/evm/executor.c:213-231 | overlay first, then store |
| `ExecContexts.ExecContext.HostSetStorage` | src/evm/executor.c:233-267 | the overlay update and its status, whose meaning `Overlays.StatusMeans` gives; the store is not touched |
| `ExecContexts.ExecContext.RunVm` | src/evm/executor.c:487-489 | any sequence of host calls leaves a valid log and the overlay of that sequence |
| `ExecContexts.ExecContext.Commit` | src/evm/executor.c:122-131 | the store becomes the old store overridden by the overlay, and commit never fails |
| `CreateAddress.ShortBytesExactly` | src/evm/executor.c:151-162 | the executor's string writer agrees with the general one if and only if the string has at most 55 bytes |
| `CreateAddress.ShortListExactly` | src/evm/executor.c:182-188 | the executor's list writer agrees with the general one if and only if the payload has at most 55 bytes |
| `CreateAddress.CreateSizes` | src/evm/executor.c:534-547 | every create-address payload has at most 30 bytes and its encoding at most 31 |
| `CreateAddress.CreatePreimageInjective` | src/evm/executor.c:544-549 | different (sender, nonce) pairs hash different bytes |
| `CreateAddress.CreatePreimageItems` | src/evm/executor.c:544-547 | the hashed bytes are the list of the sender and the nonce, in this order and nothing else |
| `CreateAddress.AddressIsHashModulo` | src/evm/executor.c:549-550 | the address is the hash of that list modulo 2^160 |
| `CreateAddress.EncodeBytes` | src/evm/executor.c:151-162 | writes the short form at an offset, keeping what stands before |
| `CreateAddress.EncodeUint64` | src/evm/executor.c:164-180 | writes the RLP of the number in at most nine bytes |
| `CreateAddress.EncodeList` | src/evm/executor.c:182-188 | writes the one-byte header and the payload |
| `CreateAddress.EncodePayload` | src/evm/executor.c:544-546 | sender and nonce one behind the other within the 32-byte array |
| `CreateAddress.ComputeCreateAddress` | src/evm/executor.c:531-552 | within its fixed arrays, the address is bytes 12 to 31 of the hash of RLP([sender, nonce]) |
| `Executor.AllOrNothing` | src/evm/executor.c:582-654 | a non-zero return changes nothing, a revert only the sender's nonce; an executed transaction moves exactly that nonce to its own nonce plus one |
| `Executor.ExecutedExactly` | src/evm/executor.c:588-650 | a transaction executes if and only if its chain id is 0 or the chain's, its nonce is the sender's, the gas limit covers 21000 plus calldata, and it is a creation, calls no code, or the VM ends without an internal error |
| `Executor.ResultExactly` | src/evm/executor.c:461-506 | creations and calls without code succeed with no output and the intrinsic gas; other calls succeed exactly for VM status 0 and return the VM's output |
| `Executor.GasConserved` | src/evm/executor.c:501-506 | gas used and gas left of the VM make up the gas it was given, in 64 bits also when it claims to leave more |
| `Executor.LimitConserved` | src/evm/executor.c:641-650 | gas used plus gas left is the gas limit, and the whole limit is used when nothing is left |
| `Executor.CallTouchesOnlyWrites` | src/evm/executor.c:505-529 | a call changes only that nonce and slots the VM wrote, each to its last accepted value |
| `Executor.CreationTouchesOnlyCode` | src/evm/executor.c:626-640 | a creation changes only that nonce and the code at the derived address, and succeeds exactly when admitted |
| `Executor.RevertChangesOneField` | src/evm/executor.c:508-513 | in the store itself, a revert rewrites one field of one hash, the sender's nonce, and not another byte |
| `Executor.CreationSetsTwoEntries` | src/evm/executor.c:636-652 | in the store itself, a creation sets one code key and that field, and not another byte |
| `Executor.GasWithinLimit` | src/evm/executor.c:501-506 | with 0 <= gas_left <= gas, intrinsic gas <= gas used <= gas limit |
| `Executor.EstimateIsLeast` | src/rpc/handlers.c:137-145 | the estimate is the least gas limit that passes the executor's check, and is the gas used by creations and by calls of accounts without code |
| `Executor.ExecuteContract` | src/evm/executor.c:442-529 | outcome and committed slots for every VM run, with gas used plus gas left equal to the gas given, the VM's output, and success exactly for status 0; without commit, or with a non-zero return, the store is untouched |
| `Executor.ExecuteTransaction` | src/evm/executor.c:582-654 | the code computes `ExecuteTx` on the typed state, and a non-zero return leaves the store byte for byte as it was |
| `Executor.ExecuteAdmitted` | src/evm/executor.c:626-653 | the same for the part behind the admission checks |
| `Executor.EvmCall` | src/evm/executor.c:656-670 | eth_call leaves the store byte for byte as it was, whatever the VM writes; gas used plus gas left is the gas given, with the VM's output and status |
| `Executor.EstimateGas` | src/rpc/handlers.c:510-546 | the estimate is the intrinsic gas of the calldata |
| `Admission.SignedTxArrives` | src/rpc/handlers.c:610-623 | a signed transaction arrives with all its fields and its sender is recovered from exactly the bytes signed |
| `Admission.Eip1559Sender` | src/block/tx.c:493-498 | an EIP-1559 transaction off the wire has the sender recovered from its preimage, r, s and the id v for v of 0 or 1, and none for any other v |
| `Admission.UnprotectedSender` | src/block/tx.c:499-500 | a legacy transaction with v = 27+p has the sender recovered with id p |
| `Admission.ProtectedSender` | src/block/tx.c:501-502 | one with v = 2c+35+p has the sender recovered with id p from the preimage for chain c |
| `Admission.NoLegacySender` | src/block/tx.c:503-505 | with any other v a legacy transaction has no sender |
| `Admission.AccessListTxHasNoSender` | src/block/tx.c:309-311 | an envelope that starts with 0x01 has no sender |
| `Admission.SendStep` | src/rpc/handlers.c:625-701 | a send is rejected and changes nothing, or takes the sender's next nonce, the next block and stores its receipt |
| `Admission.ForeignChainRejected` | src/evm/executor.c:595-601 | a transaction for another chain is rejected and changes nothing |
| `Admission.ReplayRejected` | src/rpc/handlers.c:610-634 | a transaction signed for another chain and replayed byte for byte is rejected and changes nothing |
| `Admission.ReceiptStates` | src/rpc/handlers.c:636-701 | the stored receipt, field by field: hash, next block number, sender, recipient, contract address of a creation, result and kind; and what the result is |
| `Admission.ReceiptNamesContract` | src/rpc/handlers.c:650-662 | the contract address in a creation's receipt is where its code is, with the gas the executor charged |
| `Admission.SerialRun` | src/rpc/handlers.c:574-710 | over every serial run the nonce of each account rises by its accepted transactions and the block number by all of them; accepted nonces and blocks are consecutive |
| `Admission.NoReplay` | src/rpc/handlers.c:574-710 | in a serial run no (sender, nonce) pair is accepted twice and receipt block numbers strictly increase |
| `Admission.AcceptedBelongsHere` | src/evm/executor.c:595-601 | every transaction accepted in a serial run was submitted with that sender and nonce, for this chain or for none, and mined at that point |
| `Admission.FromEmptyDatabase` | src/rpc/handlers.c:574-710 | from an empty database every account's nonces are accepted as 0, 1, 2, ... in blocks 1, 2, 3, ... |
| `Admission.HandleSend` | src/rpc/handlers.c:574-710 | the handler computes `Send` on the typed state, and a rejection leaves the store byte for byte as it was |
| `Cells.CountsExactly` | src/rpc/handlers.c:189-202 | a counter that threads load and later save plus one counts its saves, and no save repeats another, if and only if no save was stale |
| `Cells.StaleExactlyWhenOvertaken` | src/evm/executor.c:603-652 | some save was stale if and only if between some thread's load and its save another thread saved |
| `Schedule.BlockCellStep` | src/state/redis_state.c:333-355 | every Redis command of every thread loads, saves or leaves alone the block number |
| `Schedule.NonceCellStep` | src/state/redis_state.c:172-204 | every Redis command of every thread loads, saves or leaves alone an account's nonce |
| `Schedule.NeverAhead` | src/evm/executor.c:603-652 | under every interleaving a nonce never exceeds start plus nonce writes, nor block:latest start plus block writes |
| `Schedule.WritesBelongHere` | src/evm/executor.c:595-624 | in every schedule each nonce write, block write and receipt belongs to a transaction for this chain or for none that covers its intrinsic gas |
| `Schedule.NonceExactlyWhenFresh` | src/evm/executor.c:603-652 | under every interleaving, with 64-bit totals, the nonce counts the accepted transactions, and no (sender, nonce) pair is accepted twice, if and only if no send of the account has another nonce write for it between its own read and write |
| `Schedule.BlockExactlyWhenFresh` | src/rpc/handlers.c:189-202 | the same for block:latest and the numbers its writes are based on |
| `Schedule.DifferentAccountsOverlapFreely` | src/evm/executor.c:603-652 | sends of different accounts may interleave in any way: every nonce is counted |
| `Schedule.ReceiptNumbersExactly` | src/rpc/handlers.c:636-701 | receipts with equal block numbers mean an overtaken block read; once all receipts are out, the converse holds too |
| `SerialSchedules.SendUndisturbed` | src/rpc/handlers.c:574-710 | the commands of one send without interference do what the serial specification says, with no stale write |
| `SerialSchedules.SerialRunsAreSchedules` | src/rpc/handlers.c:574-710 | every serial run is one of the schedules, with the same store and the same accepted transactions, block by block, and no stale write |
| `SerialSchedules.LogsExist` | src/evm/executor.c:122-131 | every serial run has the commit logs that such a schedule is made of |
| `SerialSchedules.RaceAcceptsTwice` | src/rpc/handlers.c:626-701 | every transaction that executes, call or creation, is accepted twice by two sends that read before either writes: both finish with receipts for the same block, and the store is left as by one send |
| `Batch.SplitsExactly` | src/rpc/handlers.c:826-867 | a text rendering brace-balanced objects with any separators dispatches exactly those objects in order |
| `Batch.BatchAnswered` | src/rpc/handlers.c:811-878 | such a request, behind any blanks, is answered by those objects' answers joined by commas in brackets |
| `Batch.SingleAnswered` | src/rpc/handlers.c:880-889 | any other request, behind any blanks, is dispatched as it is |
| `Batch.NestedIsObject` | src/rpc/handlers.c:834-842 | braces around any text in which braces nest form an object |
| `Batch.SeparatorsAre` | src/rpc/handlers.c:811-830 | the blanks are space, tab, newline and return, and between objects the comma too |
| `Batch.ScanItem` | src/rpc/handlers.c:834-842 | the brace counter loop stops where the count returns to 0 or the text ends |
| `Batch.SkipFrom` | src/rpc/handlers.c:827-830 | the skip loop stops at the first byte that is not a separator |
| `Batch.Grow` | src/rpc/handlers.c:853-857 | enough room and contents kept, unless refused memory |
| `Batch.AppendAnswer` | src/rpc/handlers.c:851-863 | a comma unless it is the first, then the answer, within the buffer and with three bytes to spare, unless refused memory |
| `Batch.DispatchItem` | src/rpc/handlers.c:848-863 | the buffer holds the answers so far joined by commas |
| `Batch.TakeItem` | src/rpc/handlers.c:844-863 | an object that cannot be copied is passed over, any other is dispatched |
| `Batch.TakeObject` | src/rpc/handlers.c:832-863 | the branch at an opening brace finds the next object of the split and takes it |
| `Batch.HandleBatch` | src/rpc/handlers.c:816-878 | on every input the loop ends; with the memory asked for it dispatches exactly the split and answers it; refused memory it fails or leaves objects out, and still answers exactly what it dispatched |
| `Batch.Close` | src/rpc/handlers.c:869-873 | the closing bracket and NUL are written within the buffer: the reallocation before them is never reached |
| `Batch.HandleRequest` | src/rpc/handlers.c:806-889 | leading blanks, then a batch or a single request; without an answer only when refused memory |

## Left out

- RlpBuffers.RlpBuffer.Reserve: buffers above 2^63 bytes, for which the doubling loop does not end (`DoublingEndsExactly`).
- TxCode.RlpReader.DecodeItem: what the cursor is after a failed decode, and what bytes outside the input would hold.
- TxCode.RlpReader.NextAll, TxCode.AppendFields: the straight-line sequences of decode and append calls are loops over the table of field types.
- Hex.HexDecode: which bytes of the output a failed decode has overwritten.
- Hex.ToFromUint64: the buffer-length test of hex_from_uint64; its callers' 32 bytes always suffice. `%llx`, `%llu` and `strtoull` are modelled by their digits, without signs or leading blanks.
- Gas.CalcRunBounds: runs whose products or results leave 64 bits; `RunFits` excludes them.
- Executor.ExecuteTransaction: calldata so long that its gas overflows 64 bits.
- Executor.ExecuteContract: an output copy that cannot be allocated, and the error text.
- Redis.RedisState.SetNonce: a Redis that does not answer, and a database shared with other programs; every setter and getter assumes a reply and a database that holds evm-db's own entries.
- Schedule.NonceExactlyWhenFresh: two writes of the same slot or code by different threads; only nonces, block numbers and who was accepted are tracked.
- Admission.HandleSend: a receipt text that cannot be allocated, for which the code reports an error after mining the transaction; in the schedules this is a thread that stops before its receipt.
- Batch.HandleBatch: which objects a refused allocation leaves out; the dispatched ones are a part of the split in order.
- Bounds.DecodeStaysInside: inputs within 16 bytes of 2^64.
- Braces inside JSON strings: the splitter counts every brace, and so does the notion of a balanced object.
- EIP-2930 decoding and non-empty access lists: unfinished in the code.
- The rounds of `keccakf`, evmone, secp256k1 and hiredis: foreign or a transcription of constants.
- Sockets, HTTP, configuration, logging, the JSON field extractors, response templates and constant methods: no property worth stating.
- Getters behind single RPC methods (balance, nonce, code, storage): thin wrappers over the state layer; only the balance text is modelled.
- src/block/producer.c: not part of the build.
