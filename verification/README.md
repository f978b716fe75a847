# Verified core of the SDK

A Dafny model of the parts of the SDK where a small mistake is expensive, with proofs of what those
parts promise. `dafny verify dfyconfig.toml` checks everything.

| files | what they model |
|---|---|
| `Wire`, `Messages`, `MessageCodec` | the generated protobuf codecs of `Any`, `GasInfo`, `MsgData` and `TxMsgData` |
| `UnknownFields` | the walk that rejects unknown fields before a transaction is decoded |
| `Branches`, `Recovery`, `TxExecution`, `BlockMachine`, `Application` | `BaseApp`: branched stores, panic recovery, `runTx`, and the machine of ABCI calls |
| `ChunkStream`, `SnapshotKeys`, `SnapshotStore`, `SnapshotManager`, `SnapshotRuns`, `SnapshotPipeline` | state-sync snapshots, from the byte stream to the restored byte stream |
| `Coins`, `DecCoins` | coin sets as canonical sorted lists |
| `Decimals`, `Powers`, `DecimalText` | 18-digit fixed-point numbers: rounding, powers, printing, parsing, sortable bytes |
| `Keyring`, `StoreKeys` | the keyring's two-way index, and prefix freedom of store names |
| `Lex`, `Outcomes`, `Common` | byte strings with Go's order; results that may be missing or be a panic; a shared limit |

Go strings and byte slices are sequences of bytes. Objects that the source updates in place are classes
or arrays. Each of their methods is proved against a function of the old state, and the results below are
proved about those functions. Panics are outcomes, not preconditions.

## Main results

- **Codec.** Decoding an encoded message gives the message back, for any number of nested entries. The
  backward writer fills exactly `Size` bytes. On arbitrary bytes decoding terminates inside the buffer,
  and an unknown field inserted at any field boundary changes no known field.
- **Unknown fields.** The checker accepts exactly the messages whose every field, at every depth and
  inside packed `Any` values, is known with an allowed wire type. Lenient mode without its flag is strict
  mode. No bytes and no descriptors make the checker slice out of range.
- **Blocks.** In every run of ABCI calls, removing CheckTx, ReCheckTx and simulation leaves everything but
  the check state as it is, at every point of the run, if and only if each check, in the state in which it
  runs, leaves the block gas meter alone, can read the parameters, and its panic, if any, ends as an error. Then accepted heights,
  transaction results, versions and committed stores are the same too. The condition matters: the check and
  the deliver context share the meter, and `BlockMachine.ChecksCanInterfere` shows a handler that spends
  from it and makes a delivered transaction fail. Heights and versions are consecutive from the initial
  height. A block commits exactly the genesis writes, the begin blocker's, what each transaction keeps and
  the end blocker's, in this order.
- **Transactions.** A delivered transaction leaves the branch unchanged, or adds the ante writes, or adds
  the ante writes and all message writes in order. It is stated exactly when each happens, and exactly
  when the result is not an error. A panic becomes an error if and only if it is out of gas, or all added
  recovery handlers pass it, or the last added one that does not pass it returns an error; otherwise the
  handler's own panic leaves DeliverTx, which is the documented way to stop a node.
- **Snapshots.** A stream written in any pieces, saved, loaded, fed through hash checks with any wrong
  chunks in between and read with any buffer sizes comes back as it was. In every interleaving of manager
  calls one operation is active, only its owner ends it, a finished restore received exactly the offered
  chunks in order, and a snapshot is saved only above all stored heights.
- **Coins.** Addition conserves every denomination and keeps the canonical form, which is unique; so
  addition is commutative and associative as lists, and subtraction undoes it.
- **Decimals.** Rounding is nearest with ties to even and odd under sign; quotients are exact, sandwiched
  and error-bounded as stated; powers of whole numbers are exact, with exact conditions for a panic; the
  strings that parse are characterized, and parsing what was printed gives the decimal back.
- **Keyring.** In every run uid and address entries stay inverse and no two uids share an address.

Where the code and its comments disagree, the model follows the code:

- The comment on `SortableDecBytes` promises order. Negative values come out in reverse
  (`DecimalText.SortableOrder` gives the exact condition).
- The comment on `runTx` ties persistence to success. The block is charged after the messages are
  written, so a transaction can be reported as out of gas and keep its writes
  (`TxExecution.FailedButKept`; `TxExecution.DeliveredBranch` says exactly when).
- `QuoRoundUp` rounds up a quotient that is already truncated. It is the exact ceiling if and only if
  `RoundUpMisses`, a condition on the remainder, is false (`Decimals.QuoRoundUpExactness`).
- `NewDecFromStr` takes a second sign in front of the digits, which may then be missing: a plus sign alone
  is zero and two minus signs cancel (`DecimalText.PlusIsZero`, `DecimalText.MinusMinus`).
- From 2^32 chunks on, `Save` gives later chunks the numbers of earlier ones and overwrites their files.
  `Load` then returns only the last ones, and no restore of such a snapshot ever completes
  (`SnapshotStore.Store.Load`, `SnapshotRuns.CompleteMeansWhole`).
- A decimal divided in place by itself gives zero, not one, because the divisor is scaled first
  (`Decimals.QuoMut`).
- `GetLatest`, `List` and `Prune` never see a snapshot stored under the largest possible key.

## Model

| member | source | states |
|---|---|---|
| Wire.SovIsLength | codec/types/any.pb.go:329-331 | the bit-length formula for the size of a varint is the number of bytes its encoding has, for every number |
| Wire.EncodeVarintInto | codec/types/any.pb.go:212-222 | writes exactly the varint so that it ends at the offset, returns where it begins and touches no other byte |
| Wire.VarintRoundTrip | types/abci.pb.go:1179-1189 | every 64-bit number is read back from its encoding, whatever bytes follow |
| Wire.ReadVarintAt | codec/types/any.pb.go:340-354 | the shift-and-accumulate loop computes the base-128 value modulo 2^64 and fails exactly on overlong or cut-off input |
| Wire.SkipField | codec/types/any.pb.go:452-529 | the skip loop with its group depth counter terminates on all bytes and equals the recursive definition |
| Wire.SkipAdvances | types/abci.pb.go:3000-3077 | a successful skip moves forward and stays in the range of a positive int |
| Wire.SkipPrefix | types/abci.pb.go:3000-3077 | skipping a field does not depend on the bytes after it |
| Messages.DecodeConcat | types/abci.pb.go:2737-2820 | at a field boundary, decoding a concatenation is decoding the second part after the first |
| Messages.DecodePrefixed | codec/types/any.pb.go:435-446 | unrecognized bytes seen earlier stay in front and influence nothing else |
| Messages.InsertUnknownField | codec/types/any.pb.go:430-446 | inserting a well-formed unknown field at any field boundary changes no known field and no success or failure; `Any` keeps the bytes in order |
| MessageCodec.SizeIsLength | types/abci.pb.go:1303-1386 | `Size` is the length of the encoding for all four message types |
| MessageCodec.RoundTrip | types/abci.pb.go:2264-2351 | decoding an encoded message gives the message back |
| MessageCodec.EntriesRoundTrip | types/abci.pb.go:2737-2820 | decoding appends any number of nested entries in order to those already there |
| MessageCodec.MsgDataRoundTrip | types/abci.pb.go:2621-2736 | the nested message decodes back, with absent fields empty |
| MessageCodec.GasInfoRoundTrip | types/abci.pb.go:929-945 | both 64-bit counters survive, zero ones by being absent |
| MessageCodec.WriteMsgData | types/abci.pb.go:1058-1078 | writes the fields back to front: exactly the encoding, ending where asked, nothing else touched |
| MessageCodec.WriteEntries | types/abci.pb.go:1095-1115 | writing the entries last to first gives their encodings first to last |
| MessageCodec.WriteGasInfo | types/abci.pb.go:929-945 | writes exactly the encoding, ending where asked |
| MessageCodec.WriteAny | codec/types/any.pb.go:186-210 | writes the fields and the unrecognized bytes after them |
| MessageCodec.MarshalToSizedBuffer | codec/types/any.pb.go:186-210 | fills exactly `Size` bytes at the end with the encoding and changes nothing in front |
| MessageCodec.Marshal | codec/types/any.pb.go:171-179 | the allocated buffer is filled completely by the encoding |
| MessageCodec.Unmarshal | codec/types/any.pb.go:335-451 | the index loop on arbitrary bytes stays in the buffer, terminates and computes the recursive decoder |
| UnknownFields.RejectUnknownFields | codec/unknownproto/unknown_fields.go:41-163 | the re-slicing loop with its early returns and recursion computes the walk and terminates |
| UnknownFields.AcceptsClean | codec/unknownproto/unknown_fields.go:41-163 | accepts if and only if every field at every level, also inside resolved `Any` values, is known with an allowed wire type, or is non-critical in lenient mode |
| UnknownFields.FieldAccepts | codec/unknownproto/unknown_fields.go:103-160 | the same for one field value, nested messages and `Any` |
| UnknownFields.LenientUnflaggedIsStrict | codec/unknownproto/unknown_fields.go:30-33 | lenient mode accepts with its flag false exactly when strict mode accepts; strict mode never accepts with the flag set |
| UnknownFields.StrictRejectionFlag | codec/unknownproto/unknown_fields.go:75-90 | a rejection in strict mode carries the flag exactly when the field that stopped the walk, at any level, is unknown and non-critical |
| UnknownFields.WalkFlag | codec/unknownproto/unknown_fields.go:75-90 | the flag only accumulates: it never changes which messages are accepted |
| UnknownFields.NeverPanics | codec/unknownproto/unknown_fields.go:92-125 | stripping the length prefix never slices out of range, for all bytes and all descriptors |
| Branches.BranchOfBranch | baseapp/baseapp.go:551-566 | reading a branch of a branch is reading one branch with the writes merged |
| Recovery.PanicOutcome | baseapp/recovery.go:23-77 | what becomes of every panic under any added handlers; it is an error if and only if it is out of gas, all handlers pass, or the deciding handler returns an error, and otherwise the handler's panic escapes |
| Recovery.DecidedBy | baseapp/baseapp.go:433-437 | the handler added last among those that do not pass decides, whether with an error or with a panic |
| Recovery.ConsensusFailureEscapes | docs/core/runtx_middleware.md:33-70 | with the documented handler added last, exactly its panic escapes and every other is treated as before |
| TxExecution.SuccessIsMerged | baseapp/baseapp.go:697-768 | if every message is routed and succeeds on what the earlier ones left, the loop succeeds with their writes in order |
| TxExecution.SuccessMeansAll | baseapp/baseapp.go:697-768 | if the loop succeeds, every message was routed and succeeded |
| TxExecution.ValidateBasicIsAll | baseapp/baseapp.go:505-518 | the loop passes exactly when every message passes |
| TxExecution.ChargeFits | store/types/gas.go:90-102 | the charge panics exactly when the total overflows, exceeds the limit or falls below the start; otherwise it is added |
| TxExecution.DeliveredBranch | baseapp/baseapp.go:575-690 | the three possible branches after a transaction, exactly when each applies, exactly when there is no error, and exactly when a panic leaves `runTx` |
| TxExecution.ReportOutcome | baseapp/baseapp.go:595-602 | no error exactly when the body succeeded and the charge did not panic; a panic escapes exactly when the recovery handlers make no error of it |
| TxExecution.DeliveredWrites | baseapp/baseapp.go:575-690 | a transaction adds to the branch exactly what it keeps, and never takes back earlier writes |
| TxExecution.CheckedBranch | baseapp/baseapp.go:522-547 | CheckTx keeps the ante writes of an admitted transaction and runs no message; a simulation keeps nothing; a panic escapes exactly when the recovery handlers make no error of it |
| TxExecution.FailedButKept | baseapp/baseapp.go:604-619 | a concrete transaction whose handler spends more than the block allows: reported as out of gas, and its writes stay |
| TxExecution.ConsensusFailureCrashes | docs/core/runtx_middleware.md:33-70 | with the documented recovery handler, delivering a transaction whose message panics lets that handler's panic out |
| BlockMachine.CommittedBlock | baseapp/abci.go:144-345 | the store committed by any block that does not crash is the old store with the genesis writes, the begin blocker's, what each transaction kept and the end blocker's, in this order, and nothing else |
| BlockMachine.DeliverAll | baseapp/abci.go:262-288 | delivering any list of transactions crashes exactly when some transaction's reading of the parameters panics or the recovery handlers make no error of its panic; otherwise the branch grows by what each one keeps when run after the earlier ones |
| BlockMachine.DeliverCrashes | baseapp/abci.go:262-288 | the same for one transaction |
| BlockMachine.ChecksAreInvisible | baseapp/abci.go:227-288 | at every point of any run, the run and the run without its checks agree in all but the check state, or both have crashed, if and only if every check is harmless in the state in which it runs |
| BlockMachine.QuietRunsAnswerAlike | baseapp/abci.go:227-345 | then accepted heights, transaction results, versions and committed stores are the same |
| BlockMachine.QuietHandlersQuietRun | baseapp/abci.go:184-190 | handlers that never touch the block gas meter outside DeliverTx, recovery handlers that make an error of every panic and a readable parameter store make every check harmless |
| BlockMachine.CheckChangesNothing | baseapp/baseapp.go:522-547 | a check call changes only the check state and does not crash, if and only if it leaves the shared block gas meter alone, can read the parameters, and its panic ends as an error |
| BlockMachine.StepIgnoresCheckState | baseapp/abci.go:144-219 | no other call depends on the check state |
| BlockMachine.QuietTx | baseapp/abci.go:184-190 | a check or simulation whose handlers leave the shared block gas meter alone leaves it alone |
| BlockMachine.ChecksCanInterfere | baseapp/abci.go:184-190 | a concrete run in which a check spends the shared block gas and a delivered transaction fails for it |
| BlockMachine.HeightsAreConsecutive | baseapp/baseapp.go:477-502 | every accepted height and every commit version is the expected one plus the number of commits before it |
| BlockMachine.HeightsFromInitialHeight | baseapp/abci.go:28-46 | a chain starts at its initial height, or at one, whatever calls follow |
| BlockMachine.StepHeights | store/rootmulti/store.go:363-378 | only a commit moves the expected height, by one, and the height validated in BeginBlock is the version the store gives the commit |
| Application.BaseApp.RunMessages | baseapp/baseapp.go:697-768 | the loop on one shared branch computes the message-by-message definition |
| Application.BaseApp.ValidateBasicTxMsgs | baseapp/baseapp.go:505-518 | refuses an empty list; otherwise passes exactly when every message passes, and returns the first problem |
| Application.BaseApp.Execute | baseapp/baseapp.go:621-690 | decoding, basic validation, ante handler on a branch and messages on a branch, with the meters each leaves |
| Application.BaseApp.Finish | baseapp/baseapp.go:590-619 | the two deferred functions: no error exactly when the body succeeded and the charge fits, and a panic escapes exactly when the recovery handlers make no error of it |
| Application.BaseApp.RunDeliverTx | baseapp/baseapp.go:575-592 | the deliver step of the machine with its crashes, and what is left in the state even then |
| Application.BaseApp.RunCheckTx | baseapp/baseapp.go:531-547 | the check step of the machine for CheckTx, ReCheckTx and simulation, with its crashes |
| Application.BaseApp.GetConsensusParams | baseapp/baseapp.go:401-430 | reading the parameters spends gas on the meter of the state it reads and writes nothing |
| Application.BaseApp.CompareValidators | baseapp/abci.go:63-83 | sorting both lists and comparing them passes exactly when none were requested or the returned validators are the requested ones in some order |
| BlockMachine.ValidatorsPermuted | baseapp/abci.go:63-83 | the same for the machine |
| Application.BaseApp.InitChain | baseapp/abci.go:28-104 | the initialization step: both states, initial height and version, parameter and genesis writes, and its crashes |
| Application.BaseApp.BeginBlock | baseapp/abci.go:144-199 | the begin step: height check, deliver state kept from InitChain or new, gas of reading the parameters, block gas meter |
| Application.BaseApp.EndBlock | baseapp/abci.go:202-219 | the end step, with the gas of reading the parameters |
| Application.BaseApp.Commit | baseapp/abci.go:297-318 | the commit step: the branch is written, the version is the next one, the check state starts anew |
| ChunkStream.ChunksUnique | snapshots/util.go:68-100 | the chunks of a stream are determined by the stream and the chunk size |
| ChunkStream.ChunkWriter.Write | snapshots/util.go:68-100 | appends the data to the stream; no chunk is empty and all but the last are full, however writes fall; a closed writer writes nothing |
| ChunkStream.ChunkWriter.StartChunk | snapshots/util.go:28-40 | a new pipe is sent with the first bytes of the next chunk |
| ChunkStream.ChunkReader.Read | snapshots/util.go:139-156 | what is read and what remains is what was there; end of file only when nothing is left |
| ChunkStream.ChunkReader.ReadAll | snapshots/util.go:114-156 | any sequence of buffer sizes reads the whole stream |
| SnapshotKeys.KeyRoundTrip | snapshots/store.go:322-341 | decoding an encoded key gives height and format back, so the encoding is injective |
| SnapshotKeys.DecodedKey | snapshots/store.go:322-332 | every key that decodes is the encoding of what it decodes to |
| SnapshotKeys.KeyOrder | snapshots/store.go:335-341 | keys sort by height and then by format, in both directions |
| SnapshotKeys.ReverseIterate | snapshots/store.go:94-94 | the iterator gives every key from the start up to but not including the end once, last first |
| SnapshotStore.Store.Save | snapshots/store.go:223-304 | exactly when each refusal happens; otherwise every chunk is on disk under its 32-bit number unless a later one has the same, the metadata has the 32-bit count, all hashes and the hash of the whole, and nothing else changes |
| SnapshotStore.Store.Load | snapshots/store.go:134-163 | nothing exactly when absent; otherwise as many chunks as the count says, in order, with the hashes in the metadata that belong to them |
| SnapshotStore.ReadBack | snapshots/store.go:134-163 | below 2^32 chunks, what is read back is what was written |
| SnapshotStore.Store.LoadChunk | snapshots/store.go:167-174 | every chunk number of a stored snapshot is found, with the hash in its metadata; nothing is returned only for a number without a file |
| SnapshotStore.Store.Delete | snapshots/store.go:52-68 | refuses exactly while the height is being saved; otherwise removes the entry and its files and nothing else |
| SnapshotStore.Store.GetLatest | snapshots/store.go:93-110 | the stored snapshot with no other after it in height and format, below the largest key |
| SnapshotStore.Store.List | snapshots/store.go:113-130 | every snapshot below the largest key once, newest first |
| SnapshotStore.Store.Prune | snapshots/store.go:183-220 | keeps all formats of exactly the greatest heights, returns the number removed, succeeds exactly when every dropped height can be removed, and never loses a kept one |
| SnapshotStore.TopHeightsUnique | snapshots/store.go:183-220 | the set of the k greatest heights is unique |
| SnapshotManager.Manager.Begin | snapshots/manager.go:66-82 | starts an operation exactly when none is in progress |
| SnapshotManager.Manager.End | snapshots/manager.go:85-101 | ends the operation, closes the channel and forgets the restore |
| SnapshotManager.Manager.Restore | snapshots/manager.go:162-207 | the offer step with its five answers |
| SnapshotManager.Manager.RestoreChunk | snapshots/manager.go:211-259 | the chunk step with its seven answers and the 32-bit index |
| SnapshotManager.Manager.Create | snapshots/manager.go:104-128 | saves exactly when idle and the height is positive, not being saved and above all stored heights; then the chunks are stored under a new key |
| SnapshotManager.Manager.Prune | snapshots/manager.go:151-158 | refused while busy; otherwise prunes as the store does and becomes idle again |
| SnapshotRuns.EveryRun | snapshots/manager.go:66-259 | in every interleaving: one owner, restoring exactly while the channel is open and chunks are missing, sent chunks match, a looked-up height stays newest |
| SnapshotRuns.OnlyTheOwnerEnds | snapshots/manager.go:85-101 | an operation ends only by the call that began it or by feeding its restore |
| SnapshotRuns.CompleteMeansWhole | snapshots/manager.go:211-259 | in every run the "unexpected chunk" and "ended prematurely" answers never occur, a mismatch changes nothing, and success means fewer than 2^32 hashes were offered and exactly their chunks were sent in order |
| SnapshotRuns.SavesOnlyNewer | snapshots/manager.go:104-128 | in every run a snapshot is saved only above all stored heights and under a free key |
| SnapshotPipeline.WriteChunked | snapshots/util.go:68-100 | any split of a stream into writes gives the same chunks |
| SnapshotPipeline.FeedAll | snapshots/manager.go:162-259 | feeding the chunks in order completes, with any wrong chunks in between, and the target received exactly the chunks; from 2^32 hashes on nothing completes |
| SnapshotPipeline.SnapshotAndRestore | snapshots/store.go:134-304 | write, save, load, restore and read give the original stream if and only if there are fewer than 2^32 chunks |
| Coins.Validate | types/coin.go:209-254 | accepts exactly the canonical lists: valid denominations, strictly increasing, positive |
| Coins.CanonicalUnique | types/coin.go:209-254 | canonical lists with the same amounts everywhere are the same list |
| Coins.IsSorted | types/coin.go:256-263 | comparing neighbours decides weak sortedness |
| Coins.MergeLoop | types/coin.go:308-347 | the two-index loop computes the merge |
| Coins.MergeAmount | types/coin.go:308-347 | the merge adds at every denomination, whatever the lists |
| Coins.MergeOrdered | types/coin.go:308-347 | the merge of sorted lists is sorted and has no zero coin |
| Coins.MergePanics | types/coin.go:308-347 | it panics exactly when a shared denomination overflows |
| Coins.SafeAdd | types/coin.go:293-348 | panics exactly on unsorted input or overflow; otherwise adds at every denomination and keeps the canonical form |
| Coins.AddCommutative | types/coin.go:283-285 | addition is commutative, panics included |
| Coins.AddAssociative | types/coin.go:283-285 | addition of representable sets is associative, panics included |
| Coins.RemoveZeroCoins | types/coin.go:639-660 | keeps exactly the non-zero coins in order |
| Coins.NonZeroAmount | types/coin.go:639-660 | dropping zero coins changes no amount |
| Coins.Negative | types/coin.go:625-636 | negates every coin in order |
| Coins.DifferenceAmounts | types/coin.go:388-391 | subtraction of representable sets never overflows and subtracts at every denomination |
| Coins.DifferenceSign | types/coin.go:388-391 | the difference has a negative coin exactly when the second set is not covered by the first |
| Coins.SafeSub | types/coin.go:388-391 | its flag is set exactly when some amount would be negative; otherwise the result is canonical |
| Coins.Sub | types/coin.go:376-383 | panics exactly when the second set is not covered; otherwise canonical |
| Coins.AddThenSub | types/coin.go:376-383 | subtracting what was added gives the same list |
| Coins.SubThenAdd | types/coin.go:376-383 | adding what was subtracted gives the same list |
| Coins.IsAnyNegative | types/coin.go:599-607 | true exactly when some coin is negative |
| Coins.BinarySearchIsAmount | types/coin.go:535-560 | on a sorted set the binary search equals the scan of the whole list |
| Coins.DenomsSubsetOf | types/coin.go:352-365 | with its length shortcut it is exactly inclusion of the denomination sets |
| Coins.DenomsCount | types/coin.go:352-365 | a sorted set has as many denominations as coins, which justifies the shortcut |
| Coins.IsAllGT | types/coin.go:395-416 | true exactly when the set is not empty and exceeds the other at each of its denominations |
| Coins.IsAllGTE | types/coin.go:421-437 | true exactly when the first set is at least the second at every denomination |
| DecCoins.AddDec | types/dec_coin.go:242-288 | adds at every denomination, canonical on canonical sets, panics exactly on overflow |
| DecCoins.TruncateDecimal | types/dec_coin.go:212-224 | whole parts and change add up at every denomination, change is below one unit, both canonical; panics exactly when a whole part is too large |
| DecCoins.Intersect | types/dec_coin.go:324-334 | the canonical set of pointwise minima |
| Decimals.ChopPrecisionAndRound | types/decimal.go:584-614 | the nearest integer, ties to even, in place |
| Decimals.ChopPrecisionAndRoundUp | types/decimal.go:616-636 | the ceiling on both sides of zero |
| Decimals.ChopPrecisionAndTruncate | types/decimal.go:659-661 | truncation toward zero: the largest whole magnitude not above the argument's, with its sign |
| Decimals.RoundedOdd | types/decimal.go:584-614 | rounding changes sign with its argument |
| Decimals.MulMut | types/decimal.go:282-291 | the rounded product or the overflow panic, also when both operands are one object |
| Decimals.MulNearestAndOdd | types/decimal.go:282-291 | the product is nearest with ties to even, odd in each factor and commutative, panics included |
| Decimals.QuoMut | types/decimal.go:342-353 | the rounded quotient, within 1/2 + 10^-18 of a last place of the exact one; an object divided by itself becomes zero |
| Decimals.QuoTruncateMut | types/decimal.go:361-372 | the truncated quotient and its panics |
| Decimals.QuoRoundupMut | types/decimal.go:380-391 | the rounded-up quotient and its panics |
| Decimals.QuoTruncateExact | types/decimal.go:361-372 | truncating twice equals the exact quotient truncated once |
| Decimals.QuoSandwich | types/decimal.go:342-391 | truncated, rounded and rounded up differ by at most one last place, in this order |
| Decimals.QuoRoundUpExactness | types/decimal.go:380-391 | rounding up is the exact ceiling if and only if the quotient is not positive or its remainder is zero or at least 10^-18 of the divisor |
| Decimals.NoMissUpToOne | types/decimal.go:380-391 | it is the exact ceiling for every divisor of magnitude at most one |
| Decimals.QuoRoundUpCanMiss | types/decimal.go:380-391 | a concrete quotient that is rounded up to zero although it is positive |
| Powers.PowerMut | types/decimal.go:466-482 | exponentiation by squaring in place, with its panics |
| Powers.PowerOfWhole | types/decimal.go:461-482 | the power of a whole number is exact, and it panics exactly when that power is out of range |
| Powers.RelativePow | types/uint.go:240-272 | the loop on unsigned integers with all its panics |
| Powers.RelativePowExact | types/uint.go:240-272 | on multiples of the base the result is the exact scaled power, and it panics exactly when the exponent is at least two and that power times the base once more, rounded, leaves 256 bits |
| DecimalText.String | types/decimal.go:503-553 | the buffer filled by the two layouts is the sign, the whole part, the point and 18 decimals |
| DecimalText.ParseMeaning | types/decimal.go:139-190 | a numeral, with or without a point, denotes its digits scaled to 18 decimals, and is refused exactly when that is out of range |
| DecimalText.ParsesNumerals | types/decimal.go:139-190 | a string parses if and only if it is a numeral in range |
| DecimalText.PlusIsZero | types/decimal.go:139-190 | a plus sign alone parses as zero |
| DecimalText.MinusMinus | types/decimal.go:139-190 | two minus signs cancel |
| DecimalText.ParsePrinted | types/decimal.go:139-190 | parsing what was printed gives the decimal back exactly when it fits the limit, and otherwise the range error |
| DecimalText.MaxSortableIsReciprocal | types/decimal.go:710-714 | the largest sortable decimal is one divided by the smallest |
| DecimalText.PaddedText | types/decimal.go:726-744 | the padded text is 18 digits, a point and 18 digits |
| DecimalText.SortableOrder | types/decimal.go:726-744 | byte order follows numeric order exactly when the larger value is not negative or the smaller is the least value; other negative pairs are reversed |
| Keyring.KeySpaces | crypto/keyring/legacy.go:185 | entry keys are injective in name and in address, the two kinds never meet, and only name entries have the suffix `List` looks for |
| Keyring.AddKeepsIndex | crypto/keyring/keyring.go:757-784 | two writes keep the index: the entries of each stored key and nothing else |
| Keyring.RemoveKeepsIndex | crypto/keyring/keyring.go:433-449 | so do two removals |
| Keyring.Keystore.WriteInfo | crypto/keyring/keyring.go:757-805 | writes exactly when name and address are both free |
| Keyring.Keystore.Key | crypto/keyring/keyring.go:563-576 | the key stored under the name, or nothing |
| Keyring.Keystore.KeyByAddress | crypto/keyring/keyring.go:451-461 | finds exactly the key with the address, the same one its name finds |
| Keyring.Keystore.Add | crypto/keyring/keyring.go:290-338 | account creation, imports and saves check different things first and succeed on exactly the same condition |
| Keyring.Keystore.Remove | crypto/keyring/keyring.go:433-449 | removes exactly that key, if it exists |
| Keyring.Keystore.RemoveByAddress | crypto/keyring/keyring.go:418-431 | removes exactly the key with the address |
| Keyring.Keystore.Perform | crypto/keyring/keyring.go:383-449 | over every run the index is consistent and the stored keys are what the operations say |
| Keyring.Keystore.List | crypto/keyring/keyring.go:470-501 | every stored key once, in the order of the entry keys, and no error |
| StoreKeys.AssertNoPrefix | types/store.go:89-98 | panics exactly when some name is a prefix of a name at another position |
| StoreKeys.CollisionIsAdjacent | types/store.go:89-98 | in sorted order a collision shows up between neighbours |
| StoreKeys.CollidesPermutation | types/store.go:89-98 | sorting neither hides nor creates a collision |
| StoreKeys.SameSorted | baseapp/abci.go:74-82 | two lists are equal once sorted exactly when they are permutations of each other |

## Left out

- `client/`, `server/`, `simapp/`, `cosmovisor/`, `telemetry/` and the modules: wiring without a hard property.
- IAVL trees, the root multi-store and the caching stores: a branch is its pending writes over a view, and a commit makes the view permanent. Transient stores, pruning of old versions and app hashes are not modelled.
- TxExecution.DeliveredBranch: handlers may change the block gas meter but not replace it in the context they return; gas information, events, logs and result data are not modelled; a panic with the value nil, which Go does not report as a panic, is not modelled.
- Application.BaseApp.InitChain: genesis transactions delivered from inside the initializer are part of its writes; a validator is its bytes, so the order in which the library sort leaves validators with the same public key is not modelled.
- Application.BaseApp.Commit: halting, background snapshots and the block retention height are not modelled.
- BlockMachine.HeightsAreConsecutive: heights are unbounded integers; a second InitChain during a run is outside the statement.
- SnapshotStore.Store.Save: file and database operations succeed.
- SnapshotStore.Store.Load: chunks are returned together instead of through a channel filled in the background.
- SnapshotManager.Manager.RestoreChunk: what the target does concurrently is an argument of each call; that a send blocks while the channel is full is not modelled.
- UnknownFields.RejectUnknownFields: descriptors are a map from field number to type; the `protowire` functions are modelled from their documentation, without a limit on group nesting; decompressing descriptors is not modelled.
- MessageCodec.RoundTrip: messages whose encoding is shorter than 2^63 bytes, and `Any` values whose unrecognized bytes are unknown fields; other generated messages repeat the same code.
- Messages.InsertUnknownField: buffers shorter than 2^63 bytes, the largest length Go has.
- Wire.EncodeVarintInto: the bitwise or that sets the continuation bit is written as an addition.
- Coins.Validate: denominations follow the default pattern; a replaced pattern is not modelled.
- Coins.SafeAdd: `Sort`, `NewCoins` and the parsers are not modelled.
- Decimals.QuoMut: `ApproxRoot` and the integer variants are not modelled.
- StoreKeys.AssertNoPrefix: the library sort is modelled on values, not in place.
- Keyring.Keystore.WriteInfo: backend operations succeed; serialization is an arbitrary injective codec with non-empty output; signing, armor, ledger and derivation are not modelled.
- JSON, YAML and amino encodings, bech32 and its caches: thin wrappers over libraries that are not part of this model.
