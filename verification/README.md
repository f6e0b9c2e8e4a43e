# busbar: a verified model of its stateful cores

This project models nine stateful cores of the busbar gateway in Dafny and proves the properties they are built
for. Run `dafny verify dfyconfig.toml` to check all of it.

Each module follows one component of the program:

| module | component |
|---|---|
| `FrameHeaders`, `Utf8Texts`, `EventTypes`, `FrameCodec`, `Reassembly`, `FrameEncoder` | the binary event-stream codec: header grammar, text values, event types, incremental decoder, chunked streams, encoder |
| `BucketIds`, `Limits`, `LimitChain`, `ChainLayouts` | the limit compiler: bucket ids, per-group buckets, the enforcement chain of a key and its rows |
| `Spend` | spend derived from a token ledger and a rate card |
| `UsageLedgers` | the token ledger and its signed, floored deltas |
| `ProbeSchedules`, `ProbeOverlaps`, `SlowProbes` | the probe schedule that generations of probers share, and when two of them probe at once |
| `DurableDisk`, `TempNames`, `DurableWriters`, `DurableWrites` | the durable write primitive on a disk that can crash |
| `CredentialCaches` | the credential cache with flush generations |
| `SchemaCompat`, `ConfigAcceptance`, `CommentTokens`, `SourceTexts`, `CommentStripper` | the config-stability gate: schema classifier, what a green gate keeps accepting, comment stripper and the texts it reads |
| `ContextMax` | one context window per model, from pools in no particular order |
| `JsonDepth` | the JSON nesting pre-scan |
| `Bytes`, `Integers`, `Sequences`, `Wrappers` | bytes, UTF-8 (RFC 3629), fixed-width integers, stock facts |

Code that changes state in place is modelled by methods and classes, and each of them is tied to a specification
function or predicate; the theorems are about those. Protocols that several tasks or processes run at once are
machines of atomic steps, and their theorems are about every run. A failure the environment may inject is a
parameter: which steps fail, who wins a race, in which order a hash map is walked. The checksum of the codec and
the hash of the credential cache are parameters too: nothing depends on which function they are.

## What the code does not promise

Where a comment and the code disagree, the model follows the code.

- Adding up the four tiers of a ledger row is said never to overflow a `u128`. It does when the four rates add up to
  more than 2^64 + 1, and a release build wraps (`Spend.CostIsExact` gives the exact bound,
  `Spend.UnsafeRateUndercharges` a ledger that derives less than half of its cost).
- Flushed deltas are said to sum to the true fleet total. In every order they do if and only if the counter starts with
  at least all that they take and has room for all that they give (`UsageLedgers.TrueSumExactly`). Deltas that name each
  model at most once leave the same counters and models in every order if and only if, for each counter, that is so or
  all amounts go one way (`UsageLedgers.InterleavingIsImmaterialExactly`); the order of the rows is not compared.
- The test for "a bucket of this group" is said to be an exact structural match. Reclaiming a group takes another
  group's bucket with it if and only if the other name is this one followed by `@`, a window word and `#`, or this one
  is the other followed by `@`, a window word and `#pool:` (`BucketIds.MistakenExactly`). It can have one direction only
  (`BucketIds.MistakenHasDirection`).
- Generations of probers are said never to double-probe. While a tick is between the check and its write, no time passes,
  and a spawn lets two generations probe at that instant if and only if the lane's slot is due, for that is what it
  inherits (`ProbeOverlaps.OverlapExactly`). While a probe is in flight, another generation can come to probe before it
  is over if and only if the slot, the interval of a generation yet to start, or a live prober of another generation is
  due by the time the probe times out (`SlowProbes.MeetsExactly`). They never double-probe in runs where each generation
  starts only while whoever is past the check is probing and will have timed out before the slot is due and before any
  interval is over (`ProbeOverlaps.CarefulRunsNeverOverlap`); if timeouts are below intervals, the slot alone matters
  (`ProbeOverlaps.QuickProbesNeverOverlap`).
- A gate without a BREAKING finding keeps every accepted configuration if what the fingerprint does not record is kept for
  every type name in use: its hand-written code, that its shape is recorded, the payloads of its variants, which of its
  fields may be null, the other spellings of its fields, that it defaults as a whole, and, if it ignores unknown keys, that
  it does and knows no more of them (`ConfigAcceptance.KeptPreservesAcceptance`). All of it is needed, with one breaking
  configuration for each, as long as no spelling of one field becomes a spelling of another
  (`ConfigAcceptance.GreenGatePreservesAcceptance`).

## Model

| member | source | states |
|---|---|---|
| `FrameHeaders.EncodeIsPrefixFree` | crates/busbar/src/eventstream.rs:31-32 | no byte string starts with two different headers of the wire grammar |
| `FrameHeaders.WireForm` | crates/busbar/src/eventstream.rs:236-276 | a header on the wire: name length, name, type byte, a length for bytes and strings only, and the width of each of the ten types |
| `FrameHeaders.EveryTypeHasHeaders` | crates/busbar/src/eventstream.rs:236-276 | every value of one of those types and widths is a header |
| `FrameHeaders.ReadingIsUnique` | crates/busbar/src/eventstream.rs:223-289 | a block splits in one way into headers and a rest that starts with no header |
| `FrameHeaders.PrintedBlockReads` | crates/busbar/src/eventstream.rs:223-314 | a block printed from any headers of the ten value types reads back as those headers |
| `FrameHeaders.FixedWidthHeaderIsTransparent` | crates/busbar/src/eventstream.rs:236-247 | a fixed-width header at any header boundary changes nothing that is found |
| `FrameHeaders.ParseFrameHeaders` | crates/busbar/src/eventstream.rs:223-289 | on any bytes, without slicing out of bounds: the last valid UTF-8 value of each recognized name among the complete headers |
| `Utf8Texts.Utf8Exactly` | crates/busbar/src/eventstream.rs:276 | a value is recorded as text exactly if it is the encoding of some Unicode scalar values by the table of RFC 3629 |
| `EventTypes.BareNameIsLastToken` | crates/busbar/src/eventstream.rs:193-197 | the bare exception name is the text between the last delimiter before it and the trailing delimiters |
| `EventTypes.NormalizeIsIdempotent` | crates/busbar/src/eventstream.rs:193-213 | normalizing a normalized exception name changes nothing |
| `EventTypes.TokenOfException` | crates/busbar/src/eventstream.rs:193-213 | whatever stands before and after it, the name between the last delimiters is the token, with its first letter lowered and no other changed |
| `EventTypes.TokenOfDelimiters` | crates/busbar/src/eventstream.rs:193-197 | a name of nothing but delimiters is its own token |
| `EventTypes.EventTypeForFrame` | crates/busbar/src/eventstream.rs:173-201 | the token of a frame, from the one reading of its header block |
| `FrameCodec.FrontByBytes` | crates/busbar/src/eventstream.rs:95-115 | from 12 bytes on, a prelude is bad exactly if its first number is outside 16 to 16 MiB or its second above the first minus 16; otherwise a frame is complete exactly if its declared total is there |
| `FrameCodec.DrainKeepsEveryByte` | crates/busbar/src/eventstream.rs:83-138 | consumed frames and the rest are the input; a healthy rest is the beginning of one frame |
| `FrameCodec.DrainCuts` | crates/busbar/src/eventstream.rs:83-138 | a stream is cut into whole frames by their own two numbers, one event each, up to a bad prelude or the beginning of a frame |
| `FrameCodec.CutsAreUnique` | crates/busbar/src/eventstream.rs:83-138 | there is one such cut of a stream, one rest and one status |
| `FrameCodec.DrainFramesChecked` | crates/busbar/src/eventstream.rs:83-138 | that cut in one pass with one buffer edit: events, status, byte count, buffer and sink; a bad prelude gives no event, MalformedPrelude and an empty buffer |
| `FrameCodec.DrainAppend` | crates/busbar/src/eventstream.rs:83-138 | more bytes only add frames, and a malformed stream stays malformed with the same frames |
| `Reassembly.ChunkingInvariance` | crates/busbar/src/proto/stream.rs:631-703 | every split into chunks gives the frames, forwarded bytes and verdict of one pass; the buffer stays below the cap |
| `Reassembly.StreamTranslate.FeedChunk` | crates/busbar/src/proto/stream.rs:631-703 | one chunk through the reassembler: its events, forwarded bytes and new state; a bad prelude aborts with nothing kept |
| `FrameEncoder.PushStringHeader` | crates/busbar/src/eventstream.rs:304-314 | appends the header's wire form, or nothing when a length does not fit |
| `FrameEncoder.FrameClose` | crates/busbar/src/eventstream.rs:435-475 | a frame with its true lengths and both checksums over their ranges, or nothing above the cap |
| `FrameEncoder.EncodeFrame` | crates/busbar/src/eventstream.rs:329-384 | both encoders emit one whole frame of a message that fits, and nothing for any other |
| `FrameEncoder.EncodableExactly` | crates/busbar/src/eventstream.rs:316-384 | a message fits exactly if its name is at most 65535 bytes and name and payload, with 86 bytes around them, or 94 for an exception, make at most 16 MiB |
| `FrameEncoder.EmittedFrameSays` | crates/busbar/src/eventstream.rs:329-384 | the header block of a frame is three string headers in order: the event or exception name, the content type, the message type |
| `FrameEncoder.EmittedFrameParts` | crates/busbar/src/eventstream.rs:329-384 | by its own lengths, a frame holds that block and then the payload |
| `FrameEncoder.FrameIsDrained` | crates/busbar/src/eventstream.rs:83-138 | one emitted frame decodes to its message; an exception to its normalized name |
| `FrameEncoder.RoundTrip` | crates/busbar/src/eventstream.rs:316-384 | draining everything emitted for a list of messages gives exactly the encodable ones, in order, with nothing left and status Ok |
| `BucketIds.IdIsSpelled` | crates/busbar/src/cost.rs:352-362 | the id of a group-wide bucket is the prefix, the name, `@` and the window word |
| `BucketIds.PoolIsSpelled` | crates/busbar/src/cost.rs:352-361 | a pool's bucket adds `#pool:` and the pool |
| `BucketIds.BelongsExactly` | crates/busbar/src/cost.rs:68-83 | an id belongs to a group exactly if it is the prefix, the name verbatim, `@`, a window word, and nothing or a `#` after it |
| `BucketIds.OwnBucket` | crates/busbar/src/cost.rs:361-371 | every id that is made for a group belongs to it |
| `BucketIds.LongerIsMistaken` | crates/busbar/src/governance/state.rs:1225-1233 | reclaiming a group takes every bucket of a name that goes on from it |
| `BucketIds.MistakenExactly` | crates/busbar/src/governance/state.rs:1213-1233 | for group-wide and pool scopes, reclaiming one group takes a bucket of another if and only if the other name goes on from it, or it goes on from the other as a pool |
| `BucketIds.MistakenHasDirection` | crates/busbar/src/governance/state.rs:1218-1219 | reclaiming `a` takes buckets of `a@day#x`, and not the reverse |
| `BucketIds.HashlessNamesAreSafe` | crates/busbar/src/cost.rs:56-67 | names without `#`, email addresses included, are never mistaken |
| `BucketIds.GoingOnCollides` | crates/busbar/src/cost.rs:361-371 | a name that goes on from another as a pool shares the row of that pool, for every window |
| `BucketIds.ShareRowExactly` | crates/busbar/src/cost.rs:361-371 | two groups share a ledger row if and only if one name goes on from the other as a pool |
| `BucketIds.BucketIdIsInjective` | crates/busbar/src/cost.rs:42-51 | groups that share no row have a different row for each (window, scope) |
| `Limits.Min` | crates/busbar/src/cost.rs:383-405 | the smaller of a cap that may be absent and an amount |
| `Limits.ProjectLimits` | crates/busbar/src/cost.rs:339-403 | one bucket per (window, scope) in use, in order of first use, with minimal caps and the downgrade of the earliest minimal budget; the minimal concurrent cap |
| `Limits.ProjectLimit` | crates/busbar/src/cost.rs:347-405 | one more limit keeps that |
| `Limits.DowngradeMoves` | crates/busbar/src/cost.rs:389-403 | a strictly smaller budget takes over the downgrade |
| `Limits.DowngradeStays` | crates/busbar/src/cost.rs:389-403 | an equal or larger budget does not |
| `LimitChain.ProjectGroups` | crates/busbar/src/cost.rs:319-416 | the projected groups are those of the configuration, each once, with parents as indices and missing parents dropped |
| `LimitChain.BucketsInUseAreCapped` | crates/busbar/src/cost.rs:298-308 | every projected bucket carries a cap |
| `LimitChain.CappedExactly` | crates/busbar/src/cost.rs:298-314 | the ids that enforce a cap are exactly those of the cells that some windowed limit counts in |
| `LimitChain.LongChainsRepeat` | crates/busbar/src/cost.rs:577-581 | a parent chain as long as the tree has met some group twice |
| `LimitChain.AncestorsAreNear` | crates/busbar/src/cost.rs:577-581 | every ancestor is met within as many steps as there are groups, on cyclic trees too |
| `LimitChain.ChainFor` | crates/busbar/src/cost.rs:552-598 | Err with the name exactly for an unknown group; otherwise the chain that the rows below describe bucket by bucket |
| `ChainLayouts.KeyBucketIsFirst` | crates/busbar/src/cost.rs:556-566 | the first bucket has the key's id, no group and no cap; after it come as many as the walked groups have |
| `ChainLayouts.BucketStands` | crates/busbar/src/cost.rs:582-594 | each bucket of each walked group has one place, innermost group first, with every field its own |
| `ChainLayouts.EveryBucketHasCell` | crates/busbar/src/cost.rs:552-598 | every later bucket is that of a cell in use in the key's group or an ancestor: its row id, its minimal caps, its downgrade |
| `ChainLayouts.EveryCellHasBucket` | crates/busbar/src/cost.rs:552-598 | and every such cell has one |
| `LimitChain.ParentIsNext` | crates/busbar/src/cost.rs:411-412 | following a parent index is following the parent name |
| `LimitChain.ChainVisitsAncestors` | crates/busbar/src/cost.rs:576-596 | the walked groups are exactly the key's group and its ancestors |
| `LimitChain.ClampExactlyOnCycles` | crates/busbar/src/cost.rs:577-581 | the clamp cuts a walk short exactly if it leads into a cycle, and other walks meet no group twice |
| `LimitChain.BucketMeans` | crates/busbar/src/cost.rs:130-155 | a bucket is under its caps exactly if every limit of its cell holds |
| `LimitChain.GroupMeans` | crates/busbar/src/cost.rs:339-410 | a group's buckets admit a pool exactly if every limit that concerns the pool holds |
| `LimitChain.CompilationPreservesMeaning` | crates/busbar/src/cost.rs:203-206 | for every tree, key, pool and counters: the chain admits exactly if every windowed limit of the group and its ancestors that is group-wide or about the pool is under cap |
| `ChainLayouts.AdmissionByRow` | crates/busbar/src/cost.rs:42-51 | with usage kept by bucket id: the chain admits exactly if every windowed limit of the group and its ancestors, group-wide or about the pool, has something left in the row of its own id |
| `LimitChain.FrozenExactly` | crates/busbar/src/cost.rs:209-218 | a walked group is disabled exactly if the key's group or an ancestor is |
| `Spend.CostWraps` | crates/busbar/src/cost.rs:117-122 | the wrapping sum is the true cost modulo 2^128 |
| `Spend.CostIsExact` | crates/busbar/src/cost.rs:114-122 | the cost is exact for every token split if and only if the four rates add up to at most 2^64 + 1 |
| `Spend.UnsafeRateUndercharges` | crates/busbar/src/cost.rs:114-122 | two tiers at the highest rate wrap, to less than half of the true cost |
| `Spend.Accumulate` | crates/busbar/src/cost.rs:498-503 | the saturating sum over the rows is the sum cut once |
| `Spend.NanosArePriced` | crates/busbar/src/cost.rs:463-503 | with safe rates, each row adds tokens times rate in its four tiers by the card's entry for its model, and nothing if there is none |
| `Spend.DeriveSpendCents` | crates/busbar/src/cost.rs:492-515 | the whole cents of the ledger plus the fee per billable request, cut once at i64::MAX; with safe rates the ledger is priced by the card itself |
| `Spend.DeriveSpendMicros` | crates/busbar/src/cost.rs:520-543 | the same in micro-units |
| `Spend.CutIsHarmless` | crates/busbar/src/cost.rs:509 | saturating the nano-units first does not change the saturated quotient |
| `Spend.NanosAreExact` | crates/busbar/src/cost.rs:492-503 | every ledger derives exactly if and only if every rate of the card is safe |
| `Spend.NanosIgnoreOrder` | crates/busbar/src/cost.rs:492-503 | the order of the model rows does not matter |
| `Spend.SpendGrows` | crates/busbar/src/cost.rs:492-543 | with safe rates, more tokens, rows or requests never cost less |
| `Spend.MicrosRefineCents` | crates/busbar/src/cost.rs:492-543 | unsaturated micro-units divided by 10000 and rounded down are the cents |
| `UsageLedgers.FlooredIdentity` | crates/api/src/store.rs:393-414 | after every step a counter is S_n minus min(0, min S_k), exactly while that fits the counter |
| `UsageLedgers.LowestIsMinimum` | crates/api/src/store.rs:393-394 | the correction is the minimum of zero and the running sums |
| `UsageLedgers.FloorOnlyAdds` | crates/api/src/store.rs:393-394 | a counter with room is never below the true sum, and equals it exactly if no running sum was negative |
| `UsageLedgers.FloorIsOrderSensitive` | crates/api/src/store.rs:706-714 | one pair of deltas that ends differently in its two orders |
| `UsageLedgers.OrderIsImmaterialExactly` | crates/api/src/store.rs:393-394 | every order of a counter's amounts ends alike if and only if it starts with all they take, or they give nothing, and has room for all they give, or they take nothing |
| `UsageLedgers.TrueSumExactly` | crates/api/src/store.rs:706-711 | every order ends at the true sum if and only if the counter starts with all they take and has room for all they give |
| `UsageLedgers.RowAdds` | crates/api/src/store.rs:395-414 | one row delta changes its model's four counters and no other model's |
| `UsageLedgers.LedgerRuns` | crates/api/src/store.rs:395-426 | after any deltas every counter is a floored counter over its own amounts |
| `UsageLedgers.LedgerKeepsUnique` | crates/api/src/store.rs:379-405 | rows stay unique, and there is a row for exactly the models that were there or were named |
| `UsageLedgers.InterleavingIsImmaterial` | crates/api/src/store.rs:706-714 | deltas that commute on every counter leave the same models and counters in any order |
| `UsageLedgers.InterleavingIsImmaterialExactly` | crates/api/src/store.rs:706-714 | deltas with one row a model leave the same counters and models in every order if and only if they commute on every counter; the order of rows is not compared |
| `UsageLedgers.UsageLedger.TotalTokens` | crates/api/src/store.rs:340-345 | the saturating total is the true total over all models and tiers, cut once |
| `UsageLedgers.UsageLedger.ApplyModelDelta` | crates/api/src/store.rs:395-414 | the ledger after one row delta |
| `UsageLedgers.UsageLedger.ApplyDelta` | crates/api/src/store.rs:417-426 | the ledger after one delta |
| `UsageLedgers.Store.AddUsage` | crates/api/src/store.rs:719-723 | all of the delta on the one row of the bucket and window, or an error and nothing |
| `UsageLedgers.Store.AddAll` | crates/api/src/store.rs:706-723 | deltas in a row accumulate on their row from what the store had, and touch no other row |
| `ProbeSchedules.ProbeSchedule.ScheduleFirst` | crates/busbar/src/health.rs:152-167 | the lane's slot becomes, and the prober gets, the earlier of the two deadlines |
| `ProbeSchedules.ProbeSchedule.AdvanceOwnedDeadline` | crates/busbar/src/health.rs:84-91 | the slot moves only from the owned value; the caller gets what is in it |
| `ProbeSchedules.SlotChanges` | crates/busbar/src/health.rs:71-167 | a slot changes only by the write of a tick that owns it, to the value it read, or down to what a spawn read; the write of any other tick changes nothing |
| `ProbeSchedules.ReadsAhead` | crates/busbar/src/health.rs:124-227 | the deadline that a spawn or a tick reads is one interval from now, cut at u64::MAX |
| `ProbeSchedules.SupersededLeave` | crates/busbar/src/health.rs:181-217 | a superseded prober that finds out leaves and changes nothing else |
| `ProbeSchedules.InvStep` | crates/busbar/src/health.rs:124-227 | every atomic step of spawns, ticks and the clock keeps the bounds of slots, firings and the attending prober |
| `ProbeSchedules.NeverDark` | crates/busbar/src/health.rs:40-53 | in every run, a tick passes the check at least every interval, or every timeout if that is longer; slot and next firing stay within that of the last |
| `ProbeOverlaps.CalmRunsNeverOverlap` | crates/busbar/src/health.rs:55-57 | if no generation starts while a prober of the lane is past the check, no two generations are ever past it |
| `ProbeOverlaps.CarefulRunsNeverOverlap` | crates/busbar/src/health.rs:55-57 | nor if each starts only while whoever is past the check is probing, and times out before the slot is due and before any interval is over |
| `ProbeOverlaps.QuickProbesNeverOverlap` | crates/busbar/src/health.rs:135-144 | with every timeout below every interval, it is enough that the probe times out before the slot is due |
| `ProbeOverlaps.OverlapExactly` | crates/busbar/src/health.rs:124-227 | while a live prober is past the check, two generations can come to probe before any time passes if and only if the lane's slot is due |
| `ProbeOverlaps.GenerationsCanOverlap` | crates/busbar/src/health.rs:55-57 | a run from the start in which probers of two generations are past the check at one instant |
| `SlowProbes.Converge` | crates/busbar/src/health.rs:181-217 | from a probe in flight and a prober of another generation due before it times out, time can go on, everyone ticking, until both are past the check |
| `SlowProbes.StartsMeet` | crates/busbar/src/health.rs:124-167 | if the slot or the interval of a later generation is due before the probe times out, starting generations up to that one leads there |
| `SlowProbes.LateRun` | crates/busbar/src/health.rs:124-227 | if neither is, and no live prober, no run leads there |
| `SlowProbes.MeetsExactly` | crates/busbar/src/health.rs:124-227 | while a probe is in flight, another generation can come to probe the lane before it is over if and only if something of it is due by the probe's timeout |
| `DurableDisk.HoldsThroughCrash` | crates/api/src/durable.rs:69-73 | a name that can only stand for synced, allowed contents has such contents after every crash |
| `DurableDisk.UnsyncedMayTear` | crates/api/src/durable.rs:218 | a published file that was not synced may hold anything after a crash: the sync before the rename is needed |
| `DurableDisk.UnsyncedRenameMayVanish` | crates/api/src/durable.rs:225-226 | until the directory is synced, a crash may bring the old contents back |
| `DurableDisk.SyncSettles` | crates/api/src/durable.rs:89-96 | syncing the holding directory leaves one possible entry for the name |
| `TempNames.TempNameIsInjective` | crates/api/src/durable.rs:159-165 | temporary names of different targets, processes or sequence numbers differ |
| `DurableWriters.TempsAreDistinct` | crates/api/src/durable.rs:143-166 | no two calls at work share a temporary file |
| `DurableWriters.PublishStep` | crates/api/src/durable.rs:222 | a rename after the sync keeps every name at whole, synced contents |
| `DurableWriters.InvStep` | crates/api/src/durable.rs:139-228 | every step of any number of writers, each failure, cleanup and crash keeps that |
| `DurableWriters.NeverTorn` | crates/api/src/durable.rs:69-73 | in every run of concurrent writers with crashes, a reader finds the old contents or one call's whole payload, and so does a reader after another crash |
| `DurableWriters.SyncedPublishIsDurable` | crates/api/src/durable.rs:222-227 | once a call has renamed and its directory synced, no later crash brings older contents back, among any number of writers |
| `DurableWrites.HoldingDirHolds` | crates/api/src/durable.rs:75-84 | the holding directory of a relative or absolute path is the one its entry is in |
| `DurableWrites.PathsLead` | crates/api/src/durable.rs:75-84 | an absolute path leads where it says, and a relative one there from the current directory, with or without `./` |
| `DurableWrites.FileSystem.SyncHoldingDir` | crates/api/src/durable.rs:89-96 | settles the entries of the holding directory, or nothing |
| `DurableWrites.FileSystem.PrepareTemp` | crates/api/src/durable.rs:192-220 | both postures get a synced temporary file with the bytes past any leftover file of that name, or touch nothing else |
| `DurableWrites.FileSystem.Publish` | crates/api/src/durable.rs:222-226 | after the rename the target has the bytes, durably if its directory synced |
| `DurableWrites.FileSystem.WriteWith` | crates/api/src/durable.rs:139-228 | the error about a missing name exactly for a path without a last component or with `..` for it; exactly when it succeeds; on Ok the new bytes and no temporary file; on Err the target unchanged and no temporary file if the unlink works; other files untouched; on the way and afterwards, only what each name may hold, after any crash |
| `DurableWrites.FileSystem.WriteInOrder` | crates/api/src/durable.rs:139-228 | calls in a row: each name holds the payload of the last call that published it; a crash finds what the calls before left, or the payload of the call under way |
| `DurableWrites.PublishIsAtomic` | crates/api/src/durable.rs:69-73 | a crash after any system call of a publish leaves exactly the earlier or exactly the new contents |
| `DurableWrites.FileSystem.Remove` | crates/api/src/durable.rs:102-106 | Err exactly if the unlink fails; on Ok the name is gone, durably if its directory synced; every name stays within what it may hold |
| `DurableWrites.FileSystem.MakeDir` | crates/api/src/durable.rs:127-135 | one directory: made and durable, left to a concurrent creator, or an error |
| `DurableWrites.FileSystem.CreateDirAll` | crates/api/src/durable.rs:115-137 | on Ok the path exists and every directory this call made is durable if its parent synced; it fails only if a creation is refused or a file is in the way |
| `DurableWrites.CreatedPathSurvives` | crates/api/src/durable.rs:108-114 | without failed syncs or other creators, every directory of the path is there after every crash |
| `CredentialCaches.FoundExactlyWhile` | crates/busbar/src/auth_cache.rs:147-159 | an identity is found exactly for the seconds its module suggests, or 300, and at most 3600; a pass for 5 to 7 seconds by the hash |
| `CredentialCaches.PutKeepsValid` | crates/busbar/src/auth_cache.rs:138-192 | a put keeps the size bound, the distinct insertion numbers and the absence of rejections |
| `CredentialCaches.EvictionIsDetermined` | crates/busbar/src/auth_cache.rs:169-181 | the state after a put does not depend on the iteration order of the map |
| `CredentialCaches.RoomIsExact` | crates/busbar/src/auth_cache.rs:169-181 | below 4096 entries a put takes nothing out; at 4096 all expired entries go, and a live one only if nothing had expired and it was the oldest, and then no other |
| `CredentialCaches.PutThenGet` | crates/busbar/src/auth_cache.rs:110-192 | an accepted verdict is found until it expires, and not after |
| `CredentialCaches.CredentialCache.Get` | crates/busbar/src/auth_cache.rs:110-129 | the unexpired verdict, never a rejection; an expired entry goes |
| `CredentialCaches.CredentialCache.Put` | crates/busbar/src/auth_cache.rs:138-192 | dropped for a rejection or a moved generation; otherwise room is made and the entry inserted |
| `CredentialCaches.CredentialCache.MakeRoom` | crates/busbar/src/auth_cache.rs:169-181 | at capacity the expired entries go, then the oldest |
| `CredentialCaches.CredentialCache.OldestInserted` | crates/busbar/src/auth_cache.rs:173-178 | an entry inserted before all others, in any iteration order |
| `CredentialCaches.CredentialCache.FlushModule` | crates/busbar/src/auth_cache.rs:202-208 | drops exactly the module's entries, counts them and moves the generation |
| `CredentialCaches.CredentialCache.FlushAll` | crates/busbar/src/auth_cache.rs:214-220 | drops and counts everything and moves the generation |
| `CredentialCaches.HistoryIsValid` | crates/busbar/src/auth_cache.rs:71-83 | in every history the cache is bounded, has distinct insertion numbers and holds no rejection |
| `CredentialCaches.EntriesAreBacked` | crates/busbar/src/auth_cache.rs:54-67 | every entry is the last accepted put of its key, whose generation was captured after the last flush of its module |
| `CredentialCaches.FlushCannotBeUndone` | crates/busbar/src/auth_cache.rs:45-67 | after a flush, whatever the cache holds for the module comes from a generation captured later |
| `CredentialCaches.LookupIsLastPut` | crates/busbar/src/auth_cache.rs:107-129 | a lookup answers with the last accepted put of the key, within an hour of it, never with a rejection |
| `SchemaCompat.ClassifyField` | scripts/config-schema.py:413-456 | the findings about one field are its deltas |
| `SchemaCompat.Classify` | scripts/config-schema.py:375-470 | the findings are the deltas between the schemas, all of them and nothing else |
| `SchemaCompat.SilentExactly` | scripts/config-schema.py:375-470 | nothing is reported exactly if the schemas differ in `deserialize` markers only |
| `SchemaCompat.CompatibleIsExtension` | scripts/config-schema.py:375-470 | no BREAKING finding means that the fresh schema extends the baseline, and the reverse |
| `SchemaCompat.CompatibleTransitive` | scripts/config-schema.py:375-470 | two green gates in a row are one green gate |
| `SchemaCompat.ReleasesCompose` | scripts/config-schema.py:375-470 | gating each release against the one before gates any release against any earlier one |
| `SchemaCompat.CompatibleAntisymmetric` | scripts/config-schema.py:375-470 | schemas that are green in both directions differ in `deserialize` markers only |
| `ConfigAcceptance.AcceptanceGrows` | scripts/config-schema.py:375-470 | what the baseline accepts, at any depth, the fresh release accepts, if what the fingerprint does not record is kept |
| `ConfigAcceptance.CodeChangeBreaks` | scripts/config-schema.py:321-330 | a name read by hand whose code changes, or which gains a recorded shape, may reject an accepted configuration |
| `ConfigAcceptance.ShapeChangeBreaks` | scripts/config-schema.py:321-330 | so may a name with a value that loses its recorded shape |
| `ConfigAcceptance.VariantChangeBreaks` | scripts/config-schema.py:262-289 | so may a variant whose payload comes, goes or changes: only its name is recorded |
| `ConfigAcceptance.LeniencyChangeBreaks` | scripts/config-schema.py:150-166 | so may a struct that ignores unknown keys and stops, or gets a new optional field: `deny_unknown_fields` is not recorded |
| `ConfigAcceptance.NullChangeBreaks` | scripts/config-schema.py:183-192 | so may an `Option` field that becomes one with a default: both are recorded as optional |
| `ConfigAcceptance.DefaultChangeBreaks` | scripts/config-schema.py:150-180 | so may a struct that no longer defaults as a whole: only the defaults of fields are recorded |
| `ConfigAcceptance.AliasChangeBreaks` | scripts/config-schema.py:169-180 | so may a field that loses an alternative spelling: only its name is recorded |
| `ConfigAcceptance.KeptPreservesAcceptance` | scripts/config-schema.py:375-470 | with no BREAKING finding, every accepted configuration stays accepted if all of that is kept for every name in use |
| `ConfigAcceptance.GreenGatePreservesAcceptance` | scripts/config-schema.py:375-470 | and only if, as long as no spelling of one field becomes a spelling of another |
| `SourceTexts.LineCommentGoes` | scripts/config-schema.py:77-82 | a line comment is blanked up to its line feed, which stays |
| `SourceTexts.BlockCommentGoes` | scripts/config-schema.py:83-91 | a block comment is blanked up to its first terminator |
| `SourceTexts.OpenCommentGoes` | scripts/config-schema.py:83-91 | one without a terminator is blanked to the end |
| `SourceTexts.LiteralStays` | scripts/config-schema.py:51-60 | a string literal is copied whole, with its escapes and the comment marks in it |
| `SourceTexts.StripKeepsTheRest` | scripts/config-schema.py:40-95 | of a text of code, literals and comments, stripping blanks the comments and keeps the rest |
| `SourceTexts.StripKeepsPositions` | scripts/config-schema.py:40-95 | position by position: comments are blanked but for their line feeds, all else stands where it stood |
| `SourceTexts.EveryTextIsSource` | scripts/config-schema.py:40-95 | every text is made of such parts, the last of which may be open |
| `CommentTokens.StripOnlyBlanks` | scripts/config-schema.py:40-95 | same length; each character stays or, if it is no line feed, becomes a blank |
| `CommentTokens.StripIsIdempotent` | scripts/config-schema.py:40-95 | there is nothing left to strip |
| `CommentStripper.StripComments` | scripts/config-schema.py:40-95 | the index loop keeps what the parts of its text say, and computes the token-by-token stripping |
| `CommentTokens.QuoteLiteralOpensString` | scripts/config-schema.py:47-76 | a double quote in a character literal opens a string: whatever follows is copied until the next one |
| `CommentTokens.CommentAfterQuoteLiteralStays` | scripts/config-schema.py:47-81 | a line comment after such a literal is not stripped |
| `ContextMax.ResolveModelContextMax` | crates/busbar/src/main.rs:510-541 | a table exactly of the listed models, each with its one explicit limit or none; or two limits of a model that conflict |
| `ContextMax.ResolutionIsUnique` | crates/busbar/src/main.rs:502-509 | the members determine the table |
| `ContextMax.MembersIgnoreOrder` | crates/busbar/src/main.rs:514 | pools in another order have the same members |
| `ContextMax.OrderIsImmaterial` | crates/busbar/src/main.rs:502-509 | two iteration orders of the pools both fail, or both resolve to the same table |
| `JsonDepth.ExceedsMaxDepth` | crates/busbar/src/json.rs:30-58 | on any bytes, the early exit agrees with the greatest depth of a full scan |
| `JsonDepth.ScanMeasuresDepth` | crates/busbar/src/json.rs:27-58 | on any rendering of a JSON value, with any whitespace and escapes, the greatest depth is its nesting depth |
| `JsonDepth.StrayClosersAreIgnored` | crates/busbar/src/json.rs:30-58 | closing brackets with nothing open are as good as absent |
| `JsonDepth.RejectionIsFinal` | crates/busbar/src/json.rs:27-29 | bytes after a text never lower its depth |

## Left out

- CRC-32, SHA-256 and the JSON body of an exception frame are parameters; decoding does not check checksums, as in the code.
- The translation of decoded frames between protocols, and the text framing of the same reassembler, are not modelled.
- Parsing rates from floating point: the model starts from integer nano rates.
- The governance engine: admission of a bucket is "counter below cap". The engine also refuses a request whose own flat fee would take a budget past its cap, which this model does not state.
- The concurrent gauge: its cap is compiled, its counting is not part of this model.
- `ProbeSchedules.NeverDark`: a spawn takes no time, and neither does a tick from its check to its write; a probe, superseded or not, ends by its timeout, and a due tick of a live prober runs before time goes on, so a starved scheduler is outside it. Any next firing within one interval is allowed for the ticker. Relaxed atomics are one order of steps. A prober's snapshot is gone only after a newer generation, since swaps are serialized by their callers.
- `DurableWriters.NeverTorn`: no published file is named like a temporary file, and no other program writes to the directories.
- `DurableWrites.FileSystem.WriteWith`: a path is the list of its components, where `.` stands only in front; creating directories in between (`CreateDirAll` states its own frame), file modes, opening by other names (hard and symbolic links) and `..` in the middle of a path are not modelled.
- Lost entries of a crashed directory: a name and the directories above it are followed one by one (`DurableWrites.CreatedPathSurvives`), not as a tree of inodes.
- `CredentialCaches.EntriesAreBacked`: the insertion and flush counters are unbounded; the expiry wraps as in the code.
- `UsageLedgers.Store.AddUsage`: a single writer, as its documentation requires; stores with an atomic accumulate are the in-order application that `UsageLedgers.InterleavingIsImmaterial` is about.
- `SchemaCompat.Classify`: the order and wording of the report are not stated. Extracting schemas from source text (regular expressions, serde attributes) is not modelled.
- `ConfigAcceptance.GreenGatePreservesAcceptance`: a spelling that goes from one field to another is a retype under a green gate; whether it breaks depends on what the two types have in common, so the necessity is stated without it (`ConfigAcceptance.KeptPreservesAcceptance` does not need that). Types are names in lists and tables, and the keys of tables are any text. Flattened fields, an `Option` inside a container, renaming all fields of a struct at once, and aliases of variants are not modelled; no configuration type uses them.
- The comment stripper has a character-literal mode that nothing enters (scripts/config-schema.py:48, 61-70). The model leaves it out; `CommentTokens.QuoteLiteralOpensString` says what follows from that.
- Waivers of the config gate, the command lines, and file scanning.
- HTTP, TLS, the async runtime, plugin loading, routing, breakers and concrete stores.
