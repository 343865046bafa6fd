# Verified model of the openweights storage path

This Dafny project models the parts of the repository that move, cache and grant access to bytes, and
proves what they promise. Four cores are covered end to end.

**Reading from Sia** (`Striping`, `Encryption`, `SlabRecovery`, `Download`, `RangeRead`, `Upload`). A slab is a
block of bytes striped over data shards in rows of `SEGMENT_SIZE`, erasure-coded, and encrypted shard by shard.
An object is a list of slab ranges whose bytes are encrypted once more with a keystream that changes nonce every
4,294,967,295 blocks of 64 bytes. `RangeRead.ReadRange` is the main result: for every object within one nonce
span, every offset, length and number of chunks in flight, every choice of sectors that hosts answer for, every
order in which reads finish and every mix of `poll_read` and `read_chunk`, what the reader gets is a prefix of the
wanted plaintext; an error is reported only if some chunk cannot be recovered, and nothing follows it; the end is
reported only when everything has been handed out, except under a condition on the slabs that is exact; and a row
of whole-chunk reads comes, read by read, to exactly what `RangeRead.WholeRead` says. The chain below it is proved
piece by piece: striping is a bijection and both directions of it are methods with the source's loops; the shard
race succeeds exactly when enough sectors can be read; the aligned window decrypts and reconstructs to the slab's
range; chunks cover the range in order. `Upload.UploadThenRead` closes the circle: what is uploaded is what is read.

**The gateway cache** (`Cache`, `CacheProtocol`). `Cache` is the class with its list, index and byte count.
`CacheProtocol` is the protocol of requests over directory entries, inodes and contents, one atomic step at a
time, with failures at every point. In every run from boot, a file handed to a reader has the content that
its hash names, and a miss whose download is right is served (`CacheProtocol.MissServed`); the coalescer is what
gives each `Put` its temporary file, and without it the claim is false.

**Grants** (`Coalesce`, `Text`, `GrantCodec`, `SignedUrl`, `KeyRotation`, `GrantCheck`, `Ranges`,
`Multipart`, `Handler`). Term spans are coalesced, printed into a URL and signed in Rust, verified in Go and
in Rust, checked against a Range header and answered. `Handler.GrantEndToEnd` connects them all: a range is
served exactly when every requested octet belongs to a term, and `Handler.EndToEndExact` says for which spans,
`Handler.TermsEndToEnd` for which terms. `Handler.DecideExact` gives every other status.
`KeyRotation.EveryLiveUrlVerifies` and `KeyRotation.LiveExactlyWithKey` speak of whole runs,
`Multipart.MultipartRoundTrip` of what a client reads back.

**Bookkeeping** (`Reconciler`, `ShardTerms`, `MerkleHex`). The pin reconciler as a class with its sweeps, with
bounded waiting, pinning within a bound, and invariants over every run; the terms of an uploaded shard, which
partition each file; the hex form of hashes.

## How it is modelled

- Constants of the geometry (`SEGMENT_SIZE`, `SECTOR_SIZE`) are parameters: positive, the second a multiple
  of the first. Chunk size, nonce span, retry cap and batch size have the source's values.
- ChaCha20 is an arbitrary function from key, nonce and position to a byte. The erasure code is an arbitrary
  column-wise function with one hypothesis: any `min_shards` shards determine the data shards. HMAC, base64
  and UUID parsing are arbitrary functions; `SignedUrl.Lib.Sound` says that the decoders read back what is
  encoded. BLAKE3 is an arbitrary function from content to hash.
- Scheduling, host failures, read sizes, disk errors, Sia's answers, clock readings and tie orders are left
  open: results hold for every choice.
- Rust and Go numbers are unbounded here, with `U64` and `U32` bounds stated where the source parses,
  saturates, wraps or truncates.
- A string is a sequence of characters; in `Multipart` a character is an octet.
- In `KeyRotation` a rotation reaches the signer and both verifiers at once.

## Where the code and its comments disagree

The model follows the code.

- gateway/cache.go:40-44 says that two `Put`s of one hash would be handled correctly even without the
  coalescer. They share one temporary file; `CacheProtocol.CoalescerNeeded` gives the run in which a reader is
  handed wrong content.
- reconciler.rs:19-26 says that the worst outcome of a race with a handler is a count that is off by one. The
  orphaning UPDATE has no state guard: `Reconciler.PinnedThenOrphaned` is a run in which a pinned row is
  orphaned, and `Reconciler.RaceRuns` says exactly when that happens.
- gateway/ranges.go:293-303 lists a part's Content-Type before its Content-Range. Go's multipart writer sorts
  the header lines, so Content-Range comes first; the length is the same.
- encryption.rs:174-199 does not change nonce when a call ends exactly at the end of a span.
  `Encryption.ChunkingIndependence` gives the exact condition under which the cut into calls does not matter.
- section 2.1 of RFC 7233 clamps the end of a range to the object; gateway/ranges.go:198-200 refuses it.
  `Ranges.ResolveExact` states the code's rule.
- coalesce.rs relies on non-empty spans, while shard_parse.rs:196 records `(0, 0)` for xorbs of other shards.
  `Coalesce.CoalesceSpans` is exact if and only if every empty span touches one that has bytes, and so is the whole
  path to the gateway's answer (`Handler.EndToEndExact`). `Handler.StrayDecision` says what happens otherwise: every
  request is refused, or every range of the xorb is granted.
- download.rs:342-367 emits an empty chunk for a slab without bytes. If the slab begins at a row of segments, the
  chunk's window is empty and its task fails (`SlabRecovery.RecoverChunk`); if it begins within a row, the task
  succeeds with no bytes, which readers take for the end. `RangeRead.EarlyEndExact` gives the condition on the
  slabs of a range: without it no reader is told the end early (`RangeRead.ReadRange`), with it and with hosts
  that answer whole-chunk reads are (`RangeRead.EarlyEnd`). `Upload.SandwichRun` is a download of two bytes for
  which it happens.

## Model

| member | source | states |
|---|---|---|
| Striping.LayoutInverse | cas/vendored/sia_storage/src/erasure_coding.rs:44-105 | stream byte k lives at shard (k/SEG) mod d, position (k/(SEG d)) SEG + k mod SEG, and that place maps back to k |
| Striping.LayoutInverseCell | cas/vendored/sia_storage/src/erasure_coding.rs:44-105 | every cell of every data shard is the place of exactly the stream byte it maps to |
| Striping.LayoutBound | cas/vendored/sia_storage/src/erasure_coding.rs:75-105 | a stream byte falls inside shards of a given length exactly when it is among the first d times that length |
| Striping.UnstripeStripe | cas/vendored/sia_storage/src/erasure_coding.rs:44-105 | un-striping striped content gives the content |
| Striping.StreamByte | cas/vendored/sia_storage/src/erasure_coding.rs:44-105 | byte j of the segment of row r on shard i is byte j of segment r d + i of the stream, read or written |
| Striping.WriteDataShards | cas/vendored/sia_storage/src/erasure_coding.rs:44-73 | terminates and writes exactly the n stream bytes from skip on, for every skip and n in range |
| Striping.ReadSegment | cas/vendored/sia_storage/src/erasure_coding.rs:87-100 | fills a segment from as many reads as it takes, stops early only at the end of the data or the limit, and changes nothing else |
| Striping.ReadSlabShards | cas/vendored/sia_storage/src/erasure_coding.rs:75-105 | however short the reads are, the count is the shorter of stream and capacity, every byte read lands in its cell, and every other cell keeps its value |
| Striping.ReadThenUnstripe | cas/vendored/sia_storage/src/erasure_coding.rs:44-105 | reading a slab and un-striping it gives the bytes read followed by the padding |
| Striping.UnstripeRows | cas/vendored/sia_storage/src/download.rs:192-197 | cutting the same rows out of every shard cuts one contiguous block out of the stream |
| Encryption.Chacha20Cipher.constructor | cas/vendored/sia_storage/src/encryption.rs:155-165 | a new cipher is at the nonce and position of its absolute offset |
| Encryption.Chacha20Cipher.ApplyKeystream | cas/vendored/sia_storage/src/encryption.rs:174-199 | the buffer and the cipher after one in-place call, with at most one change of nonce inside it |
| Encryption.CallExact | cas/vendored/sia_storage/src/encryption.rs:174-199 | one call from a seeked cipher is the XOR with the keystream at absolute offsets, unless it runs through a whole further span |
| Encryption.ChunkingIndependence | cas/vendored/sia_storage/src/encryption.rs:174-199 | a sequence of calls equals the reference keystream, for all keystreams and data, if and only if no non-final call ends on a nonce boundary and none crosses two |
| Encryption.CryptInvolution | cas/vendored/sia_storage/src/encryption.rs:123-137 | encrypting twice gives the data back |
| Encryption.SpanKeystream | cas/vendored/sia_storage/src/encryption.rs:139-165 | byte q of span s is byte q of the keystream of nonce s, for spans of 274,877,906,880 bytes |
| Encryption.CryptSlice | cas/vendored/sia_storage/src/encryption.rs:139-199 | a slice of the encrypted stream decrypts at the offset of the slice |
| Encryption.FirstSpan | cas/vendored/sia_storage/src/encryption.rs:174-199 | a stream that ends within the first nonce span may be cut anywhere |
| Encryption.CipherReader.PollRead | cas/vendored/sia_storage/src/encryption.rs:123-137 | hands out the next bytes of the inner reader as the cipher encrypts them, advances the cipher by exactly that many, and hands out none only at the end or into an empty buffer |
| Encryption.EncryptShard | cas/vendored/sia_storage/src/encryption.rs:71-77 | XORs the shard in place with the keystream whose nonce is its index, from the offset on |
| Encryption.ShardKeystreams | cas/vendored/sia_storage/src/encryption.rs:71-77 | two indices encrypt a shard alike under every cipher if and only if they are the same |
| Encryption.OnlyOwnNonce | cas/vendored/sia_storage/src/encryption.rs:71-77 | under a keystream that is zero on every nonce but one, only the shard with that index changes |
| Encryption.DecryptWindow | cas/vendored/sia_storage/src/encryption.rs:71-92 | a window of an encrypted shard decrypts at the window's offset |
| SlabRecovery.WindowFits | cas/vendored/sia_storage/src/download.rs:192-197 | the window lies within the sector, is made of whole segments, and holds every byte of the range from the skip on |
| SlabRecovery.WindowTight | cas/vendored/sia_storage/src/download.rs:192-197 | the window begins in the row of the first byte and ends less than a row after the last |
| SlabRecovery.RaceInvariant | cas/vendored/sia_storage/src/download.rs:180-258 | in every schedule, sectors in flight, done, failed and waiting stay disjoint and each is asked for at most once |
| SlabRecovery.RaceCount | cas/vendored/sia_storage/src/download.rs:180-258 | in every schedule the sectors are conserved and are asked for in preference order |
| SlabRecovery.RecoverShards | cas/vendored/sia_storage/src/download.rs:180-258 | terminates; succeeds exactly when at least min_shards sectors can be read, with exactly min_shards filled slots at their indices; otherwise reports NotEnoughShards with what it got; asks for min_shards sectors, one more for each failure and each firing of the timer, and no other |
| SlabRecovery.EncryptRecoveredShards | cas/vendored/sia_storage/src/encryption.rs:81-92 | every filled slot is XORed with the keystream of its own index from the offset on, empty slots stay empty |
| SlabRecovery.DecryptedSlot | cas/vendored/sia_storage/src/download.rs:262-289 | a decrypted window of a stored sector is the window of its code shard |
| SlabRecovery.StoredByte | cas/vendored/sia_storage/src/encryption.rs:71-77 | a stored byte is that of its code shard under the slab's key and the nonce of its shard |
| SlabRecovery.ReconstructWindow | cas/vendored/sia_storage/src/erasure_coding.rs:37-40 | reconstructing only a window equals slicing the data shards |
| SlabRecovery.Decode | cas/vendored/sia_storage/src/download.rs:262-289 | decrypts and then reconstructs, with the errors of the erasure code |
| SlabRecovery.WindowRange | cas/vendored/sia_storage/src/download.rs:293-298 | un-striping the window from the skip on gives the range of the slab |
| SlabRecovery.AlignedRecovery | cas/vendored/sia_storage/src/download.rs:192-297 | from any min_shards sectors, decrypting, reconstructing and un-striping the aligned window gives exactly the slab's range |
| SlabRecovery.SpawnFirst | cas/vendored/sia_storage/src/download.rs:199-215 | asks for as many sectors as shards are needed, or for all there are |
| SlabRecovery.FinishRead | cas/vendored/sia_storage/src/download.rs:221-254 | a read that ends fills exactly its slot or is given up, and sectors are conserved |
| SlabRecovery.NonEmptyWindow | cas/vendored/sia_storage/src/download.rs:192-197 | the window is empty if and only if the range has no bytes and begins at a row of segments |
| SlabRecovery.RecoverChunk | cas/vendored/sia_storage/src/download.rs:105-298 | a chunk task refuses bad shard counts, returns exactly the slab's range on success, and succeeds if and only if enough sectors can be read, the code accepts the counts and the window is not empty |
| Download.ChunkIter.constructor | cas/vendored/sia_storage/src/download.rs:319-336 | the loop finds the slab and the offset in it that hold the first byte of the range |
| Download.ChunkIter.Next | cas/vendored/sia_storage/src/download.rs:342-367 | yields the chunks of the range one after the other, then nothing |
| Download.NextChunkHolds | cas/vendored/sia_storage/src/download.rs:342-367 | a chunk is stored where its slab is and holds the next bytes of the slab |
| Download.ChunksCover | cas/vendored/sia_storage/src/download.rs:318-368 | the chunks cover the requested range exactly, in order |
| Download.RangeFull | cas/vendored/sia_storage/src/download.rs:342-370 | the chunks of a range have 256 KiB, except where a slab or the range ends |
| Download.StartInRange | cas/vendored/sia_storage/src/download.rs:319-336 | that slab and offset are where the range begins |
| Download.ChunksNonEmpty | cas/vendored/sia_storage/src/download.rs:342-367 | some chunk is empty if and only if, from the current slab on, an empty slab starts before the end of the range |
| Download.ChunksForward | cas/vendored/sia_storage/src/download.rs:342-367 | the chunks have exactly the bytes that remain, and a chunk is asked for only while bytes are wanted |
| Download.RangeNonEmpty | cas/vendored/sia_storage/src/download.rs:318-368 | for a range, no chunk is empty if and only if no empty slab lies strictly inside it |
| Download.DecryptChunk | cas/vendored/sia_storage/src/download.rs:391-426 | decrypting the next chunk continues the expected plaintext |
| Download.RangeTask | cas/vendored/sia_storage/src/download.rs:318-368 | the chunks of a range of an object decrypt to that range of its plaintext |
| Download.Download.SpawnNext | cas/vendored/sia_storage/src/download.rs:443-461 | the next chunk joins the end of the queue, if there is one |
| Download.Download.DrainBuf | cas/vendored/sia_storage/src/download.rs:429-433 | hands out as much of the buffer as fits and keeps the rest |
| Download.Download.SetErr | cas/vendored/sia_storage/src/download.rs:437-441 | an error empties buffer and queue for good |
| Download.ChunkTask | cas/vendored/sia_storage/src/download.rs:443-461 | the task of a chunk succeeds if and only if enough of its sectors can be read and enough shards decode |
| Download.Download.AwaitFront | cas/vendored/sia_storage/src/download.rs:403-414 | the front task yields the bytes of its chunk, or fails exactly when it must |
| Download.Download.TakeFront | cas/vendored/sia_storage/src/download.rs:391-426 | the front chunk leaves the queue, is decrypted, and another is started |
| Download.Download.NextData | cas/vendored/sia_storage/src/download.rs:403-426 | the front task's data continues the wanted range, or its error stops the download; it succeeds if and only if the task does |
| Download.Download.PollRead | cas/vendored/sia_storage/src/download.rs:391-426 | bytes handed out continue the wanted range and fit the caller's buffer; nothing follows an error; no bytes mean the end, or that a chunk without bytes was recovered; the queue never exceeds its bound |
| Download.Download.ReadChunk | cas/vendored/sia_storage/src/download.rs:470-496 | the next whole chunk, under the same promises; with an empty buffer it succeeds if and only if the next task does |
| Download.AtEnd | cas/vendored/sia_storage/src/download.rs:391-496 | with an empty buffer nothing is queued if and only if the whole range has been handed out |
| Download.WantedExact | cas/vendored/sia_storage/src/download.rs:498-529 | exactly the bytes from the offset on that the object has, at most as many as asked for |
| Download.Open | cas/vendored/sia_storage/src/download.rs:498-529 | refuses zero chunks in flight, otherwise wants the range clipped to the object |
| RangeRead.Read | cas/vendored/sia_storage/src/download.rs:391-496 | one call comes to bytes, the end, nothing yet or an error, and to which of them |
| RangeRead.ChunksEndEarly | cas/vendored/sia_storage/src/download.rs:342-367 | a recoverable chunk without bytes comes up if and only if a recoverable slab without bytes does |
| RangeRead.EarlyEndExact | cas/vendored/sia_storage/src/download.rs:318-368 | for a range: if and only if an empty slab that begins within a row lies before its end, and it and all slabs of the range before it can be recovered |
| RangeRead.ReadRange | cas/vendored/sia_storage/src/download.rs:391-529 | end to end, for every schedule and mix of reads: a prefix of the wanted plaintext, an error only for a reason and nothing after it, the end only at the end unless that condition holds, and the exact outcome of whole-chunk reads |
| RangeRead.AnsweredDelivers | cas/vendored/sia_storage/src/download.rs:470-496 | if every chunk's task succeeds, no read fails and one more whole-chunk read than there are chunks delivers everything and then the end |
| RangeRead.EarlyEnd | cas/vendored/sia_storage/src/download.rs:342-367 | if the condition holds and hosts answer, whole-chunk reads are told the end while bytes are still wanted |
| Upload.StripeUnstripe | cas/vendored/sia_storage/src/upload.rs:327-336 | striping what was un-striped gives the shards |
| Upload.UploadHolds | cas/vendored/sia_storage/src/upload.rs:327-380 | an uploaded slab is stored in the sense that downloads rely on, with the bytes read for it |
| Upload.EncryptedRead | cas/vendored/sia_storage/src/encryption.rs:123-137 | the encrypting reader keeps every promise of a plain reader over the encrypted data: its next bytes, and none only at the end or into an empty buffer |
| Upload.UploadSlab | cas/vendored/sia_storage/src/upload.rs:325-424 | one slab: the next bytes of the stream, as many as fit, or none at its end |
| Upload.UploadSlabs | cas/vendored/sia_storage/src/upload.rs:294-441 | the slabs hold the whole stream, none of them empty and all but the last full |
| Upload.UploadObject | cas/vendored/sia_storage/src/upload.rs:459-472 | within one nonce span, the object holds what it held, followed by the new data, encrypted at its place |
| Upload.UploadThenRead | cas/vendored/sia_storage/src/upload.rs:459-472 | uploading and then reading any range in any way gives exactly that range of what was uploaded |
| Upload.EmptySlabEndsEarly | cas/vendored/sia_storage/src/download.rs:342-367 | for every outcome that `RangeRead.ReadRange` allows on an object of two bytes, whole-chunk reads are told the end after the first |
| Upload.SandwichRun | cas/vendored/sia_storage/src/download.rs:342-367 | a download of that object, with every host answering, in which a read is told the end while a byte is still wanted |
| Cache.PathsApart | gateway/cache.go:117-119 | different final and temporary files have different paths |
| Cache.FitLongest | gateway/cache.go:274-295 | eviction leaves exactly the longest prefix of the recency order that fits the budget |
| Cache.StoreExact | gateway/cache.go:250-295 | a Put leaves exactly the longest prefix within the budget of its own entry followed by the others; its own is kept if and only if it is within the budget by itself |
| Cache.RunByRecency | gateway/cache.go:125-295 | after any run of uses the list is in order of last use and within the budget |
| Cache.Cache.constructor | gateway/cache.go:99-115 | a new cache is empty |
| Cache.Cache.Lookup | gateway/cache.go:125-137 | a hit is found in the index and becomes most recently used; a miss changes nothing |
| Cache.Cache.DropStale | gateway/cache.go:145-157 | drops exactly the entry whose file is gone, and only if it is still the same file |
| Cache.Cache.EvictLocked | gateway/cache.go:274-295 | list, index and byte count stay consistent, and the files of the evicted entries are unlinked |
| Cache.Cache.Insert | gateway/cache.go:250-270 | stores the entry first and evicts what does not fit |
| Cache.Drive | gateway/cache.go:125-295 | any sequence of critical sections on a new cache leaves the run of its uses: order of last use, within the budget, index and account consistent |
| CacheProtocol.NextOk | gateway/handlers.go:458-523 | every step of every request keeps the invariant |
| CacheProtocol.RunOk | gateway/handlers.go:458-523 | every run keeps the invariant |
| CacheProtocol.ContentSafety | gateway/cache.go:125-270 | in every run from boot with arbitrary leftover files, a file handed to a reader has exactly the content that its hash names |
| CacheProtocol.ExclusiveOwnership | gateway/singleflight.go:67-117 | one leader a hash; from create to rename a Put alone owns its temporary name and inode, which hold what it hashed |
| CacheProtocol.FollowersHaveLeaders | gateway/singleflight.go:67-117 | the leader that a follower waits for is inside the fetch of the same hash |
| CacheProtocol.ServedStable | gateway/cache.go:125-270 | what a reader was handed does not change, whatever the cache does afterwards |
| CacheProtocol.MissServed | gateway/handlers.go:458-523 | without an entry or a fetch for the hash, a request whose download is right and fits ends with that content, in whatever chunks it comes, if no step fails |
| CacheProtocol.HitServes | gateway/cache.go:125-157 | a request that looks for a cached file is served it |
| CacheProtocol.FollowerServed | gateway/singleflight.go:67-117 | a follower of a leader that succeeds is served what the leader fetched |
| CacheProtocol.FailedPut | gateway/cache.go:190-247 | a copy that fails, has another size, cannot be flushed, has another hash or cannot be renamed publishes nothing and fails the request and its followers |
| CacheProtocol.PublishesWhole | gateway/cache.go:190-247 | in every run what is renamed into place has the size asked for and the hash of its name |
| CacheProtocol.CoalescerNeeded | gateway/cache.go:177-270 | a run with two Puts of one hash in which a reader is handed content with another hash |
| Reconciler.HandlerRace | cas/crates/openweights-cas-storage/src/reconciler.rs:397-512 | a row that a handler pins after it was selected keeps its id, gains at most one attempt, and stays pinned unless it was selected as uploading or on its last attempt with a failure |
| Reconciler.RaceExact | cas/crates/openweights-cas-storage/src/reconciler.rs:151-189 | for any events of a sweep: a row that a handler pins ends pinned if and only if no visit orphans it after the last pin |
| Reconciler.RaceRuns | cas/crates/openweights-cas-storage/src/reconciler.rs:151-189 | the same at the end of any run of sweeps with handler pins anywhere |
| Reconciler.PinnedThroughRaces | cas/crates/openweights-cas-storage/src/reconciler.rs:191-234 | a row that is pinned when a sweep begins stays pinned through every run with handler pins |
| Reconciler.PinnedThenOrphaned | cas/crates/openweights-cas-storage/src/reconciler.rs:486-498 | a run in which a row is pinned and then orphaned |
| Reconciler.FetchStuck | cas/crates/openweights-cas-storage/src/reconciler.rs:191-234 | the query: at most a batch of the eligible rows, oldest attempt first, ties in any order |
| Reconciler.SelectedExact | cas/crates/openweights-cas-storage/src/reconciler.rs:191-234 | visits only rows on their way, tried fewer than five times and not within 300 seconds; twenty of them, or all |
| Reconciler.Sweeper.SetPinned | cas/crates/openweights-cas-storage/src/reconciler.rs:367-395 | pins one row, keeping an id that was set before |
| Reconciler.Sweeper.Orphan | cas/crates/openweights-cas-storage/src/reconciler.rs:486-512 | orphans one row and counts it |
| Reconciler.Sweeper.BumpAttempt | cas/crates/openweights-cas-storage/src/reconciler.rs:397-484 | transient failures change only the time, permanent ones count, the fifth orphans |
| Reconciler.Sweeper.ReconcileRow | cas/crates/openweights-cas-storage/src/reconciler.rs:236-363 | the verdict on a row and its effect on table and counter, as `Reconciler.SweepOutcome` spells it out |
| Reconciler.Sweeper.Sweep | cas/crates/openweights-cas-storage/src/reconciler.rs:151-189 | exactly the selected rows are visited, in order, and the counter grows by the rows orphaned |
| Reconciler.Sweeper.Pass | cas/crates/openweights-cas-storage/src/reconciler.rs:161-183 | one half of a sweep: select, then visit; table and counter are those of the run so far |
| Reconciler.ReconcileOnce | cas/crates/openweights-cas-storage/src/reconciler.rs:151-189 | xorbs first; shards are selected when they are done; both tables, counters and clocks; a pass counts as a sweep exactly when it handled a row |
| Reconciler.RunReconciler | cas/crates/openweights-cas-storage/src/reconciler.rs:127-149 | after any number of passes the orphan metrics equal the rows orphaned since the start |
| Reconciler.MovesBehind | cas/crates/openweights-cas-storage/src/reconciler.rs:365-512 | every attempt moves its row behind every row that was waiting, or out of the queue |
| Reconciler.PassedOver | cas/crates/openweights-cas-storage/src/reconciler.rs:191-234 | a sweep that passes over a row takes a full batch from ahead of it for good |
| Reconciler.BoundedWaiting | cas/crates/openweights-cas-storage/src/reconciler.rs:191-234 | an eligible row with k rows ahead is attempted within k/20 + 1 sweeps, however ties are ordered |
| Reconciler.PinnedWithin | cas/crates/openweights-cas-storage/src/reconciler.rs:151-395 | a pinning row with k rows ahead whose calls succeed is pinned within k/20 + 1 sweeps, attempts and id unchanged |
| Reconciler.VisitRow | cas/crates/openweights-cas-storage/src/reconciler.rs:236-363 | what one visit may change, by verdict |
| Reconciler.SweepOutcome | cas/crates/openweights-cas-storage/src/reconciler.rs:236-512 | what a sweep makes of a visited row, case by case: pinned if and only if it was pinning, there was something to call Sia with, and the call succeeded, with its old id or else Sia's and its attempts unchanged; spared, counted or orphaned otherwise |
| Reconciler.RunInvariant | cas/crates/openweights-cas-storage/src/reconciler.rs:151-512 | over every run pinned and orphaned are final, pinned rows have an id, ids never change, pinning rows keep fewer than five attempts |
| Reconciler.AttemptsCountFailures | cas/crates/openweights-cas-storage/src/reconciler.rs:397-484 | the attempts of a row are exactly its permanent failures |
| Reconciler.OrphanCounter | cas/crates/openweights-cas-storage/src/reconciler.rs:486-512 | in one sweep the counter grows by exactly the rows orphaned |
| Reconciler.RunOrphanCounter | cas/crates/openweights-cas-storage/src/reconciler.rs:486-512 | over every run the counter equals the rows orphaned |
| Reconciler.WorkBound | cas/crates/openweights-cas-storage/src/reconciler.rs:397-484 | without transient failures the attempts left in the table bound the attempts of every run |
| Coalesce.SortByStart | cas/crates/openweights-cas-core/src/coalesce.rs:56-56 | a permutation sorted by start |
| Coalesce.MergedPieces | cas/crates/openweights-cas-core/src/coalesce.rs:57-69 | merging sorted spans gives sorted pieces, apart from each other, with the same bytes |
| Coalesce.Merge | cas/crates/openweights-cas-core/src/coalesce.rs:57-69 | the loop computes the merged spans |
| Coalesce.PiecesNormal | cas/crates/openweights-cas-core/src/coalesce.rs:57-69 | the pieces are a normal form if and only if every empty span touches one with bytes |
| Coalesce.NormalUnique | cas/crates/openweights-cas-core/src/coalesce.rs:53-86 | a normal form is determined by its bytes |
| Coalesce.FewestSpans | cas/crates/openweights-cas-core/src/coalesce.rs:53-86 | no cover of the same bytes has fewer spans |
| Coalesce.InclusiveExact | cas/crates/openweights-cas-core/src/coalesce.rs:73-84 | the conversion to inclusive ends keeps the bytes if and only if no piece is empty |
| Coalesce.CoalesceSpans | cas/crates/openweights-cas-core/src/coalesce.rs:53-86 | the ranges are the connected pieces of the spans, and the normal form of their bytes if and only if every empty span touches one with bytes |
| Coalesce.StrayRange | cas/crates/openweights-cas-core/src/coalesce.rs:57-84 | exactly the empty spans that nothing touches come out as an inverted range or, at offset 0, as a range over all 64-bit offsets |
| Coalesce.PiecesUnique | cas/crates/openweights-cas-core/src/coalesce.rs:57-69 | the connected pieces are determined by the spans, empty ones or not |
| Coalesce.OrderIndependent | cas/crates/openweights-cas-core/src/coalesce.rs:53-86 | neither input order nor tie order changes the result, for all lists |
| Coalesce.CoalesceGroups | cas/crates/openweights-cas-core/src/coalesce.rs:53-90 | every group is coalesced |
| Coalesce.CoalesceTermsByXorb | cas/crates/openweights-cas-core/src/coalesce.rs:33-90 | exactly the xorbs of the terms; a byte is in the ranges of a xorb if and only if it is in one of its terms, and the ranges are a normal form, if and only if every term without bytes meets one with bytes |
| Coalesce.GroupCount | cas/crates/openweights-cas-core/src/coalesce.rs:33-50 | the group of a xorb has each span as often as there are terms of the xorb with that span |
| Coalesce.GroupCovers | cas/crates/openweights-cas-core/src/coalesce.rs:33-50 | the bytes of the group of a xorb are exactly those of its terms |
| Text.PrintParse | gateway/signed_url.go:248-273 | both languages read back every printed number below 2^64 and refuse larger ones |
| Text.ParsersAgree | cas/crates/openweights-cas-core/src/signed_url.rs:446-464 | the number parsers differ on plus signs only |
| Text.SplitJoin | cas/crates/openweights-cas-core/src/signed_url.rs:245-250 | splitting recovers joined parts |
| GrantCodec.ParseRangeSegmentsGo | gateway/signed_url.go:248-273 | the loop accepts exactly the fields whose parts all parse, with their segments in order |
| GrantCodec.ParseRangeSegmentsRust | cas/crates/openweights-cas-core/src/signed_url.rs:446-464 | the same for the Rust rules |
| GrantCodec.SegmentRoundTrip | cas/crates/openweights-cas-core/src/signed_url.rs:245-250 | both languages read back a printed segment if it is in order and fits 64 bits, and refuse it otherwise |
| GrantCodec.CodecRoundTrip | cas/crates/openweights-cas-core/src/signed_url.rs:245-250 | both languages read back every minted list of valid segments, and refuse every other |
| GrantCodec.GoIsRustWithoutPlus | gateway/signed_url.go:248-273 | the Go parser accepts exactly what the Rust parser accepts without a plus sign, with the same segments |
| GrantCodec.PlusOnlyInRust | cas/crates/openweights-cas-core/src/signed_url.rs:446-464 | a field that only the Rust parser accepts |
| SignedUrl.CanonicalInjective | cas/crates/openweights-cas-core/src/signed_url.rs:158-167 | the canonical string determines hash, expiry, range field and key id |
| SignedUrl.AcceptedClean | cas/crates/openweights-cas-core/src/signed_url.rs:446-464 | an accepted range field contains no line feed |
| SignedUrl.HashOkGo | gateway/signed_url.go:139-148 | accepts exactly 64 lowercase hex digits |
| SignedUrl.VerifyRust | cas/crates/openweights-cas-core/src/signed_url.rs:274-363 | the slot-filling loop decides by the last value of each field, in the source's order of checks |
| SignedUrl.VerifyGo | gateway/signed_url.go:139-224 | decides by the first value of each field, in the source's order of checks |
| SignedUrl.OneSegment | cas/crates/openweights-cas-core/src/signed_url.rs:189-267 | one segment gives the same URL from both minting functions |
| SignedUrl.MintVerifies | cas/crates/openweights-cas-core/src/signed_url.rs:189-363 | a URL minted at `now` is accepted by both sides with its payload at every time before `now + ttl` if its key is current or previous, and refused as expired from then on; where the sum leaves 64 bits, the same with 2^64 - 1 |
| SignedUrl.MintVector | conformance/fixtures/signed_url_vectors.json:47-66 | the signed message and the query of the repository's multi-range vector |
| SignedUrl.MintRefused | cas/crates/openweights-cas-core/src/signed_url.rs:225-267 | a URL minted for a list with an inverted or too large segment is refused as malformed by both sides |
| SignedUrl.AcceptedMeans | gateway/signed_url.go:139-224 | an accepted URL is unexpired, names its path's hash, has a grant that parses, and carries the signature of exactly its canonical string |
| SignedUrl.GoOutcome | gateway/signed_url.go:139-224 | every outcome: malformed exactly when the fields state nothing or the signature of an unexpired URL does not decode, expired from the stated expiry on, accepted exactly when signed under a key held, badly signed otherwise |
| SignedUrl.SameMessageSamePayload | gateway/signed_url.go:122-126 | equal signed messages mean equal hash, expiry, grant and key id, across both languages |
| SignedUrl.GoIsRust | gateway/signed_url.go:139-224 | if the first and last value of every field read are the same, both sides accept the same URLs with the same result, except for plus signs and empty fields |
| SignedUrl.RepeatedFieldsDiffer | cas/crates/openweights-cas-core/src/signed_url.rs:290-363 | a minted URL with another range field in front is accepted with its own grant in Rust and refused as badly signed in Go |
| KeyRotation.StepKeeps | cas/crates/openweights-cas-core/src/signed_url.rs:320-363 | every clock step, mint and spaced rotation keeps live URLs on the two keys |
| KeyRotation.EveryLiveUrlVerifies | gateway/signed_url.go:187-223 | in every run with rotations a lifetime apart, every URL minted so far is accepted by both sides with its payload until its minting time plus the lifetime, and refused as expired from then on |
| KeyRotation.HastyRotationOrphans | cas/crates/openweights-cas-core/src/signed_url.rs:335-363 | two rotations within one lifetime orphan a live URL |
| KeyRotation.LiveExactlyWithKey | gateway/signed_url.go:187-223 | in every run, however rotations are spaced, a live URL is accepted by both sides if and only if its key is current or previous, for MACs that tell the keys apart |
| GrantCheck.AllRangesWithinAny | gateway/ranges.go:266-280 | true exactly when every range lies within one grant |
| GrantCheck.AcceptedIsContained | gateway/ranges.go:266-280 | whatever the grants, an accepted range has only granted bytes |
| GrantCheck.ContainedIsAccepted | gateway/ranges.go:266-280 | against coalesced grants, a range of granted bytes is accepted |
| GrantCheck.UncoalescedGrantsRefuse | gateway/ranges.go:266-280 | against adjacent grants that were not coalesced it may be refused |
| GrantCheck.CheckExact | gateway/ranges.go:266-280 | for any ordered grants, acceptance is containment for all ranges if and only if every connected piece of the granted bytes lies within one grant |
| GrantCheck.GrantCheckExact | gateway/ranges.go:266-280 | against the coalesced ranges of terms, accepted exactly when every byte belongs to a term |
| GrantCheck.OwnRangeAdmitted | gateway/handlers.go:177-194 | the range of each term is admitted |
| GrantCheck.EffectiveRanges | gateway/handlers.go:177-194 | the grant step of the handler: what is refused, what is served without a header, and only granted bytes |
| Ranges.ResolveExact | gateway/ranges.go:148-203 | a spec is served exactly when it is well formed and asks for some byte and for none outside the object, and then with exactly its bytes |
| Ranges.SpecExact | gateway/ranges.go:132-204 | a trimmed piece is read as a spec exactly when it is that spec written around a dash |
| Ranges.PieceExact | gateway/ranges.go:132-204 | a piece resolves to the spec it says, blanks aside, and is a bad range if it says none |
| Ranges.ParsePiece | gateway/ranges.go:132-204 | the switch over the three forms |
| Ranges.ParseRange | gateway/ranges.go:118-212 | one range of the object for every piece in order, or the first error |
| Ranges.HeaderRoundTrip | gateway/ranges.go:118-212 | every list of specs, written with any blanks, is parsed to what it means |
| Ranges.HeaderExact | gateway/ranges.go:118-212 | a header is served if and only if it is `bytes=` and pieces that each say a spec that is served, and each range is that of its piece |
| Multipart.CountExact | gateway/ranges.go:370-393 | the precomputed length is never too short and is exact if and only if every range ends within the source |
| Multipart.WriteMultipartRanges | gateway/ranges.go:354-439 | writes the framed body with a Content-Length that is right if and only if the ranges are in the object |
| Multipart.PartWriter.CreatePart | gateway/ranges.go:410-420 | a line break before every delimiter but the first, then the part's header |
| Multipart.PartWriter.Close | gateway/ranges.go:431-438 | the closing delimiter |
| Multipart.WriteSingleRange | gateway/ranges.go:235-245 | headers and octets of the range, with a Content-Length that is right if and only if it ends within the object |
| Multipart.ContentRangeRoundTrip | gateway/ranges.go:411-416 | a Content-Range value reads back as its range and total |
| Multipart.MultipartRoundTrip | gateway/ranges.go:354-439 | a reader that takes the boundary from the Content-Type and goes by the Content-Range lengths recovers the ranges and exactly the object's octets, whatever they are |
| Multipart.ServeBody | gateway/handlers.go:233-277 | status, body, bytes served and length for no range, one, or several |
| Handler.ServeXorb | gateway/handlers.go:120-277 | status, headers and body of every outcome in the order of the checks; 200 and 206 only for a URL that is genuine now and a xorb that exists |
| Handler.DecideExact | gateway/handlers.go:120-194 | 400 for a URL that states nothing, 403 from its expiry on, 400 for a signature that does not decode, 403 for one under no key held, 404 without a xorb, in this order; otherwise the grant decides: 416, 400, 403 or the ranges |
| Handler.ServedIsGenuine | gateway/handlers.go:120-194 | octets leave the gateway only for a genuine URL, and every refusal is 400, 403, 404 or 416 |
| Handler.AnswerRanges | gateway/handlers.go:160-277 | from the Range header on: the refusals in order with their headers, or headers and body of the answer |
| Handler.AcceptedSegments | gateway/signed_url.go:139-224 | the segments of an accepted URL are ordered |
| Handler.GrantEndToEnd | gateway/handlers.go:120-194 | coalesced, minted and presented in time, a request is served exactly when every octet belongs to a term, and only within the xorb |
| Handler.EndToEndExact | gateway/handlers.go:120-194 | for the coalesced ranges of any spans, the handler decides every request by the octets of the terms if and only if every empty span touches one with bytes |
| Handler.TermsEndToEnd | gateway/handlers.go:120-194 | the same from the terms of a xorb on: every request is decided by the octets of its terms if and only if every term without octets meets one with octets |
| Handler.StrayDecision | gateway/handlers.go:120-194 | if not, an untouched empty span beyond offset 0 has every request refused; one at offset 0 alone has every range of the xorb granted |
| Handler.ClientReads | gateway/handlers.go:248-277 | what a client reads out of a served body by its headers: each range with exactly its octets |
| ShardTerms.FirstEntryWins | cas/crates/openweights-cas-core/src/shard_parse.rs:113-125 | the index has exactly the listed xorbs, each with the chunks of its first entry |
| ShardTerms.BuildIndex | cas/crates/openweights-cas-core/src/shard_parse.rs:113-125 | the loop builds that index |
| ShardTerms.ByteRangeOf | cas/crates/openweights-cas-core/src/shard_parse.rs:156-197 | the checks on a segment in order, and its octets |
| ShardTerms.ParseSegments | cas/crates/openweights-cas-core/src/shard_parse.rs:150-216 | the terms of a file or its first error, and exactly the xorbs referenced |
| ShardTerms.ParseShard | cas/crates/openweights-cas-core/src/shard_parse.rs:113-227 | the rows, terms and sorted hashes of all files, or the error of the first file that has one |
| ShardTerms.RefusedExact | cas/crates/openweights-cas-core/src/shard_parse.rs:127-217 | some file is refused if and only if some segment has a flaw |
| ShardTerms.FlawExact | cas/crates/openweights-cas-core/src/shard_parse.rs:156-197 | a segment is accepted if and only if it has chunks and, for a listed xorb, they exist and have octets |
| ShardTerms.RowExact | cas/crates/openweights-cas-core/src/shard_parse.rs:127-148 | the row of a file has its hash, and its SHA-256 with every group reversed |
| ShardTerms.ReferencedExact | cas/crates/openweights-cas-core/src/shard_parse.rs:150-155 | a hash is referenced if and only if some segment names it |
| ShardTerms.TermsPartition | cas/crates/openweights-cas-core/src/shard_parse.rs:150-216 | every byte of a file is in exactly one term and no term goes beyond the file |
| ShardTerms.TermsMeet | cas/crates/openweights-cas-core/src/shard_parse.rs:150-216 | every term is that of its segment; consecutive terms meet, each as long as its segment says, from zero to the size of the file |
| ShardTerms.TermBytes | cas/crates/openweights-cas-core/src/shard_parse.rs:168-197 | a term of a listed xorb has a non-empty range from its first chunk to the end of its last; any other has none |
| ShardTerms.TermsInOrder | cas/crates/openweights-cas-core/src/shard_parse.rs:127-217 | terms come file by file in segment order |
| ShardTerms.SortKeys | cas/crates/openweights-cas-core/src/shard_parse.rs:217-218 | the referenced hashes increasing, exactly those of the set |
| ShardTerms.IncreasingUnique | cas/crates/openweights-cas-core/src/shard_parse.rs:217-218 | the order in which the map gives up its keys does not matter |
| MerkleHex.DigestToHex | gateway/merklehash.go:66-73 | four little-endian words give the hex of the digest with every group reversed |
| MerkleHex.ParseMerkleHashHex | gateway/merklehash.go:90-106 | accepts exactly 64 hex digits and stores every group reversed |
| MerkleHex.PrintThenParse | gateway/merklehash.go:66-106 | parsing the printed form gives the digest back, and the URL verifiers accept it |
| MerkleHex.PrintedAt | gateway/merklehash.go:66-73 | where each octet of a digest is printed, digit by digit |
| MerkleHex.ParseThenPrint | gateway/merklehash.go:66-106 | printing what was parsed gives the lowercase input |
| MerkleHex.LittleToBig | gateway/merklehash.go:69-81 | reading octets little-endian and writing them big-endian reverses them |
| MerkleHex.DecodeHex32 | cas/crates/openweights-cas-core/src/shard_parse.rs:229-240 | accepts exactly 64 hex digits, in plain order |
| MerkleHex.PlainOrder | cas/crates/openweights-cas-core/src/shard_parse.rs:139-142 | the stored SHA-256 is the digest with every group reversed |

## Left out

- Network and SDK calls, HTTP servers, the indexer, Tokio, goroutines and SQL: a sector read succeeds or fails, a task
  finishes when it likes, a table is a map of rows.
- Cryptography: nothing is claimed about collisions or forgery; constant-time comparison is equality.
- RangeRead.ReadRange: objects larger than one nonce span; beyond it the cut into chunks may end on a boundary, which
  `Encryption.ChunkingIndependence` describes. Whether a poll finds its task ready is open, so polls need not progress.
- Download.Download.ReadChunk: a caller that drops `read_chunk` while it waits; the source has taken the task off the
  queue by then (download.rs:480-483), so the chunk is lost and the next one is decrypted at its place.
- SlabRecovery.RecoverShards: shard buffers are values; a panicking task and progress callbacks are not modelled.
- Upload.UploadSlabs: hosts, timeouts and racing writes; storing a slab's shards succeeds or fails as a whole, and slabs
  are stored one after the other. `Upload.EncryptedRead` stands in for passing one reader as the other.
- Encryption.Chacha20Cipher.ApplyKeystream: the panic of the inner cipher past its keystream; bytes there are arbitrary.
- CacheProtocol.ContentSafety: content safety only; under disk errors `Put` can return without draining its pipe, so no
  liveness is claimed for `FetchAndCache`.
- CacheProtocol.ServedStable: files changed by anything but the gateway after boot.
- Reconciler.RunInvariant: no handler write falls inside a sweep; handler pins inside sweeps are the subject of
  `Reconciler.RaceRuns`, other handler writes are not modelled.
- Reconciler.BoundedWaiting: no rows are inserted and the database does not fail.
- Coalesce.CoalesceSpans: the debug-only assertions of coalesce.rs:41-80; the subtraction wraps, as in a release build.
- Coalesce.SortByStart: the library sort is an insertion sort here.
- KeyRotation.EveryLiveUrlVerifies: a rotation that reaches signer and gateway at different times.
- SignedUrl.VerifyRust: URL parsing and percent-decoding; the path's hash and the decoded query pairs are inputs.
- Ranges.ParseRange: a header that is not valid UTF-8; blanks are Unicode spaces.
- Multipart.CountExact: 64-bit wrap-around of lengths, which ranges within an object cannot reach.
- Multipart.WriteSingleRange: write errors towards the client.
- Handler.ServeXorb: failures of the database or of Sia, cache headers, metering and logging.
- ShardTerms.ParseShard: deserialization of the shard; sums of unpacked bytes beyond 64 bits and more than 2^31 segments.
- ShardTerms.SortKeys: the order of the keys is that of the numbers the hashes spell.
- The upload scheduler, reconstruction handlers, rate limits, host metrics, sessions, configuration, console and tools:
  I/O, or properties that would be easy.
