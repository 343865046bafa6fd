/**
 * Whole reads of a range of an object (sia_storage, download.rs): what any sequence of `poll_read` and
 * `read_chunk` calls comes to, given which sectors the hosts can be read for.
 */
module RangeRead {
  import opened Prelude
  import opened Encryption
  import opened SlabRecovery
  import opened D = Download

  // ----- when the end is reported early

  /** Some chunk has no bytes, and it and all before it can be recovered. */
  predicate EndsEarly(w: World, chunks: seq<ChunkSlab>)
    requires w.seg > 0
  {
    chunks != [] && CanYield(w, chunks[0].slab) && (chunks[0].slab.length == 0 || EndsEarly(w, chunks[1..]))
  }

  /** The same of the slabs of a range, from `off` bytes into slab `idx` on. */
  predicate EndsEarlyFrom(w: World, slabs: seq<Slab>, idx: nat, off: nat, rem: nat)
    requires w.seg > 0 && (idx < |slabs| ==> off <= slabs[idx].length)
    decreases |slabs| - idx
  {
    && rem > 0 && idx < |slabs| && CanYield(w, slabs[idx])
    && (slabs[idx].length == 0
        || (off + rem > slabs[idx].length && EndsEarlyFrom(w, slabs, idx + 1, 0, rem - (slabs[idx].length - off))))
  }

  lemma EndsEarlyCons(w: World, c: ChunkSlab, rest: seq<ChunkSlab>)
    requires w.seg > 0
    ensures EndsEarly(w, [c] + rest) <==> CanYield(w, c.slab) && (c.slab.length == 0 || EndsEarly(w, rest))
  {
    assert ([c] + rest)[1..] == rest;
  }

  /** One chunk on in the range. */
  lemma EarlyFromStep(w: World, slabs: seq<Slab>, n: nat, idx: nat, off: nat, rem: nat)
    requires w.seg > 0 && n > 0 && rem > 0 && idx < |slabs| && (off == 0 || off < slabs[idx].length)
    ensures var (next, off') := Next(slabs, n, idx, off, rem);
      && (next < |slabs| ==> off' <= slabs[next].length)
      && (EndsEarlyFrom(w, slabs, idx, off, rem)
          <==> CanYield(w, slabs[idx])
               && (slabs[idx].length == 0
                   || EndsEarlyFrom(w, slabs, next, off', rem - ChunkLength(slabs[idx], n, off, rem))))
  {
  }

  lemma ChunksEarlyStep(w: World, slabs: seq<Slab>, n: nat, idx: nat, off: nat, rem: nat, next: nat, off': nat,
                        chunks: seq<ChunkSlab>, rest: seq<ChunkSlab>)
    requires w.seg > 0 && 0 < n < U32 && rem > 0 && idx < |slabs| && (off == 0 || off < slabs[idx].length)
    requires slabs[idx].offset + slabs[idx].length < U32
    requires Next(slabs, n, idx, off, rem) == (next, off') && chunks == [NextChunk(slabs, n, idx, off, rem)] + rest
    requires next < |slabs| ==> off' <= slabs[next].length
    requires EndsEarly(w, rest) <==> EndsEarlyFrom(w, slabs, next, off', rem - ChunkLength(slabs[idx], n, off, rem))
    ensures EndsEarly(w, chunks) <==> EndsEarlyFrom(w, slabs, idx, off, rem)
  {
    EndsEarlyCons(w, NextChunk(slabs, n, idx, off, rem), rest);
    EarlyFromStep(w, slabs, n, idx, off, rem);
    HeadCanYield(w, slabs, n, idx, off, rem);
  }

  lemma {:induction false} ChunksEndEarly(w: World, slabs: seq<Slab>, n: nat, idx: nat, off: nat, rem: nat)
    requires w.seg > 0 && 0 < n < U32 && InRange(slabs, idx, off, rem)
    requires idx < |slabs| ==> off == 0 || off < slabs[idx].length
    requires forall i :: 0 <= i < |slabs| ==> slabs[i].offset + slabs[i].length < U32
    ensures EndsEarly(w, Chunks(slabs, n, idx, off, rem)) <==> EndsEarlyFrom(w, slabs, idx, off, rem)
    decreases |slabs| - idx, rem
  {
    if rem > 0 {
      ChunksStep(slabs, n, idx, off, rem);
      var (next, off') := Next(slabs, n, idx, off, rem);
      var rem' := rem - ChunkLength(slabs[idx], n, off, rem);
      ChunksEndEarly(w, slabs, n, next, off', rem');
      ChunksEarlyStep(w, slabs, n, idx, off, rem, next, off',
                      Chunks(slabs, n, idx, off, rem), Chunks(slabs, n, next, off', rem'));
    }
  }

  /** A chunk can be recovered exactly when its slab can. */
  lemma HeadCanYield(w: World, slabs: seq<Slab>, n: nat, idx: nat, off: nat, rem: nat)
    requires w.seg > 0 && 0 < n < U32 && rem > 0 && idx < |slabs| && off <= slabs[idx].length
    requires (off == 0 || off < slabs[idx].length) && slabs[idx].offset + slabs[idx].length < U32
    ensures var c := NextChunk(slabs, n, idx, off, rem).slab;
            (c.length == 0 <==> slabs[idx].length == 0) && (CanYield(w, c) <==> CanYield(w, slabs[idx]))
  {
  }

  /** Slab `j` has no bytes, lies before the end of the range, and it and all slabs of the range before it can be
      recovered. */
  predicate EarlyAt(w: World, slabs: seq<Slab>, idx: nat, off: nat, rem: nat, j: nat)
    requires w.seg > 0
  {
    && idx <= j < |slabs| && slabs[j].length == 0 && Size(slabs[idx..j]) < off + rem
    && forall i :: idx <= i <= j ==> CanYield(w, slabs[i])
  }

  lemma SizeFront(slabs: seq<Slab>, idx: nat, j: nat)
    requires idx < j <= |slabs|
    ensures Size(slabs[idx..j]) == slabs[idx].length + Size(slabs[idx + 1..j])
  {
    assert slabs[idx..j][1..] == slabs[idx + 1..j];
  }

  lemma {:induction false} EarlyFromWitness(w: World, slabs: seq<Slab>, idx: nat, off: nat, rem: nat, j: nat)
    requires w.seg > 0 && rem > 0 && EarlyAt(w, slabs, idx, off, rem, j) && off <= slabs[idx].length
    ensures EndsEarlyFrom(w, slabs, idx, off, rem)
    decreases j - idx
  {
    if idx < j && slabs[idx].length > 0 {
      SizeFront(slabs, idx, j);
      EarlyFromWitness(w, slabs, idx + 1, 0, rem - (slabs[idx].length - off), j);
    }
  }

  lemma {:induction false} EarlyWitness(w: World, slabs: seq<Slab>, idx: nat, off: nat, rem: nat) returns (j: nat)
    requires w.seg > 0 && (idx < |slabs| ==> off <= slabs[idx].length) && EndsEarlyFrom(w, slabs, idx, off, rem)
    ensures EarlyAt(w, slabs, idx, off, rem, j)
    decreases |slabs| - idx
  {
    if slabs[idx].length == 0 {
      j := idx;
      assert slabs[idx..j] == [];
    } else {
      j := EarlyWitness(w, slabs, idx + 1, 0, rem - (slabs[idx].length - off));
      SizeFront(slabs, idx, j);
    }
  }

  /** The guard that a caller can check: inside the range there is a slab without bytes that begins within a row
      of segments, and every slab of the range up to it can be recovered. */
  ghost predicate EarlyEndInRange(w: World, slabs: seq<Slab>, offset: nat, length: nat)
    requires w.seg > 0
  {
    var (idx, off) := Start(slabs, 0, offset);
    length > 0 && exists j: nat :: EarlyAt(w, slabs, idx, off, length, j)
  }

  /** The guard is exact for the chunks of the range. */
  lemma EarlyEndExact(w: World, slabs: seq<Slab>, offset: nat, length: nat)
    requires w.seg > 0 && (length > 0 ==> offset + length <= Size(slabs)) && Narrow(slabs)
    ensures EndsEarly(w, RangeChunks(slabs, offset, length)) <==> EarlyEndInRange(w, slabs, offset, length)
  {
    var (idx, off) := Start(slabs, 0, offset);
    StartInRange(slabs, offset, length);
    ChunksEndEarly(w, slabs, CHUNK_SIZE, idx, off, length);
    if EndsEarlyFrom(w, slabs, idx, off, length) {
      var j := EarlyWitness(w, slabs, idx, off, length);
    }
    if length > 0 {
      if j: nat :| EarlyAt(w, slabs, idx, off, length, j) {
        EarlyFromWitness(w, slabs, idx, off, length, j);
      }
    }
  }

  lemma {:induction false} EndsEarlyAt(w: World, chunks: seq<ChunkSlab>, k: nat)
    requires w.seg > 0 && k < |chunks| && chunks[k].slab.length == 0
    requires forall i :: 0 <= i <= k ==> CanYield(w, chunks[i].slab)
    ensures EndsEarly(w, chunks)
  {
    if k > 0 {
      EndsEarlyAt(w, chunks[1..], k - 1);
    }
  }

  lemma {:induction false} EarlyChunk(w: World, chunks: seq<ChunkSlab>) returns (k: nat)
    requires w.seg > 0 && EndsEarly(w, chunks)
    ensures k < |chunks| && chunks[k].slab.length == 0 && forall i :: 0 <= i <= k ==> CanYield(w, chunks[i].slab)
  {
    if chunks[0].slab.length == 0 {
      k := 0;
    } else {
      var m := EarlyChunk(w, chunks[1..]);
      k := m + 1;
      assert forall i :: 1 <= i <= k ==> chunks[i] == chunks[1..][i - 1];
    }
  }

  // ----- one call

  datatype ReadOp = PollUpTo(max: nat) | WholeChunk

  /** What a reader gets out of one call: bytes, the end, nothing yet, or an error. */
  datatype Got = Got(bytes: seq<Byte>, end: bool, pending: bool, error: Option<DownloadError>)

  /** What a call can come to: one of the four, and bytes unless it says otherwise. */
  predicate WellShaped(op: ReadOp, g: Got) {
    && (g.error.Some? ==> g == Got([], false, false, g.error))
    && (g.pending ==> op.PollUpTo? && g == Got([], false, true, None))
    && (g.end ==> g == Got([], true, false, None))
    && (g.bytes == [] && g.error == None && !g.pending && !(op.PollUpTo? && op.max == 0) ==> g.end)
    && (op.PollUpTo? ==> |g.bytes| <= op.max)
  }

  function GotPolled(max: nat, p: Poll): (g: Got)
    requires p.Ready? ==> |p.bytes| <= max
    ensures WellShaped(PollUpTo(max), g)
  {
    match p
    case Pending => Got([], false, true, None)
    case Ready(data) => Got(data, max > 0 && data == [], false, None)
    case Failed(e) => Got([], false, false, Some(e))
  }

  function GotChunk(r: Result<seq<Byte>, DownloadError>): (g: Got)
    ensures WellShaped(WholeChunk, g)
  {
    match r
    case Ok(data) => Got(data, data == [], false, None)
    case Err(e) => Got([], false, false, Some(e))
  }

  /** One call of the reader. */
  method Read(d: Download, op: ReadOp) returns (g: Got)
    requires d.Valid()
    modifies d, d.iter, d.cipher
    ensures d.Valid() && d.delivered == old(d.delivered) + g.bytes && (g.error.Some? <==> d.errored)
    ensures WellShaped(op, g) && old(d.served) <= d.served
    ensures g.end ==> d.delivered == d.expected || d.SilentBefore()
    ensures old(d.errored) ==> g.error == Some(Errored)
    ensures !old(d.errored) && old(d.delivered) == d.expected ==> g.error == None
    ensures op.WholeChunk? && !old(d.errored) && old(d.buf) == [] ==>
      d.buf == [] && (g.error == None <==> old(d.served) == |d.all| || d.succeeds(d.all[old(d.served)]))
      && d.served == if g.error == None && old(d.served) < |d.all| then old(d.served) + 1 else old(d.served)
  {
    match op {
      case PollUpTo(max) =>
        var p := d.PollRead(max);
        g := GotPolled(max, p);
      case WholeChunk =>
        var r := d.ReadChunk();
        g := GotChunk(r);
    }
  }

  /** Everything that was handed out. */
  function Delivered(results: seq<Got>): seq<Byte> {
    if results == [] then [] else Delivered(results[..|results| - 1]) + results[|results| - 1].bytes
  }

  /** Where chunk `k` ends among the wanted bytes. */
  function Upto(chunks: seq<ChunkSlab>, k: nat): nat {
    TotalLength(chunks[..Min(k, |chunks|)])
  }

  // ----- whole-chunk reads

  /** What the `k`-th of a row of whole-chunk reads comes to: the bytes of the `k`-th chunk, if its task and all
      before it succeed. */
  ghost predicate WholeRead(succeeds: Outcome, chunks: seq<ChunkSlab>, wanted: seq<Byte>, k: nat, g: Got) {
    if !AllYield(succeeds, chunks, Min(k, |chunks|)) then g == Got([], false, false, Some(Errored))
    else if k < |chunks| && !succeeds(chunks[k]) then g == Got([], false, false, g.error) && g.error.Some?
    else
      && Upto(chunks, k) <= Upto(chunks, k + 1) <= |wanted|
      && g == Got(wanted[Upto(chunks, k)..Upto(chunks, k + 1)], Upto(chunks, k) == Upto(chunks, k + 1), false, None)
  }

  // ----- whole reads

  predicate AllWhole(ops: seq<ReadOp>) {
    forall i :: 0 <= i < |ops| ==> ops[i].WholeChunk?
  }

  /** Nothing follows an error but the error. */
  predicate Sticky(results: seq<Got>) {
    forall i, j :: 0 <= i < j < |results| && results[i].error.Some? ==>
      results[j] == Got([], false, false, Some(Errored))
  }

  /** The end is reported only when everything wanted has been handed out. */
  predicate EndsComplete(results: seq<Got>, wanted: seq<Byte>) {
    forall i :: 0 <= i < |results| && results[i].end ==> Delivered(results[..i + 1]) == wanted
  }

  ghost predicate WholeReads(succeeds: Outcome, chunks: seq<ChunkSlab>, wanted: seq<Byte>, results: seq<Got>) {
    forall k :: 0 <= k < |results| ==> WholeRead(succeeds, chunks, wanted, k, results[k])
  }

  lemma DeliveredOne(results: seq<Got>, g: Got)
    ensures Delivered(results + [g]) == Delivered(results) + g.bytes
  {
    assert (results + [g])[..|results|] == results;
  }

  /** The state of a download that matters for what its readers get, see `Download.Valid`. */
  datatype View = View(all: seq<ChunkSlab>, expected: seq<Byte>, served: nat, delivered: seq<Byte>, buf: seq<Byte>,
                       errored: bool)
  {
    ghost predicate Ok(succeeds: Outcome) {
      && served <= |all| && AllYield(succeeds, all, served) && TotalLength(all) == |expected|
      && delivered <= expected
      && (if errored then served < |all| && !succeeds(all[served])
          else TotalLength(all[..served]) <= |expected| && delivered + buf == expected[..TotalLength(all[..served])])
    }
  }

  ghost function ViewOf(d: Download): View
    reads d
  {
    View(d.all, d.expected, d.served, d.delivered, d.buf, d.errored)
  }

  lemma ViewOk(d: Download)
    requires d.Valid()
    ensures ViewOf(d).Ok(d.succeeds)
  {
    ExpectedLength(d.w, d.cipher.key, d.contents, d.all, d.from, d.expected);
  }

  /** What one call does to the view. */
  ghost predicate Reads(succeeds: Outcome, v: View, op: ReadOp, g: Got, v': View, early: bool) {
    && v.Ok(succeeds) && v'.Ok(succeeds) && v'.all == v.all && v'.expected == v.expected
    && WellShaped(op, g) && v'.delivered == v.delivered + g.bytes && (g.error.Some? <==> v'.errored)
    && (g.end && !early ==> v'.delivered == v.expected)
    && (v.errored ==> g.error == Some(Errored) && v'.served == v.served)
    && (!v.errored && v.delivered == v.expected ==> g.error == None)
    && (op.WholeChunk? && !v.errored && v.buf == [] ==>
          v'.buf == [] && (g.error == None <==> v.served == |v.all| || succeeds(v.all[v.served]))
          && v'.served == if g.error == None && v.served < |v.all| then v.served + 1 else v.served)
  }

  /** The whole-chunk reads so far have come to what they must, and the next one is for the chunk of its number. */
  ghost predicate Row(succeeds: Outcome, v: View, results: seq<Got>) {
    && WholeReads(succeeds, v.all, v.expected, results)
    && (if v.errored then v.served < |results| else v.buf == [] && v.served == Min(|results|, |v.all|))
  }

  lemma WholeReadStep(succeeds: Outcome, v: View, g: Got, v': View, early: bool, k: nat)
    requires Reads(succeeds, v, WholeChunk, g, v', early)
    requires if v.errored then v.served < k else v.buf == [] && v.served == Min(k, |v.all|)
    ensures WholeRead(succeeds, v.all, v.expected, k, g)
    ensures if v'.errored then v'.served < k + 1 else v'.buf == [] && v'.served == Min(k + 1, |v.all|)
  {
    if v.errored {
      assert !AllYield(succeeds, v.all, Min(k, |v.all|));
    } else if k < |v.all| {
      TotalNext(v.all, k);
      if g.error == None {
        assert g.bytes == v.expected[Upto(v.all, k)..Upto(v.all, k + 1)];
      }
    } else {
      assert v.all[..|v.all|] == v.all;
      assert g.bytes == [];
    }
  }

  lemma RowStep(succeeds: Outcome, v: View, results: seq<Got>, g: Got, v': View, early: bool)
    requires Row(succeeds, v, results) && Reads(succeeds, v, WholeChunk, g, v', early)
    ensures Row(succeeds, v', results + [g])
  {
    WholeReadStep(succeeds, v, g, v', early, |results|);
  }

  /** What is known after some calls. */
  ghost predicate Known(succeeds: Outcome, v: View, ops: seq<ReadOp>, results: seq<Got>, early: bool) {
    && v.Ok(succeeds) && |results| <= |ops| && Delivered(results) == v.delivered
    && (forall i :: 0 <= i < |results| ==> WellShaped(ops[i], results[i]))
    && Sticky(results) && (forall i :: 0 <= i < |results| && results[i].error.Some? ==> v.errored)
    && (!early ==> EndsComplete(results, v.expected))
    && (AllWhole(ops) ==> Row(succeeds, v, results))
  }

  lemma KnownStep(succeeds: Outcome, v: View, ops: seq<ReadOp>, results: seq<Got>, g: Got, v': View, early: bool)
    requires Known(succeeds, v, ops, results, early) && |results| < |ops|
    requires Reads(succeeds, v, ops[|results|], g, v', early)
    ensures Known(succeeds, v', ops, results + [g], early)
  {
    DeliveredOne(results, g);
    if AllWhole(ops) {
      RowStep(succeeds, v, results, g, v', early);
    }
    if !early {
      EndsStep(results, g, v.expected);
    }
  }

  lemma EndsStep(results: seq<Got>, g: Got, wanted: seq<Byte>)
    requires EndsComplete(results, wanted) && (g.end ==> Delivered(results + [g]) == wanted)
    ensures EndsComplete(results + [g], wanted)
  {
    var longer := results + [g];
    forall i | 0 <= i < |longer| && longer[i].end ensures Delivered(longer[..i + 1]) == wanted {
      if i < |results| {
        assert longer[..i + 1] == results[..i + 1];
      } else {
        assert longer[..i + 1] == longer;
      }
    }
  }

  /** Some chunk of the range cannot be recovered. */
  ghost predicate SomeFails(succeeds: Outcome, chunks: seq<ChunkSlab>) {
    exists i :: 0 <= i < |chunks| && !succeeds(chunks[i])
  }

  /** The results of reading a range: in every case a prefix of what is wanted; nothing after an error, and an error
      only if some chunk fails; the end only when everything has been handed out, unless the guard says otherwise;
      and of whole-chunk reads, chunk by chunk, exactly what they come to. */
  ghost predicate Faithful(succeeds: Outcome, chunks: seq<ChunkSlab>, wanted: seq<Byte>, early: bool,
                           ops: seq<ReadOp>, results: seq<Got>) {
    && |results| == |ops| && Delivered(results) <= wanted
    && (forall i :: 0 <= i < |results| ==> WellShaped(ops[i], results[i]))
    && Sticky(results)
    && ((exists i :: 0 <= i < |results| && results[i].error.Some?) ==> SomeFails(succeeds, chunks))
    && (!early ==> EndsComplete(results, wanted))
    && (AllWhole(ops) ==> WholeReads(succeeds, chunks, wanted, results))
  }

  lemma KnownFaithful(succeeds: Outcome, v: View, ops: seq<ReadOp>, results: seq<Got>, early: bool)
    requires Known(succeeds, v, ops, results, early) && |results| == |ops|
    ensures Faithful(succeeds, v.all, v.expected, early, ops, results)
  {
  }

  /** An empty chunk that was handed out means that the guard holds. */
  lemma SilentMeansEarly(d: Download, slabs: seq<Slab>, offset: nat, length: nat)
    requires d.Valid() && d.SilentBefore() && Narrow(slabs) && (length > 0 ==> offset + length <= Size(slabs))
    requires d.all == RangeChunks(slabs, offset, length)
    ensures EarlyEndInRange(d.w, slabs, offset, length)
  {
    var k :| 0 <= k < d.served && k < |d.all| && d.all[k].slab.length == 0;
    forall i | 0 <= i <= k ensures CanYield(d.w, d.all[i].slab) {
      assert d.succeeds(d.all[i]);
      assert Yields(d.w, d.hosts, d.all[i]);
    }
    EndsEarlyAt(d.w, d.all, k);
    EarlyEndExact(d.w, slabs, offset, length);
  }

  lemma StoredNarrow(w: World, slabs: seq<Slab>, contents: seq<seq<Byte>>)
    requires Stored(w, slabs, contents)
    ensures Narrow(slabs)
  {
    forall i | 0 <= i < |slabs| ensures slabs[i].offset + slabs[i].length < U32 {
      assert Holds(w, slabs[i], contents[i]);
    }
  }

  /** One call of the reader, on a download whose range has no early end unless `early`. */
  method ReadNext(d: Download, op: ReadOp, ghost slabs: seq<Slab>, ghost offset: nat, ghost length: nat,
                  ghost early: bool) returns (g: Got)
    requires d.Valid() && Narrow(slabs) && (length > 0 ==> offset + length <= Size(slabs))
    requires d.all == RangeChunks(slabs, offset, length) && (early <==> EarlyEndInRange(d.w, slabs, offset, length))
    modifies d, d.iter, d.cipher
    ensures d.Valid() && Reads(d.succeeds, old(ViewOf(d)), op, g, ViewOf(d), early)
  {
    ViewOk(d);
    g := Read(d, op);
    ViewOk(d);
    if d.SilentBefore() {
      SilentMeansEarly(d, slabs, offset, length);
    }
  }

  /** Any calls of `poll_read` and `read_chunk`. */
  method ReadAll(d: Download, ops: seq<ReadOp>, ghost slabs: seq<Slab>, ghost offset: nat, ghost length: nat,
                 ghost early: bool) returns (results: seq<Got>)
    requires d.Valid() && Narrow(slabs) && (length > 0 ==> offset + length <= Size(slabs))
    requires d.all == RangeChunks(slabs, offset, length) && (early <==> EarlyEndInRange(d.w, slabs, offset, length))
    requires Known(d.succeeds, ViewOf(d), ops, [], early)
    modifies d, d.iter, d.cipher
    ensures d.Valid() && Known(d.succeeds, ViewOf(d), ops, results, early) && |results| == |ops|
  {
    results := [];
    for i := 0 to |ops|
      invariant d.Valid() && |results| == i && Known(d.succeeds, ViewOf(d), ops, results, early)
    {
      ghost var before := ViewOf(d);
      var g := ReadNext(d, ops[i], slabs, offset, length, early);
      KnownStep(d.succeeds, before, ops, results, g, ViewOf(d), early);
      results := results + [g];
    }
  }

  lemma KnownAtStart(d: Download, ops: seq<ReadOp>, early: bool)
    requires d.Valid() && !d.errored && d.delivered == d.buf == [] && d.served == 0
    ensures Known(d.succeeds, ViewOf(d), ops, [], early)
  {
    ViewOk(d);
  }

  /** End to end: `Download::new`, then any calls of `poll_read` and `read_chunk`. */
  method ReadRange(w: World, key: Key, slabs: seq<Slab>, offset: nat, length: Option<nat>, maxInflight: nat, hosts: Hosts,
                   ops: seq<ReadOp>, ghost contents: seq<seq<Byte>>, ghost plain: seq<Byte>)
    returns (results: seq<Got>, error: Option<DownloadError>)
    requires w.Valid() && Stored(w, slabs, contents) && |plain| <= MAX_BYTES_PER_NONCE
    requires ObjectBytes(w, slabs, contents) == Crypt(w.objectBlock, key, 0, plain)
    ensures Size(slabs) == |plain|
    ensures maxInflight == 0 ==> error == Some(Custom) && results == []
    ensures maxInflight > 0 ==> error == None
    ensures maxInflight > 0 ==>
      var wanted := Wanted(plain, offset, length);
      Faithful(OutcomeFor(w, hosts), RangeChunks(slabs, offset, |wanted|), wanted,
               EarlyEndInRange(w, slabs, offset, |wanted|), ops, results)
  {
    results, error := [], None;
    var started := Open(w, key, slabs, offset, length, maxInflight, hosts, contents, plain);
    if started.Err? {
      error := Some(started.error);
      return;
    }
    var d := started.value;
    ghost var wanted := Wanted(plain, offset, length);
    ghost var early := EarlyEndInRange(w, slabs, offset, |wanted|);
    StoredNarrow(w, slabs, contents);
    KnownAtStart(d, ops, early);
    results := ReadAll(d, ops, slabs, offset, |wanted|, early);
    KnownFaithful(d.succeeds, ViewOf(d), ops, results, early);
  }

  // ----- progress, and the other half of the guard

  lemma OneRead(succeeds: Outcome, chunks: seq<ChunkSlab>, wanted: seq<Byte>, k: nat, g: Got, front: seq<Byte>)
    requires AllYield(succeeds, chunks, Min(k + 1, |chunks|)) && WholeRead(succeeds, chunks, wanted, k, g)
    requires Upto(chunks, k) <= |wanted| && front == wanted[..Upto(chunks, k)]
    ensures Upto(chunks, k + 1) <= |wanted| && front + g.bytes == wanted[..Upto(chunks, k + 1)] && g.error == None
  {
  }

  /** A row of whole-chunk reads without a failure hands out chunk after chunk. */
  lemma {:induction false} RowDelivers(succeeds: Outcome, chunks: seq<ChunkSlab>, wanted: seq<Byte>, results: seq<Got>,
                                       k: nat)
    requires WholeReads(succeeds, chunks, wanted, results) && k <= |results|
    requires AllYield(succeeds, chunks, Min(k, |chunks|))
    ensures Upto(chunks, k) <= |wanted| && Delivered(results[..k]) == wanted[..Upto(chunks, k)]
    ensures forall i :: 0 <= i < k ==> results[i].error == None
  {
    if k == 0 {
      assert results[..0] == [] && chunks[..0] == [];
    } else {
      RowDelivers(succeeds, chunks, wanted, results, k - 1);
      OneRead(succeeds, chunks, wanted, k - 1, results[k - 1], Delivered(results[..k - 1]));
      DeliveredOne(results[..k - 1], results[k - 1]);
      assert results[..k] == results[..k - 1] + [results[k - 1]];
    }
  }

  lemma {:induction false} FewChunks(chunks: seq<ChunkSlab>)
    requires NonEmptyChunks(chunks)
    ensures |chunks| <= TotalLength(chunks)
  {
    if chunks != [] {
      assert chunks[0] in chunks;
      FewChunks(chunks[1..]);
    }
  }

  lemma ChunksTotal(slabs: seq<Slab>, offset: nat, length: nat)
    requires length > 0 ==> offset + length <= Size(slabs)
    ensures TotalLength(RangeChunks(slabs, offset, length)) == length && Forward(RangeChunks(slabs, offset, length))
  {
    StartInRange(slabs, offset, length);
    var (idx, off) := Start(slabs, 0, offset);
    ChunksForward(slabs, CHUNK_SIZE, idx, off, length);
  }

  /** A row of whole-chunk reads without a failure, longer than there are chunks, delivers everything. */
  lemma RowComplete(succeeds: Outcome, chunks: seq<ChunkSlab>, wanted: seq<Byte>, results: seq<Got>)
    requires WholeReads(succeeds, chunks, wanted, results) && AllYield(succeeds, chunks, |chunks|)
    requires |chunks| < |results| && TotalLength(chunks) == |wanted|
    ensures forall i :: 0 <= i < |results| ==> results[i].error == None
    ensures Delivered(results) == wanted && results[|results| - 1].end
  {
    var n := |results|;
    assert chunks[..|chunks|] == chunks && results[..n] == results;
    RowDelivers(succeeds, chunks, wanted, results, n);
    assert WholeRead(succeeds, chunks, wanted, n - 1, results[n - 1]);
  }

  /** Without a slab without bytes strictly inside the range there are no more chunks than bytes. */
  lemma ChunkCount(w: World, slabs: seq<Slab>, contents: seq<seq<Byte>>, offset: nat, length: nat)
    requires Stored(w, slabs, contents) && (length > 0 ==> offset + length <= Size(slabs))
    requires !EmptySlabInRange(slabs, offset, length)
    ensures |RangeChunks(slabs, offset, length)| <= length
  {
    ChunksTotal(slabs, offset, length);
    StartInRange(slabs, offset, length);
    var (idx, off) := Start(slabs, 0, offset);
    RangeNonEmpty(w, slabs, contents, idx, off, offset, length);
    FewChunks(RangeChunks(slabs, offset, length));
  }

  /** If the task of every chunk succeeds, no read fails, and `n + 1` whole-chunk reads hand out all of the wanted
      bytes and then report the end, where `n` is the number of chunks: at most the number of wanted bytes, if no
      slab without bytes lies strictly inside the range. */
  lemma {:induction false} AnsweredDelivers(w: World, hosts: Hosts, slabs: seq<Slab>, contents: seq<seq<Byte>>,
                                            offset: nat, wanted: seq<Byte>, early: bool, ops: seq<ReadOp>,
                                            results: seq<Got>)
    requires Stored(w, slabs, contents) && w.seg > 0 && (wanted != [] ==> offset + |wanted| <= Size(slabs))
    requires var chunks := RangeChunks(slabs, offset, |wanted|);
      && Faithful(OutcomeFor(w, hosts), chunks, wanted, early, ops, results) && AllWhole(ops)
      && (forall i :: 0 <= i < |chunks| ==> Yields(w, hosts, chunks[i])) && |chunks| < |ops|
    ensures forall i :: 0 <= i < |results| ==> results[i].error == None
    ensures Delivered(results) == wanted && results[|results| - 1].end
    ensures !EmptySlabInRange(slabs, offset, |wanted|) ==> |RangeChunks(slabs, offset, |wanted|)| <= |wanted|
  {
    ChunksTotal(slabs, offset, |wanted|);
    RowComplete(OutcomeFor(w, hosts), RangeChunks(slabs, offset, |wanted|), wanted, results);
    if !EmptySlabInRange(slabs, offset, |wanted|) {
      ChunkCount(w, slabs, contents, offset, |wanted|);
    }
  }

  /** If the guard holds and all hosts answer, whole-chunk reads are told the end while bytes are still wanted. */
  lemma EarlyEnd(w: World, hosts: Hosts, slabs: seq<Slab>, offset: nat, wanted: seq<Byte>,
                 ops: seq<ReadOp>, results: seq<Got>) returns (k: nat)
    requires w.seg > 0 && Narrow(slabs) && (wanted != [] ==> offset + |wanted| <= Size(slabs))
    requires EarlyEndInRange(w, slabs, offset, |wanted|)
    requires var chunks := RangeChunks(slabs, offset, |wanted|);
      && Faithful(OutcomeFor(w, hosts), chunks, wanted, true, ops, results) && AllWhole(ops)
      && (forall i :: 0 <= i < |chunks| ==> Answered(hosts, chunks[i])) && |chunks| <= |ops|
    ensures k < |results| && results[k].end && |Delivered(results[..k + 1])| < |wanted|
  {
    var succeeds, chunks := OutcomeFor(w, hosts), RangeChunks(slabs, offset, |wanted|);
    EarlyEndExact(w, slabs, offset, |wanted|);
    k := EarlyChunk(w, chunks);
    ChunksTotal(slabs, offset, |wanted|);
    BytesToCome(chunks, k);
    forall i | 0 <= i <= k ensures succeeds(chunks[i]) {
      assert Yields(w, hosts, chunks[i]);
    }
    TotalNext(chunks, k);
    RowDelivers(succeeds, chunks, wanted, results, k + 1);
    assert WholeRead(succeeds, chunks, wanted, k, results[k]);
  }
}
