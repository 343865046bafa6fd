/**
 * Reading a byte range of an object (sia_storage, download.rs): the range is cut into chunks, a bounded
 * number of chunk tasks is in flight, and their results are decrypted and handed out in order.
 */
module Download {
  import opened Prelude
  import opened Striping
  import opened Encryption
  import opened SlabRecovery

  /** 256 KiB */
  const CHUNK_SIZE: nat := 0x4_0000

  datatype ChunkSlab = ChunkSlab(slab: Slab, index: nat)

  // ----- the bytes of an object

  function Size(slabs: seq<Slab>): nat {
    if slabs == [] then 0 else slabs[0].length + Size(slabs[1..])
  }

  lemma SizeAppend(a: seq<Slab>, b: seq<Slab>)
    ensures Size(a + b) == Size(a) + Size(b)
  {
    if a == [] {
      assert a + b == b;
    } else {
      assert (a + b)[1..] == a[1..] + b;
      SizeAppend(a[1..], b);
    }
  }

  /** Every slab is stored with its content. */
  ghost predicate Stored(w: World, slabs: seq<Slab>, contents: seq<seq<Byte>>) {
    && |contents| == |slabs|
    && forall i :: 0 <= i < |slabs| ==> Holds(w, slabs[i], contents[i])
  }

  ghost function SlabBytes(slab: Slab, content: seq<Byte>): (b: seq<Byte>)
    requires slab.offset + slab.length <= |content|
    ensures |b| == slab.length
  {
    content[slab.offset..slab.offset + slab.length]
  }

  /** The (encrypted) bytes of the object, slab after slab. */
  ghost function ObjectBytes(w: World, slabs: seq<Slab>, contents: seq<seq<Byte>>): (b: seq<Byte>)
    requires Stored(w, slabs, contents)
    ensures |b| == Size(slabs)
  {
    if slabs == [] then []
    else SlabBytes(slabs[0], contents[0]) + ObjectBytes(w, slabs[1..], contents[1..])
  }

  // ----- the chunks of a range

  /** The iterator stands `off` bytes into slab `idx` and has `rem` bytes of the object left to cover. */
  predicate InRange(slabs: seq<Slab>, idx: nat, off: nat, rem: nat) {
    && idx <= |slabs| && (rem > 0 ==> off + rem <= Size(slabs[idx..]))
    && (idx < |slabs| ==> off <= slabs[idx].length)
  }

  function ChunkLength(slab: Slab, n: nat, off: nat, rem: nat): nat
    requires off <= slab.length
  {
    Min(Min(slab.length - off, rem), n)
  }

  /** The chunk slab of the next chunk; offsets and lengths are 32 bits wide. */
  function NextChunk(slabs: seq<Slab>, n: nat, idx: nat, off: nat, rem: nat): ChunkSlab
    requires idx < |slabs| && off <= slabs[idx].length
  {
    var slab := slabs[idx];
    ChunkSlab(slab.(offset := (slab.offset + off) % U32, length := ChunkLength(slab, n, off, rem) % U32), idx)
  }

  /** Where the next chunk leaves the iterator. */
  function Next(slabs: seq<Slab>, n: nat, idx: nat, off: nat, rem: nat): (nat, nat)
    requires idx < |slabs| && off <= slabs[idx].length
  {
    AfterChunk(slabs, idx, off, ChunkLength(slabs[idx], n, off, rem))
  }

  function AfterChunk(slabs: seq<Slab>, idx: nat, off: nat, len: nat): (nat, nat)
    requires idx < |slabs|
  {
    if off + len >= slabs[idx].length then (idx + 1, 0) else (idx, off + len)
  }

  lemma NextInRange(slabs: seq<Slab>, n: nat, idx: nat, off: nat, rem: nat)
    requires InRange(slabs, idx, off, rem) && rem > 0
    ensures idx < |slabs|
    ensures var (idx', off') := Next(slabs, n, idx, off, rem);
            InRange(slabs, idx', off', rem - ChunkLength(slabs[idx], n, off, rem))
  {
    assert slabs[idx..][1..] == slabs[idx + 1..];
  }

  /** All chunks that are still to come. */
  function Chunks(slabs: seq<Slab>, n: nat, idx: nat, off: nat, rem: nat): seq<ChunkSlab>
    requires n > 0 && InRange(slabs, idx, off, rem)
    decreases |slabs| - idx, rem
  {
    if rem == 0 then []
    else
      NextInRange(slabs, n, idx, off, rem);
      var (idx', off') := Next(slabs, n, idx, off, rem);
      [NextChunk(slabs, n, idx, off, rem)] + Chunks(slabs, n, idx', off', rem - ChunkLength(slabs[idx], n, off, rem))
  }

  /** The first chunk and the others. */
  lemma ChunksStep(slabs: seq<Slab>, n: nat, idx: nat, off: nat, rem: nat)
    requires n > 0 && InRange(slabs, idx, off, rem) && rem > 0
    ensures idx < |slabs|
    ensures var (idx', off') := Next(slabs, n, idx, off, rem);
            var rem' := rem - ChunkLength(slabs[idx], n, off, rem);
      && InRange(slabs, idx', off', rem')
      && Chunks(slabs, n, idx, off, rem) == [NextChunk(slabs, n, idx, off, rem)] + Chunks(slabs, n, idx', off', rem')
  {
    NextInRange(slabs, n, idx, off, rem);
  }

  function TotalLength(chunks: seq<ChunkSlab>): nat {
    if chunks == [] then 0 else chunks[0].slab.length + TotalLength(chunks[1..])
  }

  ghost predicate ChunksHold(w: World, contents: seq<seq<Byte>>, chunks: seq<ChunkSlab>) {
    forall i :: 0 <= i < |chunks| ==>
      chunks[i].index < |contents| && Holds(w, chunks[i].slab, contents[chunks[i].index])
  }

  /** The (encrypted) bytes that the chunk tasks yield. */
  ghost function ChunkBytes(w: World, contents: seq<seq<Byte>>, chunks: seq<ChunkSlab>): (b: seq<Byte>)
    requires ChunksHold(w, contents, chunks)
    ensures |b| == TotalLength(chunks)
  {
    if chunks == [] then []
    else SlabBytes(chunks[0].slab, contents[chunks[0].index]) + ChunkBytes(w, contents, chunks[1..])
  }

  lemma ChunkBytesCons(w: World, contents: seq<seq<Byte>>, c: ChunkSlab, rest: seq<ChunkSlab>, chunks: seq<ChunkSlab>)
    requires ChunksHold(w, contents, rest) && chunks == [c] + rest
    requires c.index < |contents| && Holds(w, c.slab, contents[c.index])
    ensures ChunksHold(w, contents, chunks)
    ensures ChunkBytes(w, contents, chunks) == SlabBytes(c.slab, contents[c.index]) + ChunkBytes(w, contents, rest)
  {
    assert chunks[1..] == rest;
  }

  /** The next chunk is stored where its slab is, and holds the next bytes of the slab. */
  lemma NextChunkHolds(w: World, slabs: seq<Slab>, contents: seq<seq<Byte>>, n: nat, idx: nat, off: nat, rem: nat)
    requires Stored(w, slabs, contents) && idx < |slabs| && off <= slabs[idx].length
    ensures var c := NextChunk(slabs, n, idx, off, rem);
      && Holds(w, c.slab, contents[idx]) && c.index == idx
      && c.slab.length == ChunkLength(slabs[idx], n, off, rem)
      && SlabBytes(c.slab, contents[idx]) == SlabBytes(slabs[idx], contents[idx])[off..off + c.slab.length]
  {
    var c := NextChunk(slabs, n, idx, off, rem);
    assert c.slab.offset == slabs[idx].offset + off;
    SliceOfSlice(contents[idx], slabs[idx].offset, slabs[idx].length, off, c.slab.length);
    forall i | 0 <= i < |c.slab.sectors| ensures c.slab.sectors[i] == StoredShard(w, c.slab, contents[idx], i) {
      assert slabs[idx].sectors[i] == StoredShard(w, slabs[idx], contents[idx], i);
    }
  }

  /** The chunks are stored, and yield exactly the `rem` bytes from byte `off` of slab `idx` on. */
  ghost predicate Covers(w: World, slabs: seq<Slab>, contents: seq<seq<Byte>>, chunks: seq<ChunkSlab>,
                         idx: nat, off: nat, rem: nat)
    requires Stored(w, slabs, contents) && InRange(slabs, idx, off, rem)
  {
    ChunksHold(w, contents, chunks) && ChunkBytes(w, contents, chunks) == BytesFrom(w, slabs, contents, idx, off, rem)
  }

  /** `rem` bytes of the object from byte `off` of slab `idx` on. */
  ghost function BytesFrom(w: World, slabs: seq<Slab>, contents: seq<seq<Byte>>, idx: nat, off: nat, rem: nat): seq<Byte>
    requires Stored(w, slabs, contents) && InRange(slabs, idx, off, rem)
  {
    if rem == 0 then [] else ObjectBytes(w, slabs[idx..], contents[idx..])[off..off + rem]
  }

  lemma ObjectBytesCons(w: World, slabs: seq<Slab>, contents: seq<seq<Byte>>, idx: nat)
    requires Stored(w, slabs, contents) && idx < |slabs|
    ensures Stored(w, slabs[idx..], contents[idx..]) && Stored(w, slabs[idx + 1..], contents[idx + 1..])
    ensures ObjectBytes(w, slabs[idx..], contents[idx..])
         == SlabBytes(slabs[idx], contents[idx]) + ObjectBytes(w, slabs[idx + 1..], contents[idx + 1..])
  {
    assert slabs[idx..][1..] == slabs[idx + 1..] && contents[idx..][1..] == contents[idx + 1..];
  }

  /** Some bytes of the current slab, and the bytes from where they leave the cursor. */
  lemma BytesStep(w: World, slabs: seq<Slab>, contents: seq<seq<Byte>>, idx: nat, off: nat, rem: nat, len: nat,
                  idx': nat, off': nat)
    requires Stored(w, slabs, contents) && idx < |slabs| && rem > 0 && InRange(slabs, idx, off, rem)
    requires len <= rem && off + len <= slabs[idx].length && (idx', off') == AfterChunk(slabs, idx, off, len)
    requires InRange(slabs, idx', off', rem - len)
    ensures BytesFrom(w, slabs, contents, idx, off, rem)
         == SlabBytes(slabs[idx], contents[idx])[off..off + len] + BytesFrom(w, slabs, contents, idx', off', rem - len)
  {
    var first, after := SlabBytes(slabs[idx], contents[idx]), ObjectBytes(w, slabs[idx + 1..], contents[idx + 1..]);
    ObjectBytesCons(w, slabs, contents, idx);
    if off + len < slabs[idx].length {
      CutBytes(first, after, first[off..off + len], BytesFrom(w, slabs, contents, idx', off', rem - len), off, rem);
    } else {
      AcrossBytes(first, after, first[off..off + len], BytesFrom(w, slabs, contents, idx', off', rem - len), off, rem);
    }
  }

  /** If the chunks after the first cover what is left, then all of them cover the range. */
  lemma CoverStep(w: World, slabs: seq<Slab>, contents: seq<seq<Byte>>, c: ChunkSlab, rest: seq<ChunkSlab>,
                  chunks: seq<ChunkSlab>, idx: nat, off: nat, rem: nat, idx': nat, off': nat)
    requires Stored(w, slabs, contents) && idx < |slabs| && c.index == idx && rem > 0 && chunks == [c] + rest
    requires InRange(slabs, idx, off, rem) && Holds(w, c.slab, contents[idx])
    requires c.slab.length <= rem && off + c.slab.length <= slabs[idx].length
    requires SlabBytes(c.slab, contents[idx]) == SlabBytes(slabs[idx], contents[idx])[off..off + c.slab.length]
    requires (idx', off') == AfterChunk(slabs, idx, off, c.slab.length)
    requires InRange(slabs, idx', off', rem - c.slab.length)
    requires Covers(w, slabs, contents, rest, idx', off', rem - c.slab.length)
    ensures Covers(w, slabs, contents, chunks, idx, off, rem)
  {
    ChunkBytesCons(w, contents, c, rest, chunks);
    BytesStep(w, slabs, contents, idx, off, rem, c.slab.length, idx', off');
  }

  /** The first chunk of the iterator, and the chunks after it. */
  lemma CoverFirst(w: World, slabs: seq<Slab>, contents: seq<seq<Byte>>, n: nat, idx: nat, off: nat, rem: nat,
                   idx': nat, off': nat, chunks: seq<ChunkSlab>, rest: seq<ChunkSlab>)
    requires Stored(w, slabs, contents) && n > 0 && rem > 0 && InRange(slabs, idx, off, rem) && idx < |slabs|
    requires Next(slabs, n, idx, off, rem) == (idx', off')
    requires chunks == [NextChunk(slabs, n, idx, off, rem)] + rest
    requires var len := ChunkLength(slabs[idx], n, off, rem);
             InRange(slabs, idx', off', rem - len) && Covers(w, slabs, contents, rest, idx', off', rem - len)
    ensures Covers(w, slabs, contents, chunks, idx, off, rem)
  {
    NextChunkHolds(w, slabs, contents, n, idx, off, rem);
    var c := NextChunk(slabs, n, idx, off, rem);
    assert c.slab.length == ChunkLength(slabs[idx], n, off, rem);
    CoverStep(w, slabs, contents, c, rest, chunks, idx, off, rem, idx', off');
  }

  /** The chunks cover the range exactly, in order. */
  lemma {:induction false} ChunksCover(w: World, slabs: seq<Slab>, contents: seq<seq<Byte>>, n: nat,
                                       idx: nat, off: nat, rem: nat)
    requires Stored(w, slabs, contents) && n > 0 && InRange(slabs, idx, off, rem)
    ensures Covers(w, slabs, contents, Chunks(slabs, n, idx, off, rem), idx, off, rem)
    decreases |slabs| - idx, rem
  {
    if rem > 0 {
      ChunksStep(slabs, n, idx, off, rem);
      var (idx', off') := Next(slabs, n, idx, off, rem);
      var rem' := rem - ChunkLength(slabs[idx], n, off, rem);
      ChunksCover(w, slabs, contents, n, idx', off', rem');
      CoverFirst(w, slabs, contents, n, idx, off, rem, idx', off',
                 Chunks(slabs, n, idx, off, rem), Chunks(slabs, n, idx', off', rem'));
    }
  }

  lemma SliceOfSlice(s: seq<Byte>, a: nat, n: nat, off: nat, len: nat)
    requires a + n <= |s| && off + len <= n
    ensures s[a + off..a + off + len] == s[a..a + n][off..off + len]
  {
    var x, y := s[a + off..a + off + len], s[a..a + n][off..off + len];
    assert forall i :: 0 <= i < len ==> x[i] == y[i];
  }

  /** The bytes of a chunk that ends its slab, and those of the chunks after it. */
  lemma AcrossBytes(first: seq<Byte>, after: seq<Byte>, piece: seq<Byte>, rest: seq<Byte>, off: nat, rem: nat)
    requires off + |piece| == |first| && |piece| <= rem && off + rem <= |first| + |after|
    requires piece == first[off..off + |piece|] && rest == if rem == |piece| then [] else after[..rem - |piece|]
    ensures piece + rest == (first + after)[off..off + rem]
  {
    var x, y := piece + rest, (first + after)[off..off + rem];
    assert |x| == |y|;
    forall i | 0 <= i < |y| ensures x[i] == y[i] {
      assert y[i] == (first + after)[off + i];
    }
  }

  /** The bytes of a chunk that leaves some of its slab, and those of the chunks after it. */
  lemma CutBytes(first: seq<Byte>, after: seq<Byte>, piece: seq<Byte>, rest: seq<Byte>, off: nat, rem: nat)
    requires off + |piece| < |first| && |piece| <= rem && off + rem <= |first| + |after|
    requires piece == first[off..off + |piece|]
    requires rest == if rem == |piece| then [] else (first + after)[off + |piece|..off + rem]
    ensures piece + rest == (first + after)[off..off + rem]
  {
    var x, y := piece + rest, (first + after)[off..off + rem];
    assert |x| == |y|;
    forall i | 0 <= i < |y| ensures x[i] == y[i] {
      assert y[i] == (first + after)[off + i];
    }
  }

  /** A slab without bytes that lies strictly inside the range, `off` bytes into slab `idx` on. */
  predicate EmptySlabInside(slabs: seq<Slab>, idx: nat, off: nat, rem: nat)
    requires idx <= |slabs|
  {
    exists j :: idx <= j < |slabs| && slabs[j].length == 0 && Size(slabs[idx..j]) < off + rem
  }

  /** A chunk is empty exactly when its slab is. */
  lemma HeadLength(slabs: seq<Slab>, n: nat, idx: nat, off: nat, rem: nat)
    requires n > 0 && rem > 0 && idx < |slabs| && slabs[idx].length < U32 && (off == 0 || off < slabs[idx].length)
    ensures NextChunk(slabs, n, idx, off, rem).slab.length == ChunkLength(slabs[idx], n, off, rem)
    ensures ChunkLength(slabs[idx], n, off, rem) == 0 <==> slabs[idx].length == 0
  {
  }

  ghost predicate HasEmpty(chunks: seq<ChunkSlab>) {
    exists c :: c in chunks && c.slab.length == 0
  }

  lemma HasEmptyCons(c: ChunkSlab, rest: seq<ChunkSlab>)
    ensures HasEmpty([c] + rest) <==> c.slab.length == 0 || HasEmpty(rest)
  {
    assert forall x :: x in [c] + rest <==> x == c || x in rest;
    assert c in [c] + rest;
  }

  /** One chunk on in the range. */
  lemma HasEmptyStep(slabs: seq<Slab>, n: nat, idx: nat, off: nat, rem: nat, next: nat, off': nat,
                     chunks: seq<ChunkSlab>, rest: seq<ChunkSlab>)
    requires n > 0 && rem > 0 && idx < |slabs| && (off == 0 || off < slabs[idx].length) && slabs[idx].length < U32
    requires Next(slabs, n, idx, off, rem) == (next, off') && chunks == [NextChunk(slabs, n, idx, off, rem)] + rest
    requires var rem' := rem - ChunkLength(slabs[idx], n, off, rem);
             HasEmpty(rest) <==> rem' > 0 && EmptySlabInside(slabs, next, off', rem')
    ensures HasEmpty(chunks) <==> EmptySlabInside(slabs, idx, off, rem)
  {
    HasEmptyCons(NextChunk(slabs, n, idx, off, rem), rest);
    HeadLength(slabs, n, idx, off, rem);
    EmptySlabStep(slabs, idx, off, rem, ChunkLength(slabs[idx], n, off, rem), next, off');
  }

  /** Chunks are never empty, except for slabs without bytes inside the range. */
  lemma {:induction false} ChunksNonEmpty(slabs: seq<Slab>, n: nat, idx: nat, off: nat, rem: nat)
    requires n > 0 && InRange(slabs, idx, off, rem) && (idx < |slabs| ==> off == 0 || off < slabs[idx].length)
    requires forall i :: 0 <= i < |slabs| ==> slabs[i].length < U32
    ensures HasEmpty(Chunks(slabs, n, idx, off, rem)) <==> rem > 0 && EmptySlabInside(slabs, idx, off, rem)
    decreases |slabs| - idx, rem
  {
    if rem > 0 {
      ChunksStep(slabs, n, idx, off, rem);
      var (next, off') := Next(slabs, n, idx, off, rem);
      var rem' := rem - ChunkLength(slabs[idx], n, off, rem);
      ChunksNonEmpty(slabs, n, next, off', rem');
      HasEmptyStep(slabs, n, idx, off, rem, next, off',
                   Chunks(slabs, n, idx, off, rem), Chunks(slabs, n, next, off', rem'));
    }
  }

  lemma EmptySlabStep(slabs: seq<Slab>, idx: nat, off: nat, rem: nat, len: nat, next: nat, off': nat)
    requires idx < |slabs| && rem > 0 && len <= rem && off + len <= slabs[idx].length
    requires len == 0 <==> slabs[idx].length == 0
    requires if off + len == slabs[idx].length then next == idx + 1 && off' == 0 else next == idx && off' == off + len
    requires off + len < slabs[idx].length || rem - len >= 0
    ensures EmptySlabInside(slabs, idx, off, rem)
            <==> len == 0 || (rem - len > 0 && EmptySlabInside(slabs, next, off', rem - len))
  {
    if len == 0 {
      assert Size(slabs[idx..idx]) == 0;
    } else if next == idx + 1 {
      forall j | idx < j < |slabs| ensures Size(slabs[idx..j]) == slabs[idx].length + Size(slabs[idx + 1..j]) {
        assert slabs[idx..j][1..] == slabs[idx + 1..j];
      }
      if EmptySlabInside(slabs, idx, off, rem) {
        var j :| idx <= j < |slabs| && slabs[j].length == 0 && Size(slabs[idx..j]) < off + rem;
        assert Size(slabs[idx + 1..j]) < rem - len;
      }
    }
  }

  /** The slab that byte `off` after the beginning of slab `idx` lies in, and where. */
  function Start(slabs: seq<Slab>, idx: nat, off: nat): (nat, nat)
    requires idx <= |slabs|
    decreases |slabs| - idx
  {
    if idx == |slabs| || off < slabs[idx].length then (idx, off) else Start(slabs, idx + 1, off - slabs[idx].length)
  }

  lemma {:induction false} StartAt(slabs: seq<Slab>, idx: nat, off: nat)
    requires idx <= |slabs|
    ensures var (idx', off') := Start(slabs, idx, off);
      && idx' <= |slabs| && Size(slabs[..idx']) + off' == Size(slabs[..idx]) + off
      && (idx' < |slabs| ==> off' < slabs[idx'].length)
    decreases |slabs| - idx
  {
    if idx < |slabs| && off >= slabs[idx].length {
      StartAt(slabs, idx + 1, off - slabs[idx].length);
      SizeNext(slabs, idx);
    }
  }

  lemma SizeNext(slabs: seq<Slab>, idx: nat)
    requires idx < |slabs|
    ensures Size(slabs[..idx + 1]) == Size(slabs[..idx]) + slabs[idx].length
  {
    assert slabs[..idx + 1] == slabs[..idx] + [slabs[idx]];
    SizeAppend(slabs[..idx], [slabs[idx]]);
  }

  lemma StartInRange(slabs: seq<Slab>, offset: nat, length: nat)
    requires length > 0 ==> offset + length <= Size(slabs)
    ensures var (idx, off) := Start(slabs, 0, offset);
      && InRange(slabs, idx, off, length) && (idx < |slabs| ==> off < slabs[idx].length)
      && Size(slabs[..idx]) + off == offset
  {
    StartAt(slabs, 0, offset);
    var (idx, off) := Start(slabs, 0, offset);
    assert slabs[..0] == [];
    SizeAppend(slabs[..idx], slabs[idx..]);
    assert slabs[..idx] + slabs[idx..] == slabs;
  }

  /** The chunks that `ChunkIter` cuts a range into. */
  function RangeChunks(slabs: seq<Slab>, offset: nat, length: nat): seq<ChunkSlab>
    requires length > 0 ==> offset + length <= Size(slabs)
  {
    StartInRange(slabs, offset, length);
    var (idx, off) := Start(slabs, 0, offset);
    Chunks(slabs, CHUNK_SIZE, idx, off, length)
  }

  /** Offsets and lengths of slabs fit 32 bits. */
  predicate Narrow(slabs: seq<Slab>) {
    forall i :: 0 <= i < |slabs| ==> slabs[i].offset + slabs[i].length < U32
  }

  /** The chunk is full, or ends its slab. */
  predicate FullOrEnd(slabs: seq<Slab>, n: nat, c: ChunkSlab) {
    c.index < |slabs| && c.slab.length <= n &&
    (c.slab.length == n || c.slab.offset + c.slab.length == slabs[c.index].offset + slabs[c.index].length)
  }

  /** Every chunk but the last is full or ends its slab, and no chunk is more than full. */
  lemma {:induction false} ChunksFull(slabs: seq<Slab>, n: nat, idx: nat, off: nat, rem: nat, k: nat)
    requires n > 0 && InRange(slabs, idx, off, rem) && Narrow(slabs) && k < |Chunks(slabs, n, idx, off, rem)|
    ensures var chunks := Chunks(slabs, n, idx, off, rem);
            chunks[k].slab.length <= n && (k < |chunks| - 1 ==> FullOrEnd(slabs, n, chunks[k]))
    decreases |slabs| - idx, rem
  {
    if rem > 0 {
      ChunksStep(slabs, n, idx, off, rem);
      var (idx', off') := Next(slabs, n, idx, off, rem);
      var rem' := rem - ChunkLength(slabs[idx], n, off, rem);
      if k > 0 {
        ChunksFull(slabs, n, idx', off', rem', k - 1);
      } else {
        FirstFull(slabs, n, idx, off, rem);
      }
    }
  }

  lemma FirstFull(slabs: seq<Slab>, n: nat, idx: nat, off: nat, rem: nat)
    requires rem > 0 && idx < |slabs| && off <= slabs[idx].length && slabs[idx].offset + slabs[idx].length < U32
    ensures var c, len := NextChunk(slabs, n, idx, off, rem), ChunkLength(slabs[idx], n, off, rem);
            c.slab.length == len <= n && (rem - len > 0 ==> FullOrEnd(slabs, n, c))
  {
  }

  /** The chunks of a range are of 256 KiB, except where a slab or the range ends. */
  lemma RangeFull(slabs: seq<Slab>, offset: nat, length: nat, k: nat)
    requires (length > 0 ==> offset + length <= Size(slabs)) && Narrow(slabs) && k < |RangeChunks(slabs, offset, length)|
    ensures var chunks := RangeChunks(slabs, offset, length);
            chunks[k].slab.length <= 262_144 && (k < |chunks| - 1 ==> FullOrEnd(slabs, 262_144, chunks[k]))
  {
    StartInRange(slabs, offset, length);
    var (idx, off) := Start(slabs, 0, offset);
    ChunksFull(slabs, CHUNK_SIZE, idx, off, length, k);
  }

  class ChunkIter {
    const n: nat
    const slabs: seq<Slab>
    var slabIdx: nat
    var offset: nat
    var remaining: nat

    predicate Valid()
      reads this
    {
      n > 0 && InRange(slabs, slabIdx, offset, remaining)
    }

    function Rest(): seq<ChunkSlab>
      requires Valid()
      reads this
    {
      Chunks(slabs, n, slabIdx, offset, remaining)
    }

    constructor (slabs: seq<Slab>, n: nat, offset: nat, length: nat)
      requires n > 0 && (length > 0 ==> offset + length <= Size(slabs))
      ensures Valid() && this.slabs == slabs && this.n == n && remaining == length
      ensures (slabIdx, this.offset) == Start(slabs, 0, offset)
    {
      var idx := 0;
      var off := offset;
      while idx < |slabs|
        invariant 0 <= idx <= |slabs|
        invariant Start(slabs, idx, off) == Start(slabs, 0, offset)
      {
        var slabLength := slabs[idx].length;
        if off < slabLength {
          break;
        }
        off := off - slabLength;
        idx := idx + 1;
      }
      StartInRange(slabs, offset, length);
      this.slabs, this.n := slabs, n;
      this.slabIdx, this.offset, this.remaining := idx, off, length;
    }

    /** `next`: yields the head of the chunks to come. */
    method Next() returns (r: Option<ChunkSlab>)
      requires Valid()
      modifies this
      ensures Valid()
      ensures old(Rest()) == [] ==> r == None && Rest() == []
      ensures old(Rest()) != [] ==> r == Some(old(Rest())[0]) && Rest() == old(Rest())[1..]
    {
      if remaining == 0 {
        return None;
      }
      ChunksStep(slabs, n, slabIdx, offset, remaining);
      var slab := slabs[slabIdx];
      var chunk := NextChunk(slabs, n, slabIdx, offset, remaining);
      var slabLength := ChunkLength(slab, n, offset, remaining);
      offset := offset + slabLength;
      if offset >= slab.length {
        offset := 0;
        slabIdx := slabIdx + 1;
      }
      remaining := remaining - slabLength;
      r := Some(chunk);
    }
  }

  // ----- the download

  lemma TotalLengthAppend(a: seq<ChunkSlab>, b: seq<ChunkSlab>)
    ensures TotalLength(a + b) == TotalLength(a) + TotalLength(b)
  {
    if a == [] {
      assert a + b == b;
    } else {
      assert (a + b)[1..] == a[1..] + b;
      TotalLengthAppend(a[1..], b);
    }
  }

  /** Where the bytes of chunk `i` lie among the bytes of all chunks. */
  lemma {:induction false} ChunkAt(w: World, contents: seq<seq<Byte>>, chunks: seq<ChunkSlab>, i: nat)
    requires ChunksHold(w, contents, chunks) && i < |chunks|
    ensures TotalLength(chunks[..i]) + chunks[i].slab.length == TotalLength(chunks[..i + 1]) <= TotalLength(chunks)
    ensures ChunkBytes(w, contents, chunks)[TotalLength(chunks[..i])..TotalLength(chunks[..i + 1])]
         == SlabBytes(chunks[i].slab, contents[chunks[i].index])
  {
    if i > 0 {
      ChunkAt(w, contents, chunks[1..], i - 1);
      assert chunks[..i][1..] == chunks[1..][..i - 1] && chunks[..i + 1][1..] == chunks[1..][..i];
    } else {
      assert chunks[..1] == [chunks[0]];
    }
  }

  /** The last chunk has bytes: a chunk is asked for only while bytes are still wanted. */
  predicate Forward(chunks: seq<ChunkSlab>) {
    chunks == [] || chunks[|chunks| - 1].slab.length > 0
  }

  lemma {:induction false} ChunksForward(slabs: seq<Slab>, n: nat, idx: nat, off: nat, rem: nat)
    requires 0 < n < U32 && InRange(slabs, idx, off, rem)
    ensures TotalLength(Chunks(slabs, n, idx, off, rem)) == rem && Forward(Chunks(slabs, n, idx, off, rem))
    decreases |slabs| - idx, rem
  {
    if rem > 0 {
      ChunksStep(slabs, n, idx, off, rem);
      var len := ChunkLength(slabs[idx], n, off, rem);
      var (next, off') := Next(slabs, n, idx, off, rem);
      ChunksForward(slabs, n, next, off', rem - len);
    }
  }

  lemma {:induction false} TotalMonotone(chunks: seq<ChunkSlab>, i: nat, j: nat)
    requires i <= j <= |chunks|
    ensures TotalLength(chunks[..i]) <= TotalLength(chunks[..j])
    decreases j - i
  {
    if i < j {
      TotalMonotone(chunks, i, j - 1);
      TotalNext(chunks, j - 1);
    }
  }

  lemma TotalNext(chunks: seq<ChunkSlab>, i: nat)
    requires i < |chunks|
    ensures TotalLength(chunks[..i + 1]) == TotalLength(chunks[..i]) + chunks[i].slab.length
  {
    assert chunks[..i + 1] == chunks[..i] + [chunks[i]];
    TotalLengthAppend(chunks[..i], [chunks[i]]);
  }

  /** Before any chunk there are bytes still to come. */
  lemma BytesToCome(chunks: seq<ChunkSlab>, k: nat)
    requires Forward(chunks) && k < |chunks|
    ensures TotalLength(chunks[..k]) < TotalLength(chunks)
  {
    var n := |chunks|;
    TotalMonotone(chunks, k, n - 1);
    TotalNext(chunks, n - 1);
    assert chunks[..n] == chunks;
  }

  /** What is known of a download from its start: its chunks decrypt to the expected bytes, which end
      within the first nonce span. */
  ghost predicate Task(w: World, key: Key, contents: seq<seq<Byte>>, all: seq<ChunkSlab>, from: nat,
                       expected: seq<Byte>)
  {
    && w.Valid() && ChunksHold(w, contents, all) && Forward(all)
    && Crypt(w.objectBlock, key, from, ChunkBytes(w, contents, all)) == expected
    && (expected != [] ==> from + |expected| <= MAX_BYTES_PER_NONCE)
  }

  /** The state of the object cipher after `n` of the `total` expected bytes. */
  predicate InStep(s: CipherState, from: nat, n: nat, total: nat) {
    s.offset == from + n && (s == Seek(from + n) || n == total)
  }

  lemma CryptPart(block: Block, key: Key, from: nat, bytes: seq<Byte>, n: nat, m: nat)
    requires n + m <= |bytes|
    ensures Crypt(block, key, from + n, bytes[n..n + m]) == Crypt(block, key, from, bytes)[n..n + m]
  {
  }

  lemma SpanEnd(from: nat, n: nat, m: nat, total: nat)
    requires n + m <= total && from + total <= MAX_BYTES_PER_NONCE
    ensures m <= Remaining(from + n) + MAX_BYTES_PER_NONCE
    ensures m > 0 && n + m < total ==> (from + n + m) % MAX_BYTES_PER_NONCE != 0
  {
  }

  /** A call on the next `m` of the expected bytes, from the state that belongs to the first `n`. */
  lemma NextCall(block: Block, key: Key, from: nat, bytes: seq<Byte>, n: nat, m: nat, s: CipherState)
    requires n + m <= |bytes| && (bytes != [] ==> from + |bytes| <= MAX_BYTES_PER_NONCE)
    requires InStep(s, from, n, |bytes|)
    ensures Output(block, key, s, bytes[n..n + m]) == Crypt(block, key, from, bytes)[n..n + m]
    ensures InStep(After(s, m), from, n + m, |bytes|)
  {
    if m > 0 {
      SpanEnd(from, n, m, |bytes|);
      CallExact(block, key, from + n, bytes[n..n + m]);
      CryptPart(block, key, from, bytes, n, m);
      CallState(from + n, m);
    } else {
      assert bytes[n..n + m] == [];
    }
  }

  /** Decrypting the next chunk continues the expected bytes. */
  lemma DecryptChunk(w: World, key: Key, contents: seq<seq<Byte>>, all: seq<ChunkSlab>, from: nat,
                     expected: seq<Byte>, i: nat, s: CipherState)
    requires Task(w, key, contents, all, from, expected) && i < |all|
    requires InStep(s, from, TotalLength(all[..i]), |expected|)
    ensures TotalLength(all[..i]) <= TotalLength(all[..i + 1]) <= |expected|
    ensures var data := SlabBytes(all[i].slab, contents[all[i].index]);
      && Output(w.objectBlock, key, s, data) == expected[TotalLength(all[..i])..TotalLength(all[..i + 1])]
      && InStep(After(s, |data|), from, TotalLength(all[..i + 1]), |expected|)
  {
    ChunkAt(w, contents, all, i);
    NextCall(w.objectBlock, key, from, ChunkBytes(w, contents, all), TotalLength(all[..i]), all[i].slab.length, s);
  }

  /** The order in which hosts are preferred: any permutation. */
  method HostOrder(n: nat) returns (order: seq<nat>)
    ensures Order(order, n)
  {
    order := seq(n, i requires 0 <= i < n => i);
  }

  /** Which of its sectors the task of a chunk can read: anything. */
  type Hosts = (ChunkSlab, nat) -> bool

  function Reach(hosts: Hosts, c: ChunkSlab): (r: seq<bool>)
    ensures |r| == |c.slab.sectors|
  {
    seq(|c.slab.sectors|, i requires 0 <= i < |c.slab.sectors| => hosts(c, i))
  }

  predicate Answered(hosts: Hosts, c: ChunkSlab) {
    |Reachable(Reach(hosts, c))| >= c.slab.minShards
  }

  /** A chunk that can be recovered, if enough hosts answer. */
  predicate CanYield(w: World, slab: Slab)
    requires w.seg > 0
  {
    ValidCounts(slab) && Decodes(w, slab)
  }

  /** The task of the chunk succeeds. */
  predicate Yields(w: World, hosts: Hosts, c: ChunkSlab)
    requires w.seg > 0
  {
    Answered(hosts, c) && CanYield(w, c.slab)
  }

  /** The outcome of every chunk task, by chunk. */
  type Outcome = ChunkSlab -> bool

  function OutcomeFor(w: World, hosts: Hosts): Outcome
    requires w.seg > 0
  {
    c => Yields(w, hosts, c)
  }

  ghost predicate OutcomeOf(w: World, hosts: Hosts, succeeds: Outcome)
    requires w.seg > 0
  {
    forall c {:trigger Yields(w, hosts, c)} :: succeeds(c) <==> Yields(w, hosts, c)
  }

  ghost predicate AllYield(succeeds: Outcome, chunks: seq<ChunkSlab>, n: nat)
    requires n <= |chunks|
  {
    forall i :: 0 <= i < n ==> succeeds(chunks[i])
  }

  /** The task that `spawn_next` starts for a chunk. */
  method ChunkTask(w: World, hosts: Hosts, c: ChunkSlab, ghost content: seq<Byte>)
    returns (r: Result<seq<Byte>, DownloadError>)
    requires w.Valid() && Holds(w, c.slab, content)
    ensures r.Ok? <==> Yields(w, hosts, c)
    ensures r.Ok? ==> r.value == SlabBytes(c.slab, content)
  {
    var order := HostOrder(|c.slab.sectors|);
    r := RecoverChunk(w, c.slab, content, order, Reach(hosts, c));
  }

  datatype Poll = Pending | Ready(bytes: seq<Byte>) | Failed(error: DownloadError)

  class Download {
    const w: World
    const maxInflight: nat
    const cipher: Chacha20Cipher
    const iter: ChunkIter
    const hosts: Hosts
    var buf: seq<Byte>
    var queue: seq<ChunkSlab>
    var errored: bool

    ghost const succeeds: Outcome
    ghost const contents: seq<seq<Byte>>
    ghost const all: seq<ChunkSlab>
    ghost const from: nat
    ghost const expected: seq<Byte>
    ghost var served: nat
    ghost var delivered: seq<Byte>

    /** What does not change: the task, and what its hosts make of it. */
    ghost predicate Fixed() {
      && Task(w, cipher.key, contents, all, from, expected) && cipher.block == w.objectBlock
      && 0 < maxInflight && OutcomeOf(w, hosts, succeeds)
    }

    /** The first chunks have been served, the next ones are queued, and the cipher is in step. */
    ghost predicate Flowing()
      reads this`queue, this`served, iter, cipher
    {
      && iter.Valid() && |queue| <= maxInflight && served <= |all| && AllYield(succeeds, all, served)
      && Pipeline(queue, iter.Rest(), all[served..], maxInflight)
      && InStep(cipher.State(), from, TotalLength(all[..served]), |expected|)
    }

    /** What was handed out, and then `data`, are the bytes of the chunks served. */
    ghost predicate Handed(data: seq<Byte>)
      reads this`delivered, this`served
    {
      && served <= |all| && TotalLength(all[..served]) <= |expected| && delivered <= expected
      && delivered + data == expected[..TotalLength(all[..served])]
    }

    /** The first chunks have been served, and the task of the next one has failed. */
    ghost predicate Stopped()
      reads this`queue, this`served, this`buf, this`delivered
    {
      && served < |all| && AllYield(succeeds, all, served) && !succeeds(all[served])
      && buf == [] && queue == [] && delivered <= expected
    }

    ghost predicate Valid()
      reads this, iter, cipher
    {
      Fixed() && if errored then Stopped() else Flowing() && Handed(buf)
    }

    /** The state that `Download::new` starts from. */
    constructor (w: World, key: Key, slabs: seq<Slab>, offset: nat, length: nat, maxInflight: nat, hosts: Hosts,
                 ghost contents: seq<seq<Byte>>, ghost plain: seq<Byte>)
      requires w.Valid() && Stored(w, slabs, contents) && maxInflight > 0
      requires ObjectBytes(w, slabs, contents) == Crypt(w.objectBlock, key, 0, plain)
      requires |plain| <= MAX_BYTES_PER_NONCE && (length > 0 ==> offset + length <= |plain|)
      ensures Filling(this, 0) && fresh(cipher) && fresh(iter)
      ensures this.w == w && this.hosts == hosts && this.maxInflight == maxInflight
      ensures succeeds == OutcomeFor(w, hosts)
      ensures expected == Range(plain, offset, length)
      ensures (length > 0 ==> offset + length <= Size(slabs)) && all == RangeChunks(slabs, offset, length)
    {
      var it := new ChunkIter(slabs, CHUNK_SIZE, offset, length);
      StartInRange(slabs, offset, length);
      RangeTask(w, key, slabs, contents, plain, offset, length, it.slabIdx, it.offset);
      var c := new Chacha20Cipher(w.objectBlock, key, offset);
      this.w, this.hosts, this.maxInflight := w, hosts, maxInflight;
      this.succeeds := OutcomeFor(w, hosts);
      this.cipher := c;
      this.iter := it;
      this.buf, this.queue, this.errored := [], [], false;
      this.contents, this.all, this.from := contents, it.Rest(), offset;
      this.expected := Range(plain, offset, length);
      this.served, this.delivered := 0, [];
    }

    /** Starts the task of the next chunk, if there is one. */
    method SpawnNext()
      requires iter.Valid()
      modifies this`queue, iter
      ensures iter.Valid()
      ensures old(iter.Rest()) == [] ==> queue == old(queue) && iter.Rest() == []
      ensures old(iter.Rest()) != [] ==>
        queue == old(queue) + [old(iter.Rest())[0]] && iter.Rest() == old(iter.Rest())[1..]
    {
      var chunk := iter.Next();
      if chunk.Some? {
        queue := queue + [chunk.value];
      }
    }

    /** One of the calls of `spawn_next` with which `Download::new` fills the queue. */
    method SpawnInitial(ghost n: nat)
      requires Filling(this, n)
      modifies this`queue, iter
      ensures Filling(this, n + 1)
    {
      ghost var queue0, rest0 := queue, iter.Rest();
      SpawnNext();
      Fill(queue0, rest0, queue, iter.Rest(), all, n);
    }

    method SetErr()
      modifies this`errored, this`buf, this`queue
      ensures errored && buf == [] && queue == []
    {
      errored := true;
      buf := [];
      queue := [];
    }

    /** Hands out up to `max` bytes of the buffer. */
    method DrainBuf(max: nat) returns (out: seq<Byte>)
      requires Valid() && !errored
      modifies this`buf, this`delivered
      ensures Valid() && delivered == old(delivered) + out && out + buf == old(buf)
      ensures |out| == Min(max, |old(buf)|)
    {
      var toCopy := Min(max, |buf|);
      out := buf[..toCopy];
      buf := buf[toCopy..];
      delivered := delivered + out;
      assert delivered + buf == old(delivered + buf);
    }

    /** With an empty buffer, nothing is queued exactly when everything has been handed out. */
    lemma FrontOrEnd()
      requires Fixed() && Flowing() && Handed([])
      ensures queue == [] <==> delivered == expected
      ensures queue == [] ==> served == |all|
      ensures queue != [] ==> served < |all| && queue[0] == all[served]
    {
      AtEnd(w, cipher.key, contents, all, from, expected, served, delivered, queue, iter.Rest(), maxInflight);
    }

    /** The result of the task at the front of the queue. */
    method AwaitFront() returns (r: Result<seq<Byte>, DownloadError>)
      requires Fixed() && Flowing() && queue != []
      ensures served < |all| && queue[0] == all[served] && (r.Ok? <==> succeeds(all[served]))
      ensures r.Ok? ==> r.value == SlabBytes(queue[0].slab, contents[queue[0].index])
    {
      assert queue[0] == all[served];
      r := ChunkTask(w, hosts, queue[0], contents[queue[0].index]);
    }

    /** Decrypts a chunk in place. */
    method Decrypt(data: seq<Byte>) returns (out: seq<Byte>)
      modifies cipher
      ensures out == Output(cipher.block, cipher.key, old(cipher.State()), data)
      ensures cipher.State() == After(old(cipher.State()), |data|)
    {
      var result := new Byte[|data|](i requires 0 <= i < |data| => data[i]);
      assert result[..] == data;
      cipher.ApplyKeystream(result);
      out := result[..];
    }

    /** Takes the front off the queue and starts the task of the next chunk. */
    method PopAndSpawn()
      requires iter.Valid() && |queue| <= maxInflight && queue != [] && served < |all|
      requires Pipeline(queue, iter.Rest(), all[served..], maxInflight)
      modifies this`queue, iter
      ensures iter.Valid() && |queue| <= maxInflight
      ensures Pipeline(queue, iter.Rest(), all[served + 1..], maxInflight)
    {
      ghost var queue0, rest0 := queue, iter.Rest();
      queue := queue[1..];
      SpawnNext();
      Advance(queue0, rest0, queue, iter.Rest(), all[served..], maxInflight);
      assert all[served..][1..] == all[served + 1..];
    }

    /** Takes the data of the chunk at the front of the queue. */
    method TakeFront(data: seq<Byte>) returns (out: seq<Byte>)
      requires Fixed() && Flowing() && Handed([]) && queue != [] && queue[0] == all[served] && succeeds(all[served])
      requires data == SlabBytes(queue[0].slab, contents[queue[0].index])
      modifies this`queue, this`served, iter, cipher
      ensures Flowing() && Handed(out) && |out| == |data| && served == old(served) + 1
      ensures out == [] ==> SilentBefore()
    {
      PopAndSpawn();
      out := Decrypt(data);
      DecryptChunk(w, cipher.key, contents, all, from, expected, served, old(cipher.State()));
      NextBytes(expected, TotalLength(all[..served]), TotalLength(all[..served + 1]), delivered, out);
      served := served + 1;
    }

    /** The part that `poll_read` and `read_chunk` share: the result of the front task, decrypted, or the error. */
    method NextData() returns (r: Result<seq<Byte>, DownloadError>)
      requires Fixed() && Flowing() && Handed([]) && buf == [] && queue != [] && !errored
      modifies this`queue, this`served, this`buf, this`errored, iter, cipher
      ensures old(served) < |all| && (r.Ok? <==> succeeds(all[old(served)])) && buf == [] && (r.Err? <==> errored)
      ensures r.Err? ==> Stopped() && served == old(served)
      ensures r.Ok? ==> Flowing() && Handed(r.value) && served == old(served) + 1
      ensures r == Ok([]) ==> SilentBefore()
    {
      var res := AwaitFront();
      if res.Err? {
        SetErr();
        return Err(res.error);
      }
      var data := TakeFront(res.value);
      r := Ok(data);
    }

    /** `poll_read` when the front task is ready. */
    method PollFront(max: nat) returns (p: Poll)
      requires Fixed() && Flowing() && Handed([]) && buf == [] && queue != [] && !errored
      modifies this, iter, cipher
      ensures Valid() && old(served) <= served && !p.Pending? && (p.Failed? <==> errored)
      ensures p.Failed? ==> delivered == old(delivered)
      ensures p.Ready? ==> delivered == old(delivered) + p.bytes && |p.bytes| <= max
      ensures p.Ready? && p.bytes == [] && max > 0 ==> SilentBefore()
    {
      var res := NextData();
      if res.Err? {
        return Failed(res.error);
      }
      buf := res.value;
      var out := DrainBuf(max);
      p := Ready(out);
    }

    /** `poll_read` with room for `max` bytes; whether the front task is ready is left open. */
    method PollRead(max: nat) returns (p: Poll)
      requires Valid()
      modifies this, iter, cipher
      ensures Valid() && old(served) <= served
      ensures old(errored) ==> p == Failed(Errored)
      ensures p.Failed? ==> errored && delivered == old(delivered)
      ensures p.Pending? ==> delivered == old(delivered) && !errored
      ensures p.Ready? ==> delivered == old(delivered) + p.bytes && |p.bytes| <= max && !errored
      ensures p.Ready? && p.bytes == [] && max > 0 ==> delivered == expected || SilentBefore()
      ensures !old(errored) && old(delivered) == expected ==> p == Ready([])
    {
      if errored {
        return Failed(Errored);
      }
      if buf != [] {
        HandedAll();
        var out := DrainBuf(max);
        return Ready(out);
      }
      FrontOrEnd();
      if queue == [] {
        return Ready([]);
      }
      var ready: bool := *;
      if !ready {
        return Pending;
      }
      p := PollFront(max);
    }

    /** With bytes in the buffer not everything has been handed out. */
    lemma HandedAll()
      requires Handed(buf) && buf != []
      ensures delivered != expected
    {
      assert |delivered| < |delivered + buf| <= |expected|;
    }

    /** `read_chunk`: waits for the next whole chunk; no bytes mean the end. */
    method ReadChunk() returns (r: Result<seq<Byte>, DownloadError>)
      requires Valid()
      modifies this, iter, cipher
      ensures Valid() && old(served) <= served
      ensures old(errored) ==> r == Err(Errored)
      ensures r.Err? ==> errored && delivered == old(delivered)
      ensures r.Ok? ==> delivered == old(delivered) + r.value && !errored && buf == []
      ensures r.Ok? && r.value == [] ==> delivered == expected || SilentBefore()
      ensures !old(errored) && old(delivered) == expected ==> r == Ok([])
      ensures !old(errored) && old(buf) == [] ==>
        (r.Ok? <==> old(served) == |all| || succeeds(all[old(served)]))
        && served == if r.Ok? && old(served) < |all| then old(served) + 1 else old(served)
    {
      if errored {
        return Err(Errored);
      }
      if buf != [] {
        HandedAll();
        var rest := buf;
        HandedMore(rest);
        buf := [];
        delivered := delivered + rest;
        return Ok(rest);
      }
      FrontOrEnd();
      if queue == [] {
        return Ok([]);
      }
      r := NextData();
      if r.Ok? {
        HandedMore(r.value);
        delivered := delivered + r.value;
      }
    }

    /** Handing out what is there leaves nothing. */
    lemma HandedMore(data: seq<Byte>)
      requires Handed(data)
      ensures delivered + data <= expected && (delivered + data) + [] == expected[..TotalLength(all[..served])]
    {
    }

    /** A chunk without bytes has been handed out. */
    ghost predicate SilentBefore()
      reads this`served
    {
      exists i :: 0 <= i < served && i < |all| && all[i].slab.length == 0
    }
  }

  lemma NextBytes(bytes: seq<Byte>, n: nat, m: nat, front: seq<Byte>, next: seq<Byte>)
    requires n <= m <= |bytes| && front == bytes[..n] && next == bytes[n..m]
    ensures front + next == bytes[..m]
  {
  }

  ghost predicate NonEmptyChunks(chunks: seq<ChunkSlab>) {
    forall c :: c in chunks ==> c.slab.length > 0
  }

  /** When nothing is queued, everything has been handed out. */
  lemma AllServed(all: seq<ChunkSlab>, served: nat, rest: seq<ChunkSlab>, maxInflight: nat)
    requires served <= |all| && Pipeline([], rest, all[served..], maxInflight) && maxInflight > 0
    ensures served == |all| && all[..served] == all
  {
    assert rest == all[served..] == [];
  }

  lemma ExpectedLength(w: World, key: Key, contents: seq<seq<Byte>>, all: seq<ChunkSlab>, from: nat,
                       expected: seq<Byte>)
    requires Task(w, key, contents, all, from, expected)
    ensures |expected| == TotalLength(all)
  {
  }

  /** With an empty buffer, nothing is queued exactly when everything has been handed out: no chunk is left then
      that could still fail. */
  lemma AtEnd(w: World, key: Key, contents: seq<seq<Byte>>, all: seq<ChunkSlab>, from: nat, expected: seq<Byte>,
              served: nat, delivered: seq<Byte>, queue: seq<ChunkSlab>, rest: seq<ChunkSlab>, maxInflight: nat)
    requires Task(w, key, contents, all, from, expected) && served <= |all| && maxInflight > 0
    requires Pipeline(queue, rest, all[served..], maxInflight)
    requires TotalLength(all[..served]) <= |expected| && delivered == expected[..TotalLength(all[..served])]
    ensures queue == [] <==> delivered == expected
    ensures queue == [] ==> served == |all|
  {
    ExpectedLength(w, key, contents, all, from, expected);
    if queue != [] {
      BytesToCome(all, served);
    } else {
      AllServed(all, served, rest, maxInflight);
    }
  }

  /** Taking the front of the queue and starting the next task keeps the pipeline. */
  lemma Advance(queue: seq<ChunkSlab>, rest: seq<ChunkSlab>, queue': seq<ChunkSlab>, rest': seq<ChunkSlab>,
                todo: seq<ChunkSlab>, maxInflight: nat)
    requires Pipeline(queue, rest, todo, maxInflight) && queue != [] && |queue| <= maxInflight
    requires rest == [] ==> queue' == queue[1..] && rest' == []
    requires rest != [] ==> queue' == queue[1..] + [rest[0]] && rest' == rest[1..]
    ensures todo != [] && Pipeline(queue', rest', todo[1..], maxInflight) && |queue'| <= maxInflight
  {
  }

  function Range(plain: seq<Byte>, offset: nat, length: nat): seq<Byte>
    requires length > 0 ==> offset + length <= |plain|
  {
    if length > 0 then plain[offset..offset + length] else []
  }

  /** The chunks of a range of an object decrypt to that range of its plaintext. */
  lemma RangeTask(w: World, key: Key, slabs: seq<Slab>, contents: seq<seq<Byte>>, plain: seq<Byte>,
                  offset: nat, length: nat, idx: nat, off: nat)
    requires w.Valid() && Stored(w, slabs, contents)
    requires ObjectBytes(w, slabs, contents) == Crypt(w.objectBlock, key, 0, plain)
    requires |plain| <= MAX_BYTES_PER_NONCE && (length > 0 ==> offset + length <= |plain|)
    requires InRange(slabs, idx, off, length) && (length > 0 ==> Size(slabs[..idx]) + off == offset)
    ensures Task(w, key, contents, Chunks(slabs, CHUNK_SIZE, idx, off, length), offset, Range(plain, offset, length))
  {
    RangeBytes(w, slabs, contents, offset, length, idx, off);
    ChunksForward(slabs, CHUNK_SIZE, idx, off, length);
    RangePlain(w.objectBlock, key, plain, offset, length);
  }

  lemma RangePlain(block: Block, key: Key, plain: seq<Byte>, offset: nat, length: nat)
    requires length > 0 ==> offset + length <= |plain|
    ensures Crypt(block, key, offset, Range(Crypt(block, key, 0, plain), offset, length)) == Range(plain, offset, length)
  {
    if length > 0 {
      CryptSlice(block, key, plain, offset, offset + length);
    }
  }

  lemma RangeBytes(w: World, slabs: seq<Slab>, contents: seq<seq<Byte>>, offset: nat, length: nat, idx: nat, off: nat)
    requires Stored(w, slabs, contents) && InRange(slabs, idx, off, length)
    requires length > 0 ==> Size(slabs[..idx]) + off == offset && offset + length <= Size(slabs)
    ensures var chunks := Chunks(slabs, CHUNK_SIZE, idx, off, length);
      && ChunksHold(w, contents, chunks)
      && ChunkBytes(w, contents, chunks) == Range(ObjectBytes(w, slabs, contents), offset, length)
  {
    ChunksCover(w, slabs, contents, CHUNK_SIZE, idx, off, length);
    ObjectSuffix(w, slabs, contents, idx);
    if length > 0 {
      TailRange(ObjectBytes(w, slabs, contents), ObjectBytes(w, slabs[idx..], contents[idx..]),
                Size(slabs[..idx]), off, offset, length);
    }
  }

  lemma TailRange(bytes: seq<Byte>, tail: seq<Byte>, before: nat, off: nat, offset: nat, length: nat)
    requires before <= |bytes| && tail == bytes[before..] && before + off == offset
    requires 0 < length && offset + length <= |bytes|
    ensures tail[off..off + length] == Range(bytes, offset, length)
  {
  }

  lemma ObjectSuffix(w: World, slabs: seq<Slab>, contents: seq<seq<Byte>>, idx: nat)
    requires Stored(w, slabs, contents) && idx <= |slabs|
    ensures Size(slabs[..idx]) <= Size(slabs)
    ensures ObjectBytes(w, slabs[idx..], contents[idx..]) == ObjectBytes(w, slabs, contents)[Size(slabs[..idx])..]
  {
    if idx == 0 {
      assert slabs[0..] == slabs && contents[0..] == contents;
    } else {
      ObjectSuffix(w, slabs[1..], contents[1..], idx - 1);
      assert slabs[1..][idx - 1..] == slabs[idx..] && contents[1..][idx - 1..] == contents[idx..];
      assert slabs[..idx][1..] == slabs[1..][..idx - 1];
    }
  }

  /** `queue` and the chunks that the iterator still has are the chunks that are not served yet, and the
      queue is full as long as there are chunks to put into it. */
  ghost predicate Pipeline(queue: seq<ChunkSlab>, rest: seq<ChunkSlab>, todo: seq<ChunkSlab>, maxInflight: nat) {
    queue + rest == todo && (rest != [] ==> |queue| == maxInflight)
  }

  // ----- zero-length slabs

  /** A slab without bytes that lies strictly inside the range: the guard that a caller can check. */
  predicate EmptySlabInRange(slabs: seq<Slab>, offset: nat, length: nat) {
    exists j :: 0 <= j < |slabs| && slabs[j].length == 0 && offset < Size(slabs[..j]) < offset + length
  }

  lemma SizeSplit(slabs: seq<Slab>, i: nat, j: nat)
    requires i <= j <= |slabs|
    ensures Size(slabs[..j]) == Size(slabs[..i]) + Size(slabs[i..j])
  {
    assert slabs[..j] == slabs[..i] + slabs[i..j];
    SizeAppend(slabs[..i], slabs[i..j]);
  }

  lemma InsideRange(slabs: seq<Slab>, idx: nat, off: nat, offset: nat, rem: nat)
    requires idx < |slabs| && off < slabs[idx].length && Size(slabs[..idx]) + off == offset
    ensures EmptySlabInside(slabs, idx, off, rem) <==> EmptySlabInRange(slabs, offset, rem)
  {
    if EmptySlabInside(slabs, idx, off, rem) {
      var j :| idx <= j < |slabs| && slabs[j].length == 0 && Size(slabs[idx..j]) < off + rem;
      SizeSplit(slabs, idx, j);
      assert slabs[idx..j][0] == slabs[idx];
      assert offset < Size(slabs[..j]) < offset + rem;
    }
    if EmptySlabInRange(slabs, offset, rem) {
      var j :| 0 <= j < |slabs| && slabs[j].length == 0 && offset < Size(slabs[..j]) < offset + rem;
      if j < idx {
        SizeSplit(slabs, j, idx);
      } else {
        SizeSplit(slabs, idx, j);
      }
    }
  }

  /** The chunks of a range are all non-empty exactly when no empty slab lies strictly inside it. */
  lemma RangeNonEmpty(w: World, slabs: seq<Slab>, contents: seq<seq<Byte>>, idx: nat, off: nat, offset: nat,
                      length: nat)
    requires Stored(w, slabs, contents) && InRange(slabs, idx, off, length)
    requires idx < |slabs| ==> off < slabs[idx].length
    requires length > 0 ==> Size(slabs[..idx]) + off == offset
    ensures NonEmptyChunks(Chunks(slabs, CHUNK_SIZE, idx, off, length))
            <==> !(length > 0 && EmptySlabInRange(slabs, offset, length))
  {
    forall i | 0 <= i < |slabs| ensures slabs[i].length < U32 {
      assert Holds(w, slabs[i], contents[i]);
    }
    ChunksNonEmpty(slabs, CHUNK_SIZE, idx, off, length);
    assert NonEmptyChunks(Chunks(slabs, CHUNK_SIZE, idx, off, length))
           <==> !HasEmpty(Chunks(slabs, CHUNK_SIZE, idx, off, length));
    if length > 0 {
      InsideRange(slabs, idx, off, offset, length);
    }
  }

  // ----- whole downloads

  /** The bytes that a download of `length` bytes (or all) from `offset` should deliver. */
  function Wanted(plain: seq<Byte>, offset: nat, length: Option<nat>): seq<Byte> {
    if offset >= |plain| then []
    else if length.Some? && length.value <= |plain| - offset then plain[offset..offset + length.value]
    else plain[offset..]
  }

  /** Which bytes are wanted: those from the offset on that the object has, and no more than asked for. */
  lemma WantedExact(plain: seq<Byte>, offset: nat, length: Option<nat>, i: nat)
    ensures i < |Wanted(plain, offset, length)| <==> offset + i < |plain| && (length.Some? ==> i < length.value)
    ensures i < |Wanted(plain, offset, length)| ==> Wanted(plain, offset, length)[i] == plain[offset + i]
  {
  }

  /** `Download::new` */
  method Open(w: World, key: Key, slabs: seq<Slab>, offset: nat, length: Option<nat>, maxInflight: nat, hosts: Hosts,
              ghost contents: seq<seq<Byte>>, ghost plain: seq<Byte>)
    returns (r: Result<Download, DownloadError>)
    requires w.Valid() && Stored(w, slabs, contents) && |plain| <= MAX_BYTES_PER_NONCE
    requires ObjectBytes(w, slabs, contents) == Crypt(w.objectBlock, key, 0, plain)
    ensures if maxInflight == 0 then r == Err(Custom) else r.Ok?
    ensures r.Ok? ==> fresh(r.value) && fresh(r.value.iter) && fresh(r.value.cipher)
    ensures r.Ok? ==> r.value.Valid() && !r.value.errored && r.value.delivered == r.value.buf == []
    ensures r.Ok? ==> r.value.served == 0
    ensures r.Ok? ==> r.value.w == w && r.value.succeeds == OutcomeFor(w, hosts)
    ensures r.Ok? ==> r.value.maxInflight == maxInflight
    ensures r.Ok? ==> r.value.expected == Wanted(plain, offset, length)
    ensures r.Ok? ==> (Wanted(plain, offset, length) != [] ==> offset + |Wanted(plain, offset, length)| <= Size(slabs))
                      && r.value.all == RangeChunks(slabs, offset, |Wanted(plain, offset, length)|)
  {
    if maxInflight == 0 {
      return Err(Custom);
    }
    var size := Size(slabs);
    var available := if size <= offset then 0 else size - offset;
    var remaining := Min(if length.Some? then length.value else available, available);
    WantedRange(plain, offset, length, available, remaining);
    var d := new Download(w, key, slabs, offset, remaining, maxInflight, hosts, contents, plain);
    for i := 0 to maxInflight
      invariant fresh(d) && fresh(d.iter) && fresh(d.cipher) && Filling(d, i)
    {
      d.SpawnInitial(i);
    }
    Filled(d);
    r := Ok(d);
  }

  lemma Filled(d: Download)
    requires Filling(d, d.maxInflight)
    ensures d.Valid() && !d.errored && d.delivered == d.buf == [] && d.served == 0
  {
    assert d.all[..0] == [] && d.all[0..] == d.all;
  }

  lemma WantedRange(plain: seq<Byte>, offset: nat, length: Option<nat>, available: nat, remaining: nat)
    requires available == if |plain| <= offset then 0 else |plain| - offset
    requires remaining == Min(if length.Some? then length.value else available, available)
    ensures remaining > 0 ==> offset + remaining <= |plain|
    ensures Range(plain, offset, remaining) == Wanted(plain, offset, length)
    ensures |Wanted(plain, offset, length)| == remaining
  {
  }

  lemma Fill(queue: seq<ChunkSlab>, rest: seq<ChunkSlab>, queue': seq<ChunkSlab>, rest': seq<ChunkSlab>,
             all: seq<ChunkSlab>, n: nat)
    requires Pipeline(queue, rest, all, n) && |queue| <= n
    requires rest == [] ==> queue' == queue && rest' == []
    requires rest != [] ==> queue' == queue + [rest[0]] && rest' == rest[1..]
    ensures Pipeline(queue', rest', all, n + 1) && |queue'| <= n + 1
  {
  }

  /** The queue of a new download while it is being filled. */
  ghost predicate Filling(d: Download, n: nat)
    reads d, d.iter, d.cipher
  {
    && Task(d.w, d.cipher.key, d.contents, d.all, d.from, d.expected) && d.cipher.block == d.w.objectBlock
    && 0 < d.maxInflight && d.iter.Valid() && !d.errored && |d.queue| <= n
    && OutcomeOf(d.w, d.hosts, d.succeeds) && d.served == 0 && d.delivered == [] && d.buf == []
    && d.cipher.State() == Seek(d.from)
    && Pipeline(d.queue, d.iter.Rest(), d.all, n)
  }
}
