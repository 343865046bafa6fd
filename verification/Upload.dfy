/**
 * What an upload stores (sia_storage, upload.rs): the encrypted stream is read slab by slab, the shards that
 * `ReadSlabShards` fills are extended by parity shards and encrypted, and the slabs are read back by `RangeRead`.
 */
module Upload {
  import opened Prelude
  import opened Striping
  import opened Encryption
  import opened SlabRecovery
  import opened D = Download
  import opened RangeRead

  lemma StripeUnstripe(seg: nat, len: nat, shards: seq<seq<Byte>>)
    requires WholeSegments(seg, shards, len)
    ensures Striped(seg, |shards|, len, Unstriped(seg, shards, len)) == shards
  {
    var d := |shards|;
    var again := Striped(seg, d, len, Unstriped(seg, shards, len));
    forall i | 0 <= i < d ensures again[i] == shards[i] {
      forall p | 0 <= p < len ensures again[i][p] == shards[i][p] {
        LayoutInverseCell(seg, d, i, p);
        LayoutBound(seg, d, len, IndexOf(seg, d, i, p));
      }
    }
  }

  /** The slab of `n` bytes that an upload makes of filled data shards. */
  function UploadedSlab(w: World, key: Key, data: seq<seq<Byte>>, total: nat, n: nat): Slab
    requires Rectangular(data, w.sector)
  {
    Slab(key, |data|, seq(total, i requires 0 <= i < total =>
                            CryptShard(w.shardBlock, key, i, 0, CodeShard(w.ec, total, data, w.sector, i))),
         0, n)
  }

  /** An uploaded slab holds the bytes read for it, padded with what the shards held before. */
  lemma UploadHolds(w: World, key: Key, total: nat, stream: seq<Byte>, n: nat,
                    before: seq<seq<Byte>>, data: seq<seq<Byte>>)
    requires w.Geometry() && |before| == |data| <= total && |data| * w.sector < U32
    requires WholeSegments(w.seg, before, w.sector) && WholeSegments(w.seg, data, w.sector)
    requires n == Min(|stream|, |data| * w.sector)
    requires forall i, p :: 0 <= i < |data| && 0 <= p < w.sector ==>
      data[i][p] == Cell(w.seg, |data|, stream, n, i, p, before[i][p])
    ensures var slab := UploadedSlab(w, key, data, total, n);
            var content := stream[..n] + Unstriped(w.seg, before, w.sector)[n..];
            Holds(w, slab, content) && content[..slab.length] == stream[..n]
  {
    ReadThenUnstripe(w.seg, |data|, w.sector, stream, n, before, data);
    StripeUnstripe(w.seg, w.sector, data);
    var content := stream[..n] + Unstriped(w.seg, before, w.sector)[n..];
    assert content == Unstriped(w.seg, data, w.sector);
    var slab := UploadedSlab(w, key, data, total, n);
    forall i | 0 <= i < total ensures slab.sectors[i] == StoredShard(w, slab, content, i) {
    }
  }

  // ----- whole objects

  /** A read of the encrypting reader hands out what a `Source` over the encrypted data would, as long as the
      object stays within the first nonce span. */
  method EncryptedRead(reader: CipherReader, ghost base: nat, max: nat) returns (r: Result<seq<Byte>, ()>)
    requires reader.inner.Valid() && base + |reader.inner.data| <= MAX_BYTES_PER_NONCE
    requires InStep(reader.cipher.State(), base, reader.inner.pos, |reader.inner.data|)
    modifies reader.inner`pos, reader.cipher
    ensures reader.inner.Valid() && old(reader.inner.pos) <= reader.inner.pos <= old(reader.inner.pos) + max
    ensures InStep(reader.cipher.State(), base, reader.inner.pos, |reader.inner.data|)
    ensures r.Err? ==> reader.inner.pos == old(reader.inner.pos)
    ensures r.Ok? ==>
      r.value == Crypt(reader.cipher.block, reader.cipher.key, base,
                       reader.inner.data)[old(reader.inner.pos)..reader.inner.pos]
    ensures r.Ok? ==> (r.value == [] <==> max == 0 || old(reader.inner.pos) == |reader.inner.data|)
  {
    r := reader.PollRead(max);
    ghost var n, m := old(reader.inner.pos), reader.inner.pos - old(reader.inner.pos);
    NextCall(reader.cipher.block, reader.cipher.key, base, reader.inner.data, n, m, old(reader.cipher.State()));
  }

  /** A random slab key: any key. */
  method RandomKey() returns (key: Key)
  {
    key := *;
  }

  /** The first `d` rows of a buffer. */
  function Rows(shards: array2<Byte>, d: nat): (rows: seq<seq<Byte>>)
    requires d <= shards.Length0
    reads shards
    ensures |rows| == d && forall i :: 0 <= i < d ==> |rows[i]| == shards.Length1
  {
    seq(d, i requires 0 <= i < d reads shards =>
             seq(shards.Length1, p requires 0 <= p < shards.Length1 reads shards => shards[i, p]))
  }

  function Zeroes(d: nat, len: nat): seq<seq<Byte>> {
    seq(d, _ => seq(len, _ => 0))
  }

  /** One turn of the loop of `upload_slabs`: read a slab's worth of the stream, encode it and encrypt it. */
  method UploadSlab(w: World, r: Source, d: nat, total: nat)
    returns (slab: Result<Option<Slab>, ()>, ghost content: seq<Byte>)
    requires w.Geometry() && 0 < d <= total && d * w.sector < U32 && r.Valid()
    modifies r`pos
    ensures r.Valid() && old(r.pos) <= r.pos
    ensures slab.Ok? ==> (slab.value == None <==> old(r.pos) == |r.data|)
    ensures slab == Ok(None) ==> r.pos == old(r.pos)
    ensures slab.Ok? && slab.value.Some? ==>
      var s := slab.value.value;
      && old(r.pos) < r.pos && s.offset == 0 && s.length == r.pos - old(r.pos)
      && s.minShards == d && |s.sectors| == total && s.length == Min(d * w.sector, |r.data| - old(r.pos))
      && Holds(w, s, content) && SlabBytes(s, content) == r.data[old(r.pos)..r.pos]
  {
    content := [];
    ghost var stream := r.data[r.pos..];
    var shards := new Byte[total, w.sector]((i, p) => 0);
    var size := ReadSlabShards(w.seg, r, d, shards);
    if size.Err? {
      return Err(()), [];
    }
    ProductPositive(d, w.sector);
    var n := size.value;
    if n == 0 {
      return Ok(None), [];
    }
    var data := Rows(shards, d);
    var key := RandomKey();
    var stored: bool := *;
    if !stored {
      return Err(()), [];
    }
    slab := Ok(Some(UploadedSlab(w, key, data, total, n)));
    content := stream[..n] + Unstriped(w.seg, Zeroes(d, w.sector), w.sector)[n..];
    UploadHolds(w, key, total, stream, n, Zeroes(d, w.sector), data);
  }

  /** Every slab begins at the beginning of its sectors and has bytes. */
  predicate Fresh(slabs: seq<Slab>, d: nat, total: nat) {
    forall i :: 0 <= i < |slabs| ==>
      slabs[i].offset == 0 && slabs[i].length > 0 && slabs[i].minShards == d && |slabs[i].sectors| == total
  }

  lemma AppendToRest<T>(a: seq<T>, b: seq<T>)
    requires a != []
    ensures a + b == [a[0]] + (a[1..] + b)
  {
  }

  lemma ObjectBytesFront(w: World, slab: Slab, content: seq<Byte>, rest: seq<Slab>, restContents: seq<seq<Byte>>,
                         slabs: seq<Slab>, contents: seq<seq<Byte>>)
    requires Stored(w, rest, restContents) && Holds(w, slab, content)
    requires slabs == [slab] + rest && contents == [content] + restContents
    ensures Stored(w, slabs, contents)
    ensures ObjectBytes(w, slabs, contents) == SlabBytes(slab, content) + ObjectBytes(w, rest, restContents)
  {
    assert slabs[1..] == rest && contents[1..] == restContents;
  }

  lemma {:induction false} ObjectBytesAppend(w: World, slabs: seq<Slab>, contents: seq<seq<Byte>>, more: seq<Slab>,
                                             moreContents: seq<seq<Byte>>)
    requires Stored(w, slabs, contents) && Stored(w, more, moreContents)
    ensures Stored(w, slabs + more, contents + moreContents)
    ensures ObjectBytes(w, slabs + more, contents + moreContents)
         == ObjectBytes(w, slabs, contents) + ObjectBytes(w, more, moreContents)
  {
    if slabs == [] {
      assert slabs + more == more && contents + moreContents == moreContents;
    } else {
      var rest, restContents := slabs[1..], contents[1..];
      ObjectBytesAppend(w, rest, restContents, more, moreContents);
      var first := SlabBytes(slabs[0], contents[0]);
      assert ObjectBytes(w, slabs, contents) == first + ObjectBytes(w, rest, restContents);
      AppendToRest(slabs, more);
      AppendToRest(contents, moreContents);
      ObjectBytesFront(w, slabs[0], contents[0], rest + more, restContents + moreContents, slabs + more,
                       contents + moreContents);
    }
  }

  lemma OneSlab(w: World, slab: Slab, content: seq<Byte>)
    requires Holds(w, slab, content)
    ensures Stored(w, [slab], [content]) && ObjectBytes(w, [slab], [content]) == SlabBytes(slab, content)
  {
    assert ObjectBytes(w, [slab][1..], [content][1..]) == [];
  }

  /** Every slab but the last has all the bytes that a slab can have. */
  predicate Filled(slabs: seq<Slab>, capacity: nat) {
    forall i :: 0 <= i < |slabs| - 1 ==> slabs[i].length == capacity
  }

  /** What has been stored so far is filled, and a last slab that is not full ends the stream. */
  predicate Filling(slabs: seq<Slab>, capacity: nat, ended: bool) {
    Filled(slabs, capacity) && (slabs == [] || slabs[|slabs| - 1].length == capacity || ended)
  }

  lemma FillOne(slabs: seq<Slab>, capacity: nat, left: nat, next: Slab)
    requires Filling(slabs, capacity, left == 0) && left > 0 && next.length == Min(capacity, left)
    ensures Filling(slabs + [next], capacity, left == next.length)
  {
  }

  /** `upload_slabs`: the slabs hold the rest of the stream, each of them non-empty and all but the last full. */
  method UploadSlabs(w: World, r: Source, d: nat, total: nat)
    returns (res: Result<seq<Slab>, ()>, ghost contents: seq<seq<Byte>>)
    requires w.Geometry() && 0 < d <= total && d * w.sector < U32 && r.Valid()
    modifies r`pos
    ensures res.Ok? ==> Stored(w, res.value, contents) && Fresh(res.value, d, total)
                        && ObjectBytes(w, res.value, contents) == r.data[old(r.pos)..]
    ensures res.Ok? ==> Filled(res.value, d * w.sector)
  {
    var slabs: seq<Slab> := [];
    contents := [];
    while true
      invariant r.Valid() && old(r.pos) <= r.pos
      invariant Stored(w, slabs, contents) && Fresh(slabs, d, total)
      invariant Filling(slabs, d * w.sector, |r.data| - r.pos == 0)
      invariant ObjectBytes(w, slabs, contents) == r.data[old(r.pos)..r.pos]
      decreases |r.data| - r.pos
    {
      ghost var pos := r.pos;
      ghost var content: seq<Byte>;
      var next: Result<Option<Slab>, ()>;
      next, content := UploadSlab(w, r, d, total);
      if next.Err? {
        return Err(()), [];
      }
      if next.value == None {
        break;
      }
      OneSlab(w, next.value.value, content);
      FillOne(slabs, d * w.sector, |r.data| - pos, next.value.value);
      ObjectBytesAppend(w, slabs, contents, [next.value.value], [content]);
      assert r.data[old(r.pos)..pos] + r.data[pos..r.pos] == r.data[old(r.pos)..r.pos];
      slabs := slabs + [next.value.value];
      contents := contents + [content];
    }
    res := Ok(slabs);
  }

  lemma CryptAppend(block: Block, key: Key, a: seq<Byte>, b: seq<Byte>)
    ensures Crypt(block, key, 0, a + b) == Crypt(block, key, 0, a) + Crypt(block, key, |a|, b)
  {
  }

  /** `upload`: appends `data` to an object that holds `plain`; a new object holds nothing. */
  method UploadObject(w: World, key: Key, slabs: seq<Slab>, ghost contents: seq<seq<Byte>>, ghost plain: seq<Byte>,
                      data: seq<Byte>, d: nat, total: nat)
    returns (res: Result<seq<Slab>, ()>, ghost contents': seq<seq<Byte>>)
    requires w.Geometry() && 0 < d <= total && d * w.sector < U32
    requires Stored(w, slabs, contents) && ObjectBytes(w, slabs, contents) == Crypt(w.objectBlock, key, 0, plain)
    requires |plain| + |data| <= MAX_BYTES_PER_NONCE
    ensures res.Ok? ==> Size(res.value) == Size(slabs) + |data|
    ensures res.Ok? ==>
      && slabs <= res.value && Fresh(res.value[|slabs|..], d, total) && Stored(w, res.value, contents')
      && ObjectBytes(w, res.value, contents') == Crypt(w.objectBlock, key, 0, plain + data)
  {
    var r := new Source(Crypt(w.objectBlock, key, Size(slabs), data));
    var more: Result<seq<Slab>, ()>;
    ghost var moreContents: seq<seq<Byte>>;
    more, moreContents := UploadSlabs(w, r, d, total);
    if more.Err? {
      return Err(()), [];
    }
    ObjectBytesAppend(w, slabs, contents, more.value, moreContents);
    CryptAppend(w.objectBlock, key, plain, data);
    assert r.data[0..] == r.data;
    res := Ok(slabs + more.value);
    contents' := contents + moreContents;
  }

  /** Slabs with bytes never end a read early. */
  lemma NoEarlyEnd(w: World, slabs: seq<Slab>, offset: nat, length: nat)
    requires w.seg > 0 && forall i :: 0 <= i < |slabs| ==> slabs[i].length > 0
    ensures !EarlyEndInRange(w, slabs, offset, length)
  {
  }

  /** Upload, then read any range in any way: the reader gets what was uploaded, see `RangeRead.Faithful`. */
  method UploadThenRead(w: World, key: Key, data: seq<Byte>, d: nat, total: nat, offset: nat, length: Option<nat>,
                        maxInflight: nat, hosts: Hosts, ops: seq<ReadOp>)
    returns (results: Result<seq<Got>, ()>, slabs: seq<Slab>)
    requires w.Valid() && 0 < d <= total && d * w.sector < U32 && |data| <= MAX_BYTES_PER_NONCE && maxInflight > 0
    ensures results.Ok? ==> Size(slabs) == |data|
    ensures results.Ok? ==>
      var wanted := Wanted(data, offset, length);
      Faithful(OutcomeFor(w, hosts), RangeChunks(slabs, offset, |wanted|), wanted, false, ops, results.value)
  {
    var res: Result<seq<Slab>, ()>;
    ghost var contents: seq<seq<Byte>>;
    res, contents := UploadObject(w, key, [], [], [], data, d, total);
    if res.Err? {
      return Err(()), [];
    }
    slabs := res.value;
    assert [] + data == data;
    assert slabs[0..] == slabs;
    NoEarlyEnd(w, slabs, offset, |Wanted(data, offset, length)|);
    var got, error := ReadRange(w, key, slabs, offset, length, maxInflight, hosts, ops, contents, data);
    results := Ok(got);
  }

  // ----- a slab without bytes that ends a read early

  /** One data shard, no parity, no encryption, sectors of one segment of two bytes. */
  const TINY: World := World(2, 2, NoStream, NoStream, ErasureCode(NoParity, Identity, Given))

  function NoStream(key: Key, nonce: nat, pos: nat): Byte {
    0
  }

  predicate NoParity(k: nat, parity: nat) {
    parity == 0
  }

  function Identity(k: nat, total: nat, column: seq<Byte>, i: nat): Byte {
    if i < |column| then column[i] else 0
  }

  function Given(k: nat, total: nat, holes: seq<Option<Byte>>): seq<Byte> {
    seq(|holes|, i requires 0 <= i < |holes| => if holes[i].Some? then holes[i].value else 0)
  }

  lemma TinyValid()
    ensures TINY.Valid()
  {
    var ec := TINY.ec;
    forall k: nat, total: nat, column: seq<Byte>, holes: seq<Option<Byte>>
      | k <= total && ec.accepts(k, total - k) && ec.Matches(k, total, column, holes) && |Present(holes)| >= k
      ensures ec.reconstruct(k, total, holes) == column
    {
      AllPresent(holes);
    }
  }

  lemma AllPresent(holes: seq<Option<Byte>>)
    requires |Present(holes)| >= |holes|
    ensures forall i :: 0 <= i < |holes| ==> holes[i].Some?
  {
    forall i: nat | i < |holes| ensures holes[i].Some? {
      IndexSetBound(Present(holes) + {i}, |holes|);
    }
  }

  /** Three slabs over the same sector: a byte, no bytes from the second byte on, and a byte. */
  function Sandwich(slab: Slab): seq<Slab> {
    [slab.(offset := 0, length := 1), slab.(offset := 1, length := 0), slab.(offset := 0, length := 1)]
  }

  lemma SandwichStored(slab: Slab, content: seq<Byte>)
    requires Holds(TINY, slab, content) && slab.minShards == |slab.sectors| == 1
    ensures Stored(TINY, Sandwich(slab), [content, content, content]) && Size(Sandwich(slab)) == 2
    ensures EarlyEndInRange(TINY, Sandwich(slab), 0, 2)
  {
    var slabs := Sandwich(slab);
    forall i | 0 <= i < 3 ensures Holds(TINY, slabs[i], content) {
      forall j | 0 <= j < |slabs[i].sectors| ensures slabs[i].sectors[j] == StoredShard(TINY, slabs[i], content, j) {
        assert slab.sectors[j] == StoredShard(TINY, slab, content, j);
      }
    }
    assert Start(slabs, 0, 0) == (0, 0);
    assert slabs[0..1] == [slabs[0]];
    assert EarlyAt(TINY, slabs, 0, 0, 2, 1);
  }

  const TINY_SLAB: Slab := UploadedSlab(TINY, [], [[5, 6]], 1, 2)

  lemma TinySlabHolds()
    ensures Holds(TINY, TINY_SLAB, [5, 6])
  {
    var data: seq<seq<Byte>>, before: seq<seq<Byte>> := [[5, 6]], [[0, 0]];
    forall i, p | 0 <= i < 1 && 0 <= p < 2 ensures data[i][p] == Cell(2, 1, [5, 6], 2, i, p, before[i][p]) {
      assert IndexOf(2, 1, 0, p) == p;
    }
    UploadHolds(TINY, [], 1, [5, 6], 2, before, data);
    assert [5, 6][..2] + Unstriped(2, before, 2)[2..] == [5, 6];
  }

  function SandwichChunks(): seq<ChunkSlab> {
    TinySlabHolds();
    SandwichStored(TINY_SLAB, [5, 6]);
    RangeChunks(Sandwich(TINY_SLAB), 0, 2)
  }

  /** An object of two bytes with a slab without bytes between them: whole-chunk reads are told the end while a byte
      is still wanted. */
  lemma EmptySlabEndsEarly(hosts: Hosts, wanted: seq<Byte>, ops: seq<ReadOp>, results: seq<Got>) returns (k: nat)
    requires |wanted| == 2 && AllWhole(ops) && |ops| >= |SandwichChunks()|
    requires forall c :: c in SandwichChunks() ==> Answered(hosts, c)
    requires Faithful(OutcomeFor(TINY, hosts), SandwichChunks(), wanted, true, ops, results)
    ensures TINY.Valid() && Stored(TINY, Sandwich(TINY_SLAB), [[5, 6], [5, 6], [5, 6]])
    ensures k < |results| && results[k].end && |Delivered(results[..k + 1])| < 2
  {
    TinyValid();
    TinySlabHolds();
    SandwichStored(TINY_SLAB, [5, 6]);
    StoredNarrow(TINY, Sandwich(TINY_SLAB), [[5, 6], [5, 6], [5, 6]]);
    k := EarlyEnd(TINY, hosts, Sandwich(TINY_SLAB), 0, wanted, ops, results);
  }

  lemma SandwichPlain()
    ensures Stored(TINY, Sandwich(TINY_SLAB), [[5, 6], [5, 6], [5, 6]])
    ensures ObjectBytes(TINY, Sandwich(TINY_SLAB), [[5, 6], [5, 6], [5, 6]]) == Crypt(TINY.objectBlock, [], 0, [5, 5])
  {
    TinySlabHolds();
    SandwichStored(TINY_SLAB, [5, 6]);
    var slabs := Sandwich(TINY_SLAB);
    var contents: seq<seq<Byte>> := [[5, 6], [5, 6], [5, 6]];
    assert slabs[1..][1..] == [slabs[2]] && contents[1..][1..] == [contents[2]];
    assert SlabBytes(slabs[0], contents[0]) == [5] && SlabBytes(slabs[1], contents[1]) == [];
    OneSlab(TINY, slabs[2], contents[2]);
    assert ObjectBytes(TINY, slabs[1..], contents[1..]) == [] + [5];
  }

  predicate Everyone(c: ChunkSlab, i: nat) {
    true
  }

  lemma {:induction false} AllReachable(r: seq<bool>)
    requires forall i :: 0 <= i < |r| ==> r[i]
    ensures |Reachable(r)| == |r|
  {
    if r != [] {
      AllReachable(r[..|r| - 1]);
      assert Reachable(r) == Reachable(r[..|r| - 1]) + {|r| - 1};
    }
  }

  lemma EveryoneAnswers(w: World, contents: seq<seq<Byte>>, chunks: seq<ChunkSlab>, i: nat)
    requires ChunksHold(w, contents, chunks) && i < |chunks|
    ensures Answered(Everyone, chunks[i])
  {
    assert Holds(w, chunks[i].slab, contents[chunks[i].index]);
    var r := Reach(Everyone, chunks[i]);
    forall j: nat | j < |r| ensures r[j] {
      assert r[j] == Everyone(chunks[i], j);
    }
    AllReachable(r);
  }

  lemma SandwichHolds()
    ensures ChunksHold(TINY, [[5, 6], [5, 6], [5, 6]], SandwichChunks())
  {
    SandwichPlain();
    var slabs := Sandwich(TINY_SLAB);
    StartInRange(slabs, 0, 2);
    var (idx, off) := Start(slabs, 0, 0);
    ChunksCover(TINY, slabs, [[5, 6], [5, 6], [5, 6]], CHUNK_SIZE, idx, off, 2);
  }

  /** The run itself: every host answers, and one of the reads of three chunks is told the end too early. */
  method SandwichRun() returns (results: seq<Got>)
    ensures exists k :: 0 <= k < |results| && results[k].end && |Delivered(results[..k + 1])| < 2
  {
    TinyValid();
    SandwichPlain();
    var n := |SandwichChunks()|;
    var ops := seq(n, _ => WholeChunk);
    var error: Option<DownloadError>;
    results, error := ReadRange(TINY, [], Sandwich(TINY_SLAB), 0, None, 1, Everyone, ops,
                                [[5, 6], [5, 6], [5, 6]], [5, 5]);
    SandwichHolds();
    forall c | c in SandwichChunks() ensures Answered(Everyone, c) {
      var i: nat :| i < n && SandwichChunks()[i] == c;
      EveryoneAnswers(TINY, [[5, 6], [5, 6], [5, 6]], SandwichChunks(), i);
    }
    var k := EmptySlabEndsEarly(Everyone, [5, 5], ops, results);
  }
}
