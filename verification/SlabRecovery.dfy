/**
 * Recovery of a byte range of one slab (sia_storage, download.rs): the segment-aligned window, the race
 * for enough shards, decryption, reconstruction and un-striping.
 *
 * The erasure code and the keystreams are parameters; `World.Valid` states what is assumed of them.
 */
module SlabRecovery {
  import opened Prelude
  import opened Striping
  import opened Encryption

  datatype DownloadError = NotEnoughShards(got: nat, want: nat) | InvalidSlab | Encoder | Custom | Errored

  /** A systematic erasure code that works column by column: `code(k, total, column, i)` is the byte that
      shard `i` of `total` carries for a column of `k` data bytes. */
  datatype ErasureCode = ErasureCode(
    accepts: (nat, nat) -> bool,
    code: (nat, nat, seq<Byte>, nat) -> Byte,
    reconstruct: (nat, nat, seq<Option<Byte>>) -> seq<Byte>)
  {
    ghost predicate Matches(k: nat, total: nat, column: seq<Byte>, holes: seq<Option<Byte>>) {
      && |column| == k && |holes| == total
      && forall i :: 0 <= i < total && holes[i].Some? ==> holes[i].value == code(k, total, column, i)
    }

    /** Any `k` bytes of a column determine its data bytes. */
    ghost predicate Determines() {
      && (forall k: nat, total: nat, column: seq<Byte>, i: nat ::
            i < k == |column| ==> code(k, total, column, i) == column[i])
      && (forall k: nat, total: nat, column, holes ::
            k <= total && accepts(k, total - k) && Matches(k, total, column, holes) && |Present(holes)| >= k ==>
              reconstruct(k, total, holes) == column)
    }
  }

  datatype World = World(seg: nat, sector: nat, shardBlock: Block, objectBlock: Block, ec: ErasureCode) {
    predicate Geometry() {
      seg > 0 && sector > 0 && sector % seg == 0
    }

    ghost predicate Valid() {
      Geometry() && ec.Determines()
    }
  }

  /** A slab as the object's metadata describes it; `sectors` is what the hosts store for it. */
  datatype Slab = Slab(key: Key, minShards: nat, sectors: seq<seq<Byte>>, offset: nat, length: nat)

  function Present<T>(shards: seq<Option<T>>): (s: set<nat>)
    ensures |s| <= |shards|
  {
    var s := set i: nat | i < |shards| && shards[i].Some?;
    IndexSetBound(s, |shards|);
    s
  }

  // ----- what a stored slab is

  function Column(shards: seq<seq<Byte>>, len: nat, p: nat): (c: seq<Byte>)
    requires Rectangular(shards, len) && p < len
    ensures |c| == |shards|
  {
    seq(|shards|, i requires 0 <= i < |shards| => shards[i][p])
  }

  /** Shard `i` of the code word of the given data shards. */
  function CodeShard(ec: ErasureCode, total: nat, data: seq<seq<Byte>>, len: nat, i: nat): (s: seq<Byte>)
    requires Rectangular(data, len)
    ensures |s| == len
  {
    seq(len, p requires 0 <= p < len => ec.code(|data|, total, Column(data, len, p), i))
  }

  /** The slab's sectors are the encrypted shards of `content`, and its range lies within `content`. */
  ghost predicate Holds(w: World, slab: Slab, content: seq<Byte>) {
    && w.Geometry()
    && 0 < slab.minShards <= |slab.sectors|
    && |content| == slab.minShards * w.sector
    && slab.offset + slab.length <= |content| < U32
    && (forall i :: 0 <= i < |slab.sectors| ==> |slab.sectors[i]| == w.sector)
    && (forall i {:trigger StoredShard(w, slab, content, i)} ::
          0 <= i < |slab.sectors| ==> slab.sectors[i] == StoredShard(w, slab, content, i))
  }

  function StoredShard(w: World, slab: Slab, content: seq<Byte>, i: nat): (s: seq<Byte>)
    requires w.Geometry() && 0 < slab.minShards && |content| == slab.minShards * w.sector
    ensures |s| == w.sector
  {
    var data := Striped(w.seg, slab.minShards, w.sector, content);
    CryptShard(w.shardBlock, slab.key, i, 0, CodeShard(w.ec, |slab.sectors|, data, w.sector, i))
  }

  /** A stored byte is that of its code shard under the slab's own key, at the nonce of its shard. */
  lemma StoredByte(w: World, slab: Slab, content: seq<Byte>, i: nat, p: nat)
    requires Holds(w, slab, content) && i < |slab.sectors| && i < 256 && p < w.sector
    ensures var data := Striped(w.seg, slab.minShards, w.sector, content);
      slab.sectors[i][p]
      == w.ec.code(slab.minShards, |slab.sectors|, Column(data, w.sector, p), i) ^ w.shardBlock(slab.key, i, p)
  {
    assert slab.sectors[i] == StoredShard(w, slab, content, i);
  }

  predicate ValidCounts(slab: Slab) {
    0 < slab.minShards <= |slab.sectors|
  }

  /** Enough shards of the slab's range decode: the erasure code accepts the shard counts, and the window is not
      empty, which it is exactly for a range without bytes that begins a row of segments. */
  predicate Decodes(w: World, slab: Slab)
    requires w.seg > 0 && ValidCounts(slab)
  {
    ProductPositive(w.seg, slab.minShards);
    && w.ec.accepts(slab.minShards, |slab.sectors| - slab.minShards)
    && (slab.length > 0 || slab.offset % (w.seg * slab.minShards) != 0)
  }

  lemma ProductPositive(a: nat, b: nat)
    requires a > 0 && b > 0
    ensures a * b > 0
  {
  }

  // ----- the segment-aligned window

  function WindowStart(seg: nat, k: nat, offset: nat): nat
    requires seg * k > 0
  {
    offset / (seg * k) * seg
  }

  function WindowEnd(seg: nat, k: nat, offset: nat, length: nat): nat
    requires seg * k > 0
  {
    CeilDiv(offset + length, seg * k) * seg
  }

  /** The window lies within the sector, consists of whole segments, and holds the whole range. */
  lemma WindowFits(seg: nat, sector: nat, k: nat, offset: nat, length: nat)
    requires seg > 0 && k > 0 && sector % seg == 0 && offset + length <= k * sector
    ensures seg * k > 0
    ensures WindowStart(seg, k, offset) <= WindowEnd(seg, k, offset, length) <= sector
    ensures WindowStart(seg, k, offset) % seg == 0
    ensures (WindowEnd(seg, k, offset, length) - WindowStart(seg, k, offset)) % seg == 0
    ensures k * WindowStart(seg, k, offset) + offset % (seg * k) == offset
    ensures offset + length <= k * WindowEnd(seg, k, offset, length)
  {
    MulMono(1, k, seg);
    var chunk := seg * k;
    var rows := sector / seg;
    DivModDef(sector, seg);
    var a, b := offset / chunk, CeilDiv(offset + length, chunk);
    DivModDef(offset, chunk);
    CeilBound(offset + length, chunk);
    MulSwap(k, rows, seg);
    MulSwap(k, a, seg);
    MulSwap(k, b, seg);
    WindowOrder(a, b, rows, chunk, offset, length);
    MulMono(a, b, seg);
    MulMono(b, rows, seg);
    DivModOf(a, 0, seg);
    MulDistributes(b - a, a, seg);
    DivModOf(b - a, 0, seg);
  }

  lemma CeilBound(n: nat, m: nat)
    requires m > 0
    ensures n <= CeilDiv(n, m) * m < n + m
  {
    DivModDef(n + m - 1, m);
  }

  lemma WindowOrder(a: nat, b: nat, rows: nat, chunk: nat, offset: nat, length: nat)
    requires chunk > 0 && a * chunk <= offset && offset + length <= rows * chunk
    requires offset + length <= b * chunk < offset + length + chunk
    ensures a <= b <= rows
  {
    if a > b {
      MulMono(b, a, chunk);
      MultipleGap(b, a, chunk);
    }
    if b > rows {
      MulMono(rows + 1, b, chunk);
      MulDistributes(rows, 1, chunk);
    }
  }

  // ----- the race for shards

  function Reachable(reachable: seq<bool>): set<nat> {
    set i: nat | i < |reachable| && reachable[i]
  }

  function Elements<T>(s: seq<T>): set<T> {
    set x | x in s
  }

  /** Every sector is waiting, in flight, recovered or failed. */
  datatype RaceState = RaceState(sectors: seq<nat>, inflight: set<nat>, done: set<nat>, failed: set<nat>)

  /** A read is issued for the next waiting sector, or the read of sector `index` ends. */
  datatype Event = Spawn | Finish(index: nat)

  function Step(reachable: seq<bool>, s: RaceState, e: Event): RaceState {
    match e
    case Spawn =>
      if s.sectors == [] then s
      else s.(sectors := s.sectors[1..], inflight := s.inflight + {s.sectors[0]})
    case Finish(i) =>
      if i !in s.inflight then s
      else if i < |reachable| && reachable[i] then s.(inflight := s.inflight - {i}, done := s.done + {i})
      else s.(inflight := s.inflight - {i}, failed := s.failed + {i})
  }

  function RaceAfter(order: seq<nat>, reachable: seq<bool>, events: seq<Event>): RaceState {
    if events == [] then RaceState(order, {}, {}, {})
    else Step(reachable, RaceAfter(order, reachable, events[..|events| - 1]), events[|events| - 1])
  }

  lemma RaceExtend(order: seq<nat>, reachable: seq<bool>, events: seq<Event>, e: Event)
    ensures RaceAfter(order, reachable, events + [e]) == Step(reachable, RaceAfter(order, reachable, events), e)
  {
    assert (events + [e])[..|events|] == events;
  }

  ghost predicate Order(order: seq<nat>, n: nat) {
    Distinct(order) && |order| == n && forall i :: 0 <= i < |order| ==> order[i] < n
  }

  ghost predicate Bookkeeping(order: seq<nat>, reachable: seq<bool>, s: RaceState) {
    && |s.sectors| <= |order| && s.sectors == order[|order| - |s.sectors|..]
    && Elements(order[..|order| - |s.sectors|]) == s.inflight + s.done + s.failed
    && s.inflight !! s.done && s.inflight !! s.failed && s.done !! s.failed
    && s.done <= Reachable(reachable) && s.failed !! Reachable(reachable)
  }

  lemma {:induction false} RaceInvariant(order: seq<nat>, reachable: seq<bool>, events: seq<Event>)
    requires Order(order, |reachable|)
    ensures Bookkeeping(order, reachable, RaceAfter(order, reachable, events))
  {
    if events == [] {
      assert order[..0] == [];
    } else {
      var before := events[..|events| - 1];
      RaceInvariant(order, reachable, before);
      var s := RaceAfter(order, reachable, before);
      if events[|events| - 1] == Spawn && s.sectors != [] {
        var n := |order| - |s.sectors|;
        assert order[..n + 1] == order[..n] + [order[n]];
        assert Elements(order[..n + 1]) == Elements(order[..n]) + {order[n]};
        assert order[n] !in order[..n];
      }
    }
  }

  lemma ThreeWay<T>(a: set<T>, b: set<T>, c: set<T>)
    requires a !! b && a !! c && b !! c
    ensures |a + b + c| == |a| + |b| + |c|
  {
  }

  /** The sectors are conserved, and asked for in the given order. */
  lemma RaceCount(order: seq<nat>, reachable: seq<bool>, events: seq<Event>)
    requires Order(order, |reachable|)
    ensures var s := RaceAfter(order, reachable, events);
      && |s.inflight| + |s.done| + |s.failed| + |s.sectors| == |order|
      && |s.done| <= |Reachable(reachable)| <= |order| - |s.failed|
      && forall i :: i in s.inflight ==> i < |order|
  {
    RaceInvariant(order, reachable, events);
    var s := RaceAfter(order, reachable, events);
    var requested := order[..|order| - |s.sectors|];
    DistinctCard(requested);
    ThreeWay(s.inflight, s.done, s.failed);
    SubsetCard(s.done, Reachable(reachable));
    forall i | i in Elements(requested) ensures i < |order| {
    }
    IndexSetBound(s.failed + Reachable(reachable), |order|);
    ThreeWay(s.failed, Reachable(reachable), {});
    assert s.failed + Reachable(reachable) + {} == s.failed + Reachable(reachable);
  }

  /** A sector in flight is neither waiting nor finished, so no sector is asked for twice. */
  lemma RaceDisjoint(order: seq<nat>, reachable: seq<bool>, events: seq<Event>, i: nat)
    requires Order(order, |reachable|) && i in RaceAfter(order, reachable, events).inflight
    ensures i !in RaceAfter(order, reachable, events).done
  {
    RaceInvariant(order, reachable, events);
  }

  /** Sector `i` of the window, as a host returns it. */
  function ReadSector(slab: Slab, start: nat, end: nat, i: nat): seq<Byte>
    requires i < |slab.sectors| && start <= end <= |slab.sectors[i]|
  {
    slab.sectors[i][start..end]
  }

  predicate WindowInSectors(slab: Slab, start: nat, end: nat) {
    start <= end && forall i :: 0 <= i < |slab.sectors| ==> end <= |slab.sectors[i]|
  }

  /** The slots after the reads of the sectors in `done`: each holds the window of its own sector. */
  function Slots(slab: Slab, start: nat, end: nat, done: set<nat>): (shards: seq<Option<seq<Byte>>>)
    requires WindowInSectors(slab, start, end)
    ensures |shards| == |slab.sectors|
  {
    seq(|slab.sectors|, i requires 0 <= i < |slab.sectors| =>
      if i in done then Some(ReadSector(slab, start, end, i)) else None)
  }

  lemma SlotsGrow(slab: Slab, start: nat, end: nat, done: set<nat>, i: nat)
    requires WindowInSectors(slab, start, end) && i < |slab.sectors|
    ensures Slots(slab, start, end, done)[i := Some(ReadSector(slab, start, end, i))]
         == Slots(slab, start, end, done + {i})
  {
  }

  /** Starts the read of the next sector in order of preference. */
  method SpawnNext(order: seq<nat>, reachable: seq<bool>, sectors: seq<nat>, inflight: set<nat>,
                   ghost events: seq<Event>, ghost s: RaceState)
    returns (sectors': seq<nat>, inflight': set<nat>, ghost events': seq<Event>, ghost s': RaceState)
    requires s == RaceAfter(order, reachable, events) && sectors == s.sectors != [] && inflight == s.inflight
    ensures s' == RaceAfter(order, reachable, events') && sectors' == s'.sectors && inflight' == s'.inflight
    ensures |sectors'| == |sectors| - 1 && |inflight'| <= |inflight| + 1 && s'.done == s.done && s'.failed == s.failed
  {
    RaceExtend(order, reachable, events, Spawn);
    events', s' := events + [Spawn], Step(reachable, s, Spawn);
    inflight' := inflight + {sectors[0]};
    sectors' := sectors[1..];
  }

  /** The first loop of `recover_shards`: asks for as many sectors as shards are needed, or for all there are. */
  method SpawnFirst(minShards: nat, order: seq<nat>, reachable: seq<bool>)
    returns (sectors: seq<nat>, inflight: set<nat>, spawned: nat, ghost events: seq<Event>, ghost s: RaceState)
    ensures s == RaceAfter(order, reachable, events) && sectors == s.sectors && inflight == s.inflight
    ensures s.done == s.failed == {} && spawned == Min(minShards, |order|) == |order| - |sectors|
  {
    sectors, inflight, spawned := order, {}, 0;
    events, s := [], RaceState(order, {}, {}, {});
    for i := 0 to minShards
      invariant s == RaceAfter(order, reachable, events) && sectors == s.sectors && inflight == s.inflight
      invariant |sectors| == |order| - i && s.done == s.failed == {} && spawned == i
    {
      if sectors == [] {
        return;
      }
      sectors, inflight, events, s := SpawnNext(order, reachable, sectors, inflight, events, s);
      spawned := spawned + 1;
    }
  }

  /** A read that has ended: its sector fills its slot, or is given up. */
  method FinishRead(slab: Slab, start: nat, end: nat, order: seq<nat>, reachable: seq<bool>, index: nat,
                    inflight: set<nat>, shards: seq<Option<seq<Byte>>>, ghost events: seq<Event>, ghost s: RaceState)
    returns (ok: bool, inflight': set<nat>, shards': seq<Option<seq<Byte>>>, ghost events': seq<Event>,
             ghost s': RaceState)
    requires |slab.sectors| == |reachable| && Order(order, |slab.sectors|) && WindowInSectors(slab, start, end)
    requires s == RaceAfter(order, reachable, events) && inflight == s.inflight && index in inflight
    requires shards == Slots(slab, start, end, s.done)
    ensures events' == events + [Finish(index)] && (ok <==> index in Reachable(reachable))
    ensures s' == RaceAfter(order, reachable, events') && inflight' == s'.inflight && |inflight'| == |inflight| - 1
    ensures shards' == Slots(slab, start, end, s'.done) && s'.sectors == s.sectors
    ensures |s'.done| == |s.done| + (if ok then 1 else 0) && |s'.failed| == |s.failed| + (if ok then 0 else 1)
    ensures |inflight'| + |s'.done| + |s'.failed| + |s'.sectors| == |order|
    ensures |s'.done| <= |Reachable(reachable)| <= |order| - |s'.failed|
  {
    RaceCount(order, reachable, events);
    RaceDisjoint(order, reachable, events, index);
    RaceExtend(order, reachable, events, Finish(index));
    events', s' := events + [Finish(index)], Step(reachable, s, Finish(index));
    inflight' := inflight - {index};
    RaceCount(order, reachable, events');
    ok := reachable[index];
    shards' := shards;
    if ok {
      SlotsGrow(slab, start, end, s.done, index);
      shards' := shards[index := Some(ReadSector(slab, start, end, index))];
    }
  }

  /** `recover_shards` after the window is known: reads are started for as many sectors as are needed, and one more
      for every read that fails and every time the timer fires.  `order` is the order in which hosts are preferred and
      `reachable` says which sector reads succeed; which read finishes next, and when the 500 ms timer
      fires, is left open. */
  method RecoverShards(slab: Slab, start: nat, end: nat, order: seq<nat>, reachable: seq<bool>)
    returns (r: Result<seq<Option<seq<Byte>>>, DownloadError>, ghost events: seq<Event>, ghost s: RaceState,
             ghost timers: nat)
    requires 0 < slab.minShards && |slab.sectors| == |reachable| && Order(order, |slab.sectors|)
    requires WindowInSectors(slab, start, end)
    ensures s == RaceAfter(order, reachable, events)
    ensures |order| - |s.sectors| == Min(|order|, slab.minShards + |s.failed| + timers)
    ensures r.Ok? <==> |Reachable(reachable)| >= slab.minShards
    ensures r.Err? ==> r.error.NotEnoughShards? && r.error.got < slab.minShards == r.error.want
    ensures r.Ok? ==> r.value == Slots(slab, start, end, s.done) && |s.done| == slab.minShards
  {
    timers := 0;
    var minShards := slab.minShards;
    var shards: seq<Option<seq<Byte>>> := seq(|slab.sectors|, _ => None);
    var sectors: seq<nat>, inflight: set<nat>, spawned: nat;
    sectors, inflight, spawned, events, s := SpawnFirst(minShards, order, reachable);
    if spawned < minShards {
      IndexSetBound(Reachable(reachable), |reachable|);
      return Err(NotEnoughShards(spawned, minShards)), events, s, timers;
    }
    var recovered: nat := 0;
    while true
      invariant s == RaceAfter(order, reachable, events) && sectors == s.sectors && inflight == s.inflight
      invariant |s.done| == recovered < minShards && shards == Slots(slab, start, end, s.done)
      invariant |order| - |s.failed| >= minShards
      invariant |order| - |sectors| == Min(|order|, minShards + |s.failed| + timers)
      decreases 2 * |sectors| + |inflight|
    {
      RaceCount(order, reachable, events);
      // one of the two branches of the select is always enabled
      assert inflight != {} || sectors != [];
      var timer := *;
      if sectors != [] && (timer || inflight == {}) {
        sectors, inflight, events, s := SpawnNext(order, reachable, sectors, inflight, events, s);
        timers := timers + 1;
      } else {
        var index :| index in inflight;
        var ok: bool;
        ok, inflight, shards, events, s :=
          FinishRead(slab, start, end, order, reachable, index, inflight, shards, events, s);
        if ok {
          recovered := recovered + 1;
          if recovered >= minShards {
            return Ok(shards), events, s, timers;
          }
        } else if recovered + |inflight| + |sectors| < minShards {
          return Err(NotEnoughShards(recovered, minShards)), events, s, timers;
        } else if sectors != [] {
          sectors, inflight, events, s := SpawnNext(order, reachable, sectors, inflight, events, s);
        }
      }
    }
  }

  // ----- decoding the recovered window

  function DecryptSlots(block: Block, key: Key, offset: nat, shards: seq<Option<seq<Byte>>>)
    : (r: seq<Option<seq<Byte>>>)
    ensures |r| == |shards|
  {
    seq(|shards|, i requires 0 <= i < |shards| =>
      if shards[i].Some? then Some(CryptShard(block, key, i, offset, shards[i].value)) else None)
  }

  /** `encrypt_recovered_shards`: decrypts the filled slots, each with its own index. */
  method EncryptRecoveredShards(block: Block, key: Key, offset: nat, shards: seq<Option<seq<Byte>>>)
    returns (r: seq<Option<seq<Byte>>>)
    ensures r == DecryptSlots(block, key, offset, shards)
    ensures forall i, k ::
      0 <= i < |r| && i < 256 && r[i].Some? && 0 <= k < |r[i].value| ==>
        shards[i].Some? && |shards[i].value| == |r[i].value|
        && r[i].value[k] == shards[i].value[k] ^ block(key, i, offset + k)
  {
    r := shards;
    for i := 0 to |shards|
      invariant |r| == |shards|
      invariant forall j :: 0 <= j < |r| ==>
        r[j] == if j < i then DecryptSlots(block, key, offset, shards)[j] else shards[j]
    {
      if shards[i].Some? {
        var bytes := shards[i].value;
        var shard := new Byte[|bytes|](j requires 0 <= j < |bytes| => bytes[j]);
        assert shard[..] == bytes;
        EncryptShard(block, key, i, offset, shard);
        r := r[i := Some(shard[..])];
      }
    }
  }

  predicate SlotLength(shards: seq<Option<seq<Byte>>>, len: nat) {
    forall i :: 0 <= i < |shards| && shards[i].Some? ==> |shards[i].value| == len
  }

  function SlotColumn(shards: seq<Option<seq<Byte>>>, len: nat, p: nat): (c: seq<Option<Byte>>)
    requires SlotLength(shards, len) && p < len
    ensures |c| == |shards|
  {
    seq(|shards|, i requires 0 <= i < |shards| => if shards[i].Some? then Some(shards[i].value[p]) else None)
  }

  /** `reconstruct_data_shards`: present data shards are kept, missing ones filled in column by column.
      Too few shards, or shards without bytes, are refused. */
  function Reconstruct(ec: ErasureCode, k: nat, len: nat, shards: seq<Option<seq<Byte>>>)
    : (r: Result<seq<seq<Byte>>, DownloadError>)
    requires k <= |shards| && SlotLength(shards, len)
    ensures r.Ok? ==> |r.value| == k
  {
    if !ec.accepts(k, |shards| - k) || |Present(shards)| < k || len == 0 then Err(Encoder)
    else Ok(seq(k, i requires 0 <= i < k => DataShard(ec, k, len, shards, i)))
  }

  function DataShard(ec: ErasureCode, k: nat, len: nat, shards: seq<Option<seq<Byte>>>, i: nat): (s: seq<Byte>)
    requires i < k <= |shards| && SlotLength(shards, len)
    ensures |s| == len
  {
    if shards[i].Some? then shards[i].value
    else seq(len, p requires 0 <= p < len => ByteOr(ec.reconstruct(k, |shards|, SlotColumn(shards, len, p)), i))
  }

  function ByteOr(column: seq<Byte>, i: nat): Byte {
    if i < |column| then column[i] else 0
  }

  /** Decrypting a window of a stored sector gives the window of its shard. */
  lemma DecryptedSlot(w: World, slab: Slab, content: seq<Byte>, start: nat, end: nat, i: nat)
    requires Holds(w, slab, content) && i < |slab.sectors| && start <= end <= w.sector
    ensures CryptShard(w.shardBlock, slab.key, i, start, ReadSector(slab, start, end, i))
         == CodeShard(w.ec, |slab.sectors|, Striped(w.seg, slab.minShards, w.sector, content), w.sector, i)[start..end]
  {
    var shard := CodeShard(w.ec, |slab.sectors|, Striped(w.seg, slab.minShards, w.sector, content), w.sector, i);
    assert slab.sectors[i] == StoredShard(w, slab, content, i) == CryptShard(w.shardBlock, slab.key, i, 0, shard);
    assert ReadSector(slab, start, end, i) == CryptShard(w.shardBlock, slab.key, i, 0, shard)[start..end];
    DecryptWindow(w.shardBlock, slab.key, i, shard, start, end);
  }

  /** Reconstructing only the window equals slicing the data shards. */
  lemma ReconstructWindow(ec: ErasureCode, data: seq<seq<Byte>>, sector: nat, total: nat, start: nat, end: nat,
                          shards: seq<Option<seq<Byte>>>)
    requires ec.Determines() && 0 < |data| <= total == |shards| && Rectangular(data, sector)
    requires start < end <= sector && ec.accepts(|data|, total - |data|) && |Present(shards)| >= |data|
    requires forall i :: 0 <= i < total && shards[i].Some? ==>
      shards[i].value == CodeShard(ec, total, data, sector, i)[start..end]
    ensures SlotLength(shards, end - start)
    ensures var r := Reconstruct(ec, |data|, end - start, shards);
            r.Ok? && forall i :: 0 <= i < |data| ==> r.value[i] == data[i][start..end]
  {
    var k, len := |data|, end - start;
    forall i | 0 <= i < k ensures DataShard(ec, k, len, shards, i) == data[i][start..end] {
      DataShardExact(ec, data, sector, total, start, end, shards, i);
    }
  }

  lemma DataShardExact(ec: ErasureCode, data: seq<seq<Byte>>, sector: nat, total: nat, start: nat, end: nat,
                       shards: seq<Option<seq<Byte>>>, i: nat)
    requires ec.Determines() && i < |data| <= total == |shards| && Rectangular(data, sector)
    requires start < end <= sector && ec.accepts(|data|, total - |data|) && |Present(shards)| >= |data|
    requires SlotLength(shards, end - start)
    requires forall j :: 0 <= j < total && shards[j].Some? ==>
      shards[j].value == CodeShard(ec, total, data, sector, j)[start..end]
    ensures DataShard(ec, |data|, end - start, shards, i) == data[i][start..end]
  {
    var k, len := |data|, end - start;
    var r := DataShard(ec, k, len, shards, i);
    forall p | 0 <= p < len ensures r[p] == data[i][start + p] {
      var column := Column(data, sector, start + p);
      assert ec.code(k, total, column, i) == column[i];
      var holes := SlotColumn(shards, len, p);
      assert Present(holes) == Present(shards);
      assert ec.Matches(k, total, column, holes);
    }
  }

  /** `decode` */
  method Decode(w: World, slab: Slab, start: nat, len: nat, shards: seq<Option<seq<Byte>>>)
    returns (r: Result<seq<seq<Byte>>, DownloadError>)
    requires slab.minShards <= |shards| && SlotLength(shards, len)
    ensures var plain := DecryptSlots(w.shardBlock, slab.key, start, shards);
            SlotLength(plain, len) && r == Reconstruct(w.ec, slab.minShards, len, plain)
  {
    var plain := EncryptRecoveredShards(w.shardBlock, slab.key, start, shards);
    r := Reconstruct(w.ec, slab.minShards, len, plain);
  }

  // ----- recovering a byte range of a slab

  /** The slots of a race, decrypted: windows of the code word's shards. */
  lemma SlotsDecrypted(w: World, slab: Slab, content: seq<Byte>, start: nat, end: nat, done: set<nat>)
    requires w.Valid() && Holds(w, slab, content) && start <= end <= w.sector
    requires forall i :: i in done ==> i < |slab.sectors|
    ensures WindowInSectors(slab, start, end)
    ensures var plain := DecryptSlots(w.shardBlock, slab.key, start, Slots(slab, start, end, done));
            var data := Striped(w.seg, slab.minShards, w.sector, content);
            && Present(plain) == done && SlotLength(plain, end - start)
            && forall i :: 0 <= i < |plain| && plain[i].Some? ==>
                 plain[i].value == CodeShard(w.ec, |slab.sectors|, data, w.sector, i)[start..end]
  {
    var plain := DecryptSlots(w.shardBlock, slab.key, start, Slots(slab, start, end, done));
    forall i | 0 <= i < |plain| && plain[i].Some?
      ensures plain[i].value == CodeShard(w.ec, |slab.sectors|,
                Striped(w.seg, slab.minShards, w.sector, content), w.sector, i)[start..end]
    {
      DecryptedSlot(w, slab, content, start, end, i);
    }
  }

  /** Un-striping the window from `skip` on gives the range of the slab. */
  lemma WindowRange(seg: nat, sector: nat, k: nat, content: seq<Byte>, from: nat, skip: nat, length: nat,
                    part: seq<seq<Byte>>, start: nat, end: nat)
    requires seg > 0 && k > 0 && sector % seg == 0 && |content| == k * sector
    requires start == from * seg <= end <= sector && WholeSegments(seg, part, end - start) && |part| == k
    requires skip + length <= k * (end - start) && k * start + skip + length <= |content|
    requires forall i :: 0 <= i < k ==> part[i] == Striped(seg, k, sector, content)[i][start..end]
    ensures Unstriped(seg, part, end - start)[skip..skip + length]
         == content[k * start + skip..k * start + skip + length]
  {
    var base := k * start + skip;
    var a, b := Unstriped(seg, part, end - start)[skip..skip + length], content[base..base + length];
    UnstripeStripe(seg, k, sector, content);
    forall j | 0 <= j < length ensures a[j] == b[j] {
      UnstripeRows(seg, Striped(seg, k, sector, content), sector, from, start, end - start, part, skip + j);
    }
  }

  /** `data` are data shards whose stream has the slab's range where `write` looks for it. */
  ghost predicate RangeOf(w: World, slab: Slab, content: seq<Byte>, data: seq<seq<Byte>>, len: nat)
    requires w.seg > 0
  {
    && WholeSegments(w.seg, data, len) && w.seg * |data| > 0
    && slab.offset % (w.seg * |data|) + slab.length <= |data| * len
    && slab.offset + slab.length <= |content|
    && Unstriped(w.seg, data, len)[slab.offset % (w.seg * |data|)..slab.offset % (w.seg * |data|) + slab.length]
       == content[slab.offset..slab.offset + slab.length]
  }

  lemma SkipFits(k: nat, start: nat, end: nat, skip: nat, length: nat)
    requires start <= end && k * start + skip + length <= k * end
    ensures skip + length <= k * (end - start)
  {
    MulDistributes(end - start, start, k);
  }

  lemma PartRange(w: World, slab: Slab, content: seq<Byte>, part: seq<seq<Byte>>, start: nat, end: nat)
    requires Holds(w, slab, content) && w.seg * slab.minShards > 0 && |part| == slab.minShards
    requires start == WindowStart(w.seg, slab.minShards, slab.offset)
    requires end == WindowEnd(w.seg, slab.minShards, slab.offset, slab.length)
    requires start <= end <= w.sector
    requires forall i :: 0 <= i < |part| ==> part[i] == Striped(w.seg, |part|, w.sector, content)[i][start..end]
    ensures RangeOf(w, slab, content, part, end - start)
  {
    var k := slab.minShards;
    WindowFits(w.seg, w.sector, k, slab.offset, slab.length);
    SkipFits(k, start, end, slab.offset % (w.seg * k), slab.length);
    WindowRange(w.seg, w.sector, k, content, slab.offset / (w.seg * k), slab.offset % (w.seg * k), slab.length,
                part, start, end);
  }

  /** Aligned partial recovery: decrypting and reconstructing the window of any `k` sectors, and writing it
      with `skip = offset % chunk`, gives exactly the slab's range. */
  lemma AlignedRecovery(w: World, slab: Slab, content: seq<Byte>, start: nat, end: nat, done: set<nat>)
    requires w.Valid() && Holds(w, slab, content) && w.seg * slab.minShards > 0
    requires start == WindowStart(w.seg, slab.minShards, slab.offset)
    requires end == WindowEnd(w.seg, slab.minShards, slab.offset, slab.length)
    requires start <= end <= w.sector && |done| >= slab.minShards && forall i :: i in done ==> i < |slab.sectors|
    ensures WindowInSectors(slab, start, end) && SlotLength(Slots(slab, start, end, done), end - start)
    ensures var plain := DecryptSlots(w.shardBlock, slab.key, start, Slots(slab, start, end, done));
      && SlotLength(plain, end - start)
      && var r := Reconstruct(w.ec, slab.minShards, end - start, plain);
         && (r.Ok? <==> Decodes(w, slab))
         && (r.Ok? ==> RangeOf(w, slab, content, r.value, end - start))
  {
    var k := slab.minShards;
    SlotsDecrypted(w, slab, content, start, end, done);
    var plain := DecryptSlots(w.shardBlock, slab.key, start, Slots(slab, start, end, done));
    NonEmptyWindow(w.seg, k, slab.offset, slab.length);
    if start < end && w.ec.accepts(k, |slab.sectors| - k) {
      ReconstructWindow(w.ec, Striped(w.seg, k, w.sector, content), w.sector, |slab.sectors|, start, end, plain);
      PartRange(w, slab, content, Reconstruct(w.ec, k, end - start, plain).value, start, end);
    }
  }

  /** A chunk task: `SlabRecovery::new`, `recover_shards`, `decode` and `write`.  A successful task
      returns exactly the slab's range, and a task succeeds exactly when enough sectors can be read and
      enough shards decode. */
  method RecoverChunk(w: World, slab: Slab, ghost content: seq<Byte>, order: seq<nat>, reachable: seq<bool>)
    returns (r: Result<seq<Byte>, DownloadError>)
    requires w.Valid() && (ValidCounts(slab) ==> Holds(w, slab, content))
    requires |slab.sectors| == |reachable| && Order(order, |slab.sectors|)
    ensures !ValidCounts(slab) ==> r == Err(InvalidSlab)
    ensures r.Ok? ==> Holds(w, slab, content) && r.value == content[slab.offset..slab.offset + slab.length]
    ensures ValidCounts(slab) ==> (r.Ok? <==> |Reachable(reachable)| >= slab.minShards && Decodes(w, slab))
  {
    var k := slab.minShards;
    if k == 0 || k > |slab.sectors| {
      return Err(InvalidSlab);
    }
    WindowFits(w.seg, w.sector, k, slab.offset, slab.length);
    var start := WindowStart(w.seg, k, slab.offset);
    var end := WindowEnd(w.seg, k, slab.offset, slab.length);
    var res, events, race, _ := RecoverShards(slab, start, end, order, reachable);
    if res.Err? {
      return Err(res.error);
    }
    DoneReadable(order, reachable, events);
    r := DecodeAndWrite(w, slab, content, start, end, race.done, res.value);
  }

  lemma DoneReadable(order: seq<nat>, reachable: seq<bool>, events: seq<Event>)
    requires Order(order, |reachable|)
    ensures forall i :: i in RaceAfter(order, reachable, events).done ==> i < |reachable|
  {
    RaceInvariant(order, reachable, events);
  }

  /** `decode` and `write`, from any `minShards` sectors. */
  method DecodeAndWrite(w: World, slab: Slab, ghost content: seq<Byte>, start: nat, end: nat, ghost done: set<nat>,
                        slots: seq<Option<seq<Byte>>>) returns (r: Result<seq<Byte>, DownloadError>)
    requires w.Valid() && Holds(w, slab, content) && w.seg * slab.minShards > 0
    requires start == WindowStart(w.seg, slab.minShards, slab.offset)
    requires end == WindowEnd(w.seg, slab.minShards, slab.offset, slab.length)
    requires start <= end <= w.sector && |done| >= slab.minShards && forall i :: i in done ==> i < |slab.sectors|
    requires WindowInSectors(slab, start, end) && slots == Slots(slab, start, end, done)
    ensures r.Ok? ==> r.value == content[slab.offset..slab.offset + slab.length]
    ensures r.Ok? <==> Decodes(w, slab)
  {
    AlignedRecovery(w, slab, content, start, end, done);
    var decoded := Decode(w, slab, start, end - start, slots);
    if decoded.Err? {
      return Err(decoded.error);
    }
    var data := decoded.value;
    var out := WriteDataShards(w.seg, data, end - start, slab.offset % (w.seg * |data|), slab.length);
    r := Ok(out);
  }

  lemma RowBytes(rows: nat, seg: nat, k: nat)
    ensures k * (rows * seg) == rows * (seg * k)
  {
    MulSwap(k, rows, seg);
  }

  /** The window has no row that it does not need: it begins in the row of the first byte, and ends less than a row
      of segments after the last one. */
  lemma WindowTight(seg: nat, k: nat, offset: nat, length: nat)
    requires seg > 0 && seg * k > 0
    ensures k * WindowStart(seg, k, offset) <= offset < k * WindowStart(seg, k, offset) + seg * k
    ensures k * WindowEnd(seg, k, offset, length) < offset + length + seg * k
  {
    var chunk := seg * k;
    var a, b := offset / chunk, CeilDiv(offset + length, chunk);
    DivModDef(offset, chunk);
    CeilBound(offset + length, chunk);
    RowBytes(a, seg, k);
    RowBytes(b, seg, k);
  }

  /** The window is empty exactly for a range without bytes at the beginning of a row of segments. */
  lemma NonEmptyWindow(seg: nat, k: nat, offset: nat, length: nat)
    requires seg > 0 && seg * k > 0
    ensures WindowStart(seg, k, offset) < WindowEnd(seg, k, offset, length)
            <==> length > 0 || offset % (seg * k) != 0
  {
    var chunk := seg * k;
    var a, b := offset / chunk, CeilDiv(offset + length, chunk);
    DivModDef(offset, chunk);
    CeilBound(offset + length, chunk);
    if length > 0 || offset % chunk != 0 {
      if b <= a {
        MulMono(b, a, chunk);
      }
      MulMono(a + 1, b, seg);
    } else {
      DivModOf(a, chunk - 1, chunk);
      assert b == a;
    }
  }
}
