/**
 * Striping of a slab over its data shards (sia_storage, erasure_coding.rs).
 *
 * A slab's byte stream is laid out in rows; a row holds one segment of `seg` bytes on each of the
 * `d` data shards.  `ReadSlabShards` fills the shards from a reader that may return short reads and
 * `WriteDataShards` writes a byte range back out.
 */
module Striping {
  import opened Prelude

  // ----- the layout

  /** The shard that holds stream byte `k`. */
  function ShardOf(seg: nat, d: nat, k: nat): (i: nat)
    requires seg > 0 && d > 0
    ensures i < d
  {
    (k / seg) % d
  }

  /** The position of stream byte `k` inside its shard. */
  function PosOf(seg: nat, d: nat, k: nat): nat
    requires seg > 0 && d > 0
  {
    var row := seg * d;
    (k / row) * seg + k % seg
  }

  /** The stream position of the byte at position `p` of shard `i`. */
  function IndexOf(seg: nat, d: nat, i: nat, p: nat): nat
    requires seg > 0
  {
    ((p / seg) * d + i) * seg + p % seg
  }

  /** Row `row`, shard `i`, byte `j` of the segment, named both ways. */
  lemma Locate(seg: nat, d: nat, row: nat, i: nat, j: nat)
    requires j < seg && i < d
    ensures ShardOf(seg, d, (row * d + i) * seg + j) == i
    ensures PosOf(seg, d, (row * d + i) * seg + j) == row * seg + j
    ensures IndexOf(seg, d, i, row * seg + j) == (row * d + i) * seg + j
    ensures (row * d + i) * seg + j == row * (seg * d) + i * seg + j
    ensures i * seg + j < seg * d
  {
    var k := (row * d + i) * seg + j;
    DivModOf(row * d + i, j, seg);
    DivModOf(row, i, d);
    MulMono(i + 1, d, seg);
    assert k == row * (seg * d) + (i * seg + j) by {
      assert (row * d + i) * seg == row * d * seg + i * seg;
      assert row * d * seg == row * (seg * d);
    }
    DivModOf(row, i * seg + j, seg * d);
    DivModOf(row, j, seg);
  }

  /** `ShardOf`/`PosOf` and `IndexOf` are inverse to each other. */
  lemma LayoutInverse(seg: nat, d: nat, k: nat)
    requires seg > 0 && d > 0
    ensures IndexOf(seg, d, ShardOf(seg, d, k), PosOf(seg, d, k)) == k
  {
    DivModDef(k, seg);
    DivModDef(k / seg, d);
    LocateAt(seg, d, k, k / seg, k / seg / d, k / seg % d, k % seg);
  }

  lemma LocateAt(seg: nat, d: nat, k: nat, q: nat, row: nat, i: nat, j: nat)
    requires j < seg && i < d && q == row * d + i && k == q * seg + j
    ensures IndexOf(seg, d, ShardOf(seg, d, k), PosOf(seg, d, k)) == k
  {
    Locate(seg, d, row, i, j);
  }

  lemma LayoutInverseCell(seg: nat, d: nat, i: nat, p: nat)
    requires seg > 0 && i < d
    ensures ShardOf(seg, d, IndexOf(seg, d, i, p)) == i
    ensures PosOf(seg, d, IndexOf(seg, d, i, p)) == p
  {
    DivModDef(p, seg);
    Locate(seg, d, p / seg, i, p % seg);
  }

  /** Every stream byte has a row, a shard and a place in its segment. */
  lemma Coordinates(seg: nat, d: nat, k: nat) returns (row: nat, i: nat, j: nat)
    requires seg > 0 && d > 0
    ensures j < seg && i < d && i * seg + j < seg * d
    ensures ShardOf(seg, d, k) == i && PosOf(seg, d, k) == row * seg + j
    ensures k == (row * d + i) * seg + j == row * (seg * d) + (i * seg + j)
  {
    DivModDef(k, seg);
    DivModDef(k / seg, d);
    row, i, j := k / seg / d, k / seg % d, k % seg;
    Locate(seg, d, row, i, j);
  }

  /** A stream byte lies within the first `len` bytes of its shard exactly when it is one of the
      first `d * len` bytes, for shards made of whole segments. */
  lemma LayoutBound(seg: nat, d: nat, len: nat, k: nat)
    requires seg > 0 && d > 0 && len % seg == 0
    ensures PosOf(seg, d, k) < len <==> k < d * len
  {
    var row, i, j := Coordinates(seg, d, k);
    DivModDef(len, seg);
    BelowMultiple(row, j, seg, len / seg);
    BelowMultiple(row, i * seg + j, seg * d, len / seg);
    MulSwap(len / seg, seg, d);
  }

  predicate Rectangular(shards: seq<seq<Byte>>, len: nat) {
    forall i :: 0 <= i < |shards| ==> |shards[i]| == len
  }

  /** Shards of `len` bytes that consist of whole segments. */
  predicate WholeSegments(seg: nat, shards: seq<seq<Byte>>, len: nat) {
    seg > 0 && |shards| > 0 && Rectangular(shards, len) && len % seg == 0
  }

  /** The byte stream that the shards hold. */
  function Unstriped(seg: nat, shards: seq<seq<Byte>>, len: nat): (s: seq<Byte>)
    requires WholeSegments(seg, shards, len)
    ensures |s| == |shards| * len
  {
    seq(|shards| * len, k requires 0 <= k < |shards| * len =>
      LayoutBound(seg, |shards|, len, k);
      shards[ShardOf(seg, |shards|, k)][PosOf(seg, |shards|, k)])
  }

  /** The data shards of a slab with the given content. */
  function Striped(seg: nat, d: nat, len: nat, content: seq<Byte>): (shards: seq<seq<Byte>>)
    requires seg > 0 && d > 0 && len % seg == 0 && |content| == d * len
    ensures |shards| == d && Rectangular(shards, len)
  {
    seq(d, i requires 0 <= i < d =>
      seq(len, p requires 0 <= p < len =>
        LayoutInverseCell(seg, d, i, p);
        LayoutBound(seg, d, len, IndexOf(seg, d, i, p));
        content[IndexOf(seg, d, i, p)]))
  }

  lemma UnstripeStripe(seg: nat, d: nat, len: nat, content: seq<Byte>)
    requires seg > 0 && d > 0 && len % seg == 0 && |content| == d * len
    ensures Unstriped(seg, Striped(seg, d, len, content), len) == content
  {
    var shards := Striped(seg, d, len, content);
    forall k | 0 <= k < |content| ensures Unstriped(seg, shards, len)[k] == content[k] {
      LayoutBound(seg, d, len, k);
      LayoutInverse(seg, d, k);
    }
  }

  /** Byte `j` of the segment of row `row` on shard `i` is byte `j` of segment `row * d + i` of the stream. */
  lemma StreamByte(seg: nat, shards: seq<seq<Byte>>, len: nat, content: seq<Byte>, row: nat, i: nat, j: nat)
    requires WholeSegments(seg, shards, len) && |content| == |shards| * len
    requires i < |shards| && j < seg && row * seg + j < len
    ensures var d, k := |shards|, (row * |shards| + i) * seg + j;
      && k < d * len
      && Unstriped(seg, shards, len)[k] == shards[i][row * seg + j]
      && Striped(seg, d, len, content)[i][row * seg + j] == content[k]
  {
    Locate(seg, |shards|, row, i, j);
    LayoutBound(seg, |shards|, len, (row * |shards| + i) * seg + j);
  }

  // ----- a cursor that walks the segments in stream order

  /** Segment `i` of row `row` begins at `offset` in its shard and at `base` in the stream. */
  ghost predicate At(seg: nat, d: nat, row: nat, i: nat, offset: nat, base: nat)
    decreases row, i
  {
    if i > 0 then base >= seg && At(seg, d, row, i - 1, offset, base - seg)
    else if row > 0 then offset >= seg && At(seg, d, row - 1, d, offset - seg, base)
    else offset == 0 && base == 0
  }

  lemma {:induction false} AtValue(seg: nat, d: nat, row: nat, i: nat, offset: nat, base: nat)
    ensures At(seg, d, row, i, offset, base) <==> offset == row * seg && base == (row * d + i) * seg
    decreases row, i
  {
    if i > 0 {
      MulDistributes(row * d + (i - 1), 1, seg);
      MulMono(0, row * d + (i - 1), seg);
      if base >= seg {
        AtValue(seg, d, row, i - 1, offset, base - seg);
      }
    } else if row > 0 {
      MulDistributes(row - 1, 1, seg);
      MulDistributes(row - 1, 1, d);
      if offset >= seg {
        AtValue(seg, d, row - 1, d, offset - seg, base);
      }
    }
  }

  /** The shards from `i` on hold `left` bytes of the row. */
  ghost predicate RowLeft(seg: nat, d: nat, i: nat, left: nat)
    decreases d - i
  {
    if i < d then left >= seg && RowLeft(seg, d, i + 1, left - seg) else left == 0
  }

  lemma {:induction false} WholeRow(seg: nat, d: nat, i: nat)
    requires i <= d
    ensures RowLeft(seg, d, i, (d - i) * seg)
    decreases d - i
  {
    if i < d {
      MulDistributes(d - (i + 1), 1, seg);
      WholeRow(seg, d, i + 1);
    }
  }

  /** A segment that begins inside the stream is complete in it and in its shard. */
  lemma SegmentFits(seg: nat, d: nat, len: nat, row: nat, i: nat, offset: nat, base: nat)
    requires seg > 0 && i < d && len % seg == 0 && At(seg, d, row, i, offset, base) && base < d * len
    ensures offset + seg <= len && base + seg <= d * len
  {
    AtValue(seg, d, row, i, offset, base);
    Locate(seg, d, row, i, 0);
    Locate(seg, d, row, i, seg - 1);
    LayoutBound(seg, d, len, base);
    DivModDef(len, seg);
    MultipleGap(row, len / seg, seg);
    LayoutBound(seg, d, len, base + seg - 1);
  }

  lemma SegmentByte(seg: nat, shards: seq<seq<Byte>>, len: nat, row: nat, i: nat, offset: nat, base: nat, j: nat)
    requires WholeSegments(seg, shards, len) && i < |shards| && j < seg
    requires At(seg, |shards|, row, i, offset, base)
    requires offset + seg <= len && base + seg <= |shards| * len
    ensures Unstriped(seg, shards, len)[base + j] == shards[i][offset + j]
  {
    AtValue(seg, |shards|, row, i, offset, base);
    Locate(seg, |shards|, row, i, j);
  }

  /** The bytes of a segment from `skip` on are consecutive bytes of the stream. */
  lemma SegmentSlice(seg: nat, shards: seq<seq<Byte>>, len: nat, row: nat, i: nat, offset: nat, base: nat,
                     skip: nat, length: nat)
    requires WholeSegments(seg, shards, len) && i < |shards| && skip + length <= seg
    requires At(seg, |shards|, row, i, offset, base)
    requires offset + seg <= len && base + seg <= |shards| * len
    ensures shards[i][offset + skip..offset + skip + length]
         == Unstriped(seg, shards, len)[base + skip..base + skip + length]
  {
    var a, b := shards[i][offset + skip..offset + skip + length],
                Unstriped(seg, shards, len)[base + skip..base + skip + length];
    forall j | 0 <= j < length ensures a[j] == b[j] {
      SegmentByte(seg, shards, len, row, i, offset, base, skip + j);
    }
  }

  /** Cutting the same whole rows out of every shard cuts one contiguous block out of the stream. */
  lemma UnstripeRows(seg: nat, shards: seq<seq<Byte>>, len: nat, from: nat, start: nat, partLen: nat,
                     part: seq<seq<Byte>>, k: nat)
    requires WholeSegments(seg, shards, len) && WholeSegments(seg, part, partLen) && |part| == |shards|
    requires start == from * seg && start + partLen <= len
    requires forall i :: 0 <= i < |part| ==> part[i] == shards[i][start..start + partLen]
    requires k < |shards| * partLen
    ensures |shards| * start + k < |shards| * len
    ensures Unstriped(seg, part, partLen)[k] == Unstriped(seg, shards, len)[|shards| * start + k]
  {
    var d := |shards|;
    var row, i, j := Coordinates(seg, d, k);
    LayoutBound(seg, d, partLen, k);
    ShiftRow(seg, d, from, row, i, j);
    LayoutBound(seg, d, len, d * start + k);
  }

  lemma ShiftRow(seg: nat, d: nat, from: nat, row: nat, i: nat, j: nat)
    requires j < seg && i < d
    ensures ShardOf(seg, d, d * (from * seg) + ((row * d + i) * seg + j)) == i
    ensures PosOf(seg, d, d * (from * seg) + ((row * d + i) * seg + j)) == from * seg + (row * seg + j)
  {
    Locate(seg, d, from + row, i, j);
    MulDistributes(from, row, seg);
    MulDistributes(from, row, d);
    MulDistributes(from * d, row * d + i, seg);
    MulSwap(d, from, seg);
    MulSwap(seg, from, d);
  }

  // ----- writing a range of the stream

  /** The inner loop of `write_data_shards`: what is wanted of one row of segments. */
  method WriteRow(seg: nat, shards: seq<seq<Byte>>, len: nat, offset: nat, out0: seq<Byte>, skip1: nat, n1: nat,
                  ghost row: nat, ghost base0: nat, ghost left0: nat, ghost skip0: nat, ghost end: nat)
    returns (out: seq<Byte>, skip: nat, n: nat)
    requires WholeSegments(seg, shards, len)
    requires Cursor(seg, |shards|, Unstriped(seg, shards, len), row, 0, offset, base0, left0, out0, skip0, skip1, n1, end)
    ensures n == 0 ==> out == Unstriped(seg, shards, len)[skip0..end]
    ensures n > 0 ==>
      Cursor(seg, |shards|, Unstriped(seg, shards, len), row, |shards|, offset, base0 + left0, 0, out, skip0, skip, n, end)
  {
    var d := |shards|;
    ghost var data := Unstriped(seg, shards, len);
    ghost var base: nat, left: nat := base0, left0;
    out, skip, n := out0, skip1, n1;
    var i := 0;
    while i < d
      invariant 0 <= i <= d && base + left == base0 + left0
      invariant Cursor(seg, d, data, row, i, offset, base, left, out, skip0, skip, n, end)
    {
      if n == 0 {
        return;
      } else if skip > seg {
        SkipSegment(seg, d, data, row, i, offset, base, left, out, skip0, skip, n, end);
        skip := skip - seg;
      } else {
        var start: nat := offset + skip;
        var length: nat := Min(n, seg - skip);
        ghost var out1, n1 := out, n;
        SegmentWithin(seg, shards, len, data, row, i, offset, base, left, out, skip0, skip, n, end);
        out := out + shards[i][start..start + length];
        n := n - length;
        WriteSegment(seg, shards, len, data, row, i, offset, base, left, out1, skip0, skip, n1, end, out, n);
        skip := 0;
      }
      base := base + seg;
      left := left - seg;
      i := i + 1;
    }
    RowDone(seg, d, left);
  }

  /** `write_data_shards`: writes `n` bytes of the stream starting at byte `skip`. */
  method WriteDataShards(seg: nat, shards: seq<seq<Byte>>, len: nat, skip0: nat, n0: nat)
    returns (out: seq<Byte>)
    requires WholeSegments(seg, shards, len) && skip0 + n0 <= |shards| * len
    ensures out == Unstriped(seg, shards, len)[skip0..skip0 + n0]
  {
    out := [];
    var d := |shards|;
    ghost var data := Unstriped(seg, shards, len);
    ghost var end := skip0 + n0;
    var n: nat := n0;
    FirstRow(seg, d, skip0);
    WholeRow(seg, d, 0);
    var rowBytes := d * seg;
    var rows := skip0 / rowBytes;
    var offset: nat := rows * seg;
    var skip: nat := skip0 % rowBytes;
    ghost var row: nat := rows;
    ghost var base: nat := skip0 - skip;
    while n > 0
      invariant Cursor(seg, d, data, row, 0, offset, base, rowBytes, out, skip0, skip, n, end)
      invariant skip < rowBytes
      decreases end - base
    {
      out, skip, n := WriteRow(seg, shards, len, offset, out, skip, n, row, base, rowBytes, skip0, end);
      if n == 0 {
        return;
      }
      base := base + rowBytes;
      StartRow(seg, d, data, row, offset, base, 0, out, skip0, skip, n, end);
      offset := offset + seg;
      row := row + 1;
    }
  }

  /** After the last segment nothing of the row is left. */
  lemma RowDone(seg: nat, d: nat, left: nat)
    requires RowLeft(seg, d, d, left)
    ensures left == 0
  {
  }

  /** What has been written is the stream up to `cur`, and `n` bytes are still to come. */
  ghost predicate Written(data: seq<Byte>, out: seq<Byte>, skip0: nat, cur: nat, n: nat, end: nat) {
    && skip0 <= end <= |data|
    && (if n == 0 then out == data[skip0..end] else skip0 <= cur && cur + n == end && out == data[skip0..cur])
  }

  /** The writer stands `skip` bytes into the rest of row `row`, which begins with segment `i`. */
  ghost predicate Cursor(seg: nat, d: nat, data: seq<Byte>, row: nat, i: nat, offset: nat, base: nat,
                         left: nat, out: seq<Byte>, skip0: nat, skip: nat, n: nat, end: nat)
  {
    && At(seg, d, row, i, offset, base)
    && RowLeft(seg, d, i, left) && skip <= left
    && Written(data, out, skip0, base + skip, n, end)
  }

  /** A segment that is written from lies within the shard and the stream. */
  lemma SegmentWithin(seg: nat, shards: seq<seq<Byte>>, len: nat, data: seq<Byte>, row: nat, i: nat, offset: nat,
                      base: nat, left: nat, out: seq<Byte>, skip0: nat, skip: nat, n: nat, end: nat)
    requires WholeSegments(seg, shards, len) && data == Unstriped(seg, shards, len) && i < |shards| && n > 0
    requires Cursor(seg, |shards|, data, row, i, offset, base, left, out, skip0, skip, n, end)
    ensures offset + seg <= len == |shards[i]| && left >= seg && base + seg <= |shards| * len
  {
    SegmentFits(seg, |shards|, len, row, i, offset, base);
  }

  /** Writing what is wanted of a segment brings the cursor to the next segment. */
  lemma WriteSegment(seg: nat, shards: seq<seq<Byte>>, len: nat, data: seq<Byte>, row: nat, i: nat, offset: nat,
                     base: nat, left: nat, out: seq<Byte>, skip0: nat, skip: nat, n: nat, end: nat,
                     out': seq<Byte>, n': nat)
    requires WholeSegments(seg, shards, len) && data == Unstriped(seg, shards, len) && i < |shards| && n > 0
    requires skip <= seg && left >= seg && offset + seg <= len && base + seg <= |shards| * len
    requires Cursor(seg, |shards|, data, row, i, offset, base, left, out, skip0, skip, n, end)
    requires var length := Min(n, seg - skip);
             n' == n - length && out' == out + shards[i][offset + skip..offset + skip + length]
    ensures Cursor(seg, |shards|, data, row, i + 1, offset, base + seg, left - seg, out', skip0, 0, n', end)
  {
    var length := Min(n, seg - skip);
    SegmentSlice(seg, shards, len, row, i, offset, base, skip, length);
    var cur := base + skip;
    assert data[skip0..cur] + data[cur..cur + length] == data[skip0..cur + length];
  }

  lemma SkipSegment(seg: nat, d: nat, data: seq<Byte>, row: nat, i: nat, offset: nat, base: nat,
                    left: nat, out: seq<Byte>, skip0: nat, skip: nat, n: nat, end: nat)
    requires i < d && skip >= seg
    requires Cursor(seg, d, data, row, i, offset, base, left, out, skip0, skip, n, end)
    ensures left >= seg
    ensures Cursor(seg, d, data, row, i + 1, offset, base + seg, left - seg, out, skip0, skip - seg, n, end)
  {
  }

  lemma StartRow(seg: nat, d: nat, data: seq<Byte>, row: nat, offset: nat, base: nat,
                 left: nat, out: seq<Byte>, skip0: nat, skip: nat, n: nat, end: nat)
    requires Cursor(seg, d, data, row, d, offset, base, left, out, skip0, skip, n, end)
    ensures left == skip == 0
    ensures Cursor(seg, d, data, row + 1, 0, offset + seg, base, d * seg, out, skip0, 0, n, end)
  {
    WholeRow(seg, d, 0);
  }

  lemma FirstRow(seg: nat, d: nat, skip: nat)
    requires seg > 0 && d > 0
    ensures d * seg > 0 && skip / (d * seg) >= 0 && skip % (d * seg) < d * seg
    ensures At(seg, d, skip / (d * seg), 0, skip / (d * seg) * seg, skip / (d * seg) * (d * seg))
    ensures skip / (d * seg) * (d * seg) == skip - skip % (d * seg) >= 0
  {
    MulMono(1, d, seg);
    DivModDef(skip, d * seg);
    var row := skip / (d * seg);
    MulSwap(row, d, seg);
    AtValue(seg, d, row, 0, row * seg, row * (d * seg));
  }

  // ----- reading a slab

  /** A byte source that hands out its data in reads of arbitrary size and may fail. */
  class Source {
    const data: seq<Byte>
    var pos: nat

    predicate Valid()
      reads this
    {
      pos <= |data|
    }

    constructor (data: seq<Byte>)
      ensures Valid() && this.data == data && pos == 0
    {
      this.data := data;
      pos := 0;
    }

    /** A read of at most `max` bytes; no bytes mean the end of the data (or `max == 0`). */
    method Read(max: nat) returns (r: Result<seq<Byte>, ()>)
      requires Valid()
      modifies this`pos
      ensures Valid()
      ensures r.Ok? ==> old(pos) <= pos <= old(pos) + max && r.value == data[old(pos)..pos]
      ensures r.Ok? ==> (r.value == [] <==> max == 0 || old(pos) == |data|)
      ensures r.Err? ==> pos == old(pos)
    {
      var fails := *;
      if fails {
        return Err(());
      }
      var most := Min(max, |data| - pos);
      var n :| 0 <= n <= most && (n == 0 <==> most == 0);
      r := Ok(data[pos..pos + n]);
      pos := pos + n;
    }
  }

  /** What `ReadSlabShards` leaves in cell `p` of shard `i` after `n` bytes of `stream`. */
  function Cell(seg: nat, d: nat, stream: seq<Byte>, n: nat, i: nat, p: nat, before: Byte): Byte
    requires seg > 0 && n <= |stream|
  {
    if i < d && IndexOf(seg, d, i, p) < n then stream[IndexOf(seg, d, i, p)] else before
  }

  /** The cell that `ReadSegment` may have changed. */
  predicate InPiece(i: nat, off: nat, n: nat, i': nat, p: nat) {
    i' == i && off <= p < off + n
  }

  /** The innermost loop of `read_slab_shards`: fills one segment from as many reads as it takes, of at most
      `left` bytes in all; a full segment, the end of the data or the limit ends it. */
  method ReadSegment(seg: nat, r: Source, left: nat, shards: array2<Byte>, i: nat, off: nat)
    returns (size: Result<nat, ()>)
    requires r.Valid() && i < shards.Length0 && off + seg <= shards.Length1
    modifies r`pos, shards
    ensures r.Valid() && old(r.pos) <= r.pos <= old(r.pos) + Min(seg, left)
    ensures size.Ok? ==> size.value == r.pos - old(r.pos) == Min(Min(seg, left), |r.data| - old(r.pos))
    ensures forall i', p :: 0 <= i' < shards.Length0 && 0 <= p < shards.Length1 ==>
      shards[i', p] == if InPiece(i, off, r.pos - old(r.pos), i', p) then r.data[old(r.pos) + (p - off)]
                       else old(shards[i', p])
  {
    ghost var p0 := r.pos;
    var bytesRead: nat := 0;
    while bytesRead < seg
      invariant r.Valid() && bytesRead <= Min(seg, left) && r.pos == p0 + bytesRead
      invariant forall i', p :: 0 <= i' < shards.Length0 && 0 <= p < shards.Length1 ==>
        shards[i', p] == if InPiece(i, off, bytesRead, i', p) then r.data[p0 + (p - off)] else old(shards[i', p])
    {
      var res := r.Read(Min(seg - bytesRead, left - bytesRead));
      if res.Err? {
        return Err(());
      }
      var chunk := res.value;
      if |chunk| == 0 {
        break;
      }
      forall j | 0 <= j < |chunk| {
        shards[i, off + bytesRead + j] := chunk[j];
      }
      bytesRead := bytesRead + |chunk|;
    }
    size := Ok(bytesRead);
  }

  /** `read_slab_shards`: fills the data shards row by row, however short the reads are. */
  method ReadSlabShards(seg: nat, r: Source, d: nat, shards: array2<Byte>)
    returns (size: Result<nat, ()>)
    requires seg > 0 && 0 < d <= shards.Length0 && shards.Length1 % seg == 0
    requires r.Valid()
    modifies r`pos, shards
    ensures r.Valid() && old(r.pos) <= r.pos
    ensures size.Ok? ==> size.value == r.pos - old(r.pos)
                      == Min(|r.data| - old(r.pos), d * shards.Length1)
    ensures forall i, p :: 0 <= i < shards.Length0 && 0 <= p < shards.Length1 ==>
      shards[i, p] == Cell(seg, d, r.data[old(r.pos)..], r.pos - old(r.pos), i, p, old(shards[i, p]))
  {
    ghost var stream := r.data[r.pos..];
    ghost var p0 := r.pos;
    var len := shards.Length1;
    var limit := d * len;
    var dataSize: nat := 0;
    var off: nat := 0;
    ghost var row: nat := 0;
    while off < len
      invariant 0 <= off <= len
      invariant r.Valid() && r.pos == p0 + dataSize
      invariant At(seg, d, row, 0, off, dataSize)
      invariant forall i, p :: 0 <= i < shards.Length0 && 0 <= p < shards.Length1 ==>
        shards[i, p] == Cell(seg, d, stream, dataSize, i, p, old(shards[i, p]))
      decreases len - off
    {
      var i := 0;
      RowFits(seg, d, len, row, off, dataSize);
      while i < d
        invariant 0 <= i <= d
        invariant r.Valid() && r.pos == p0 + dataSize
        invariant At(seg, d, row, i, off, dataSize)
        invariant off + seg <= len
        invariant forall i, p :: 0 <= i < shards.Length0 && 0 <= p < shards.Length1 ==>
          shards[i, p] == Cell(seg, d, stream, dataSize, i, p, old(shards[i, p]))
      {
        ghost var base := dataSize;
        SegmentInRow(seg, d, len, row, i, off, base);
        label Before:
        var read := ReadSegment(seg, r, limit - dataSize, shards, i, off);
        ghost var n := r.pos - p0 - base;
        forall i', p | 0 <= i' < shards.Length0 && 0 <= p < shards.Length1
          ensures shards[i', p] == Cell(seg, d, stream, base + n, i', p, old(shards[i', p]))
        {
          CellGrows(seg, d, stream, row, i, off, base, n, i', p, old(shards[i', p]));
          assert old@Before(shards[i', p]) == Cell(seg, d, stream, base, i', p, old(shards[i', p]));
        }
        if read.Err? {
          return Err(());
        }
        dataSize := dataSize + read.value;
        if read.value < seg {
          return Ok(dataSize);
        }
        i := i + 1;
      }
      off := off + seg;
      row := row + 1;
    }
    AllRows(seg, d, len, row, dataSize);
    size := Ok(dataSize);
  }

  lemma RowFits(seg: nat, d: nat, len: nat, row: nat, off: nat, base: nat)
    requires seg > 0 && d > 0 && len % seg == 0 && At(seg, d, row, 0, off, base) && off < len
    ensures off + seg <= len
  {
    AtValue(seg, d, row, 0, off, base);
    DivModDef(len, seg);
    MultipleGap(row, len / seg, seg);
  }

  lemma SegmentInRow(seg: nat, d: nat, len: nat, row: nat, i: nat, off: nat, base: nat)
    requires seg > 0 && i < d && len % seg == 0 && At(seg, d, row, i, off, base) && off + seg <= len
    ensures base + seg <= d * len
  {
    AtValue(seg, d, row, i, off, base);
    Locate(seg, d, row, i, seg - 1);
    LayoutBound(seg, d, len, base + seg - 1);
  }

  lemma AllRows(seg: nat, d: nat, len: nat, row: nat, base: nat)
    requires At(seg, d, row, 0, len, base)
    ensures base == d * len
  {
    AtValue(seg, d, row, 0, len, base);
    MulSwap(d, row, seg);
  }

  /** Growing the stream prefix inside one segment changes exactly the cells of that piece. */
  lemma CellGrows(seg: nat, d: nat, stream: seq<Byte>, row: nat, i: nat, off: nat, base: nat, n: nat,
                  i': nat, p: nat, before: Byte)
    requires seg > 0 && i < d && n <= seg && At(seg, d, row, i, off, base)
    requires base + n <= |stream|
    ensures Cell(seg, d, stream, base + n, i', p, before)
         == if InPiece(i, off, n, i', p) then stream[base + (p - off)]
            else Cell(seg, d, stream, base, i', p, before)
  {
    if i' < d {
      NewCell(seg, d, row, i, off, base, n, i', p);
    }
  }

  lemma NewCell(seg: nat, d: nat, row: nat, i: nat, off: nat, base: nat, n: nat, i': nat, p: nat)
    requires seg > 0 && i < d && n <= seg && At(seg, d, row, i, off, base) && i' < d
    ensures base <= IndexOf(seg, d, i', p) < base + n
            <==> i' == i && off <= p < off + n
    ensures i' == i && off <= p < off + n ==> IndexOf(seg, d, i', p) == base + (p - off)
  {
    AtValue(seg, d, row, i, off, base);
    var k := IndexOf(seg, d, i', p);
    if base <= k < base + n {
      LayoutInverseCell(seg, d, i', p);
      Locate(seg, d, row, i, k - base);
    }
    if i' == i && off <= p < off + n {
      Locate(seg, d, row, i, p - off);
    }
  }

  /** Reading a slab and unstriping it gives the stream, followed by what the shards held before. */
  lemma ReadThenUnstripe(seg: nat, d: nat, len: nat, stream: seq<Byte>, n: nat,
                         before: seq<seq<Byte>>, after: seq<seq<Byte>>)
    requires |before| == |after| == d && WholeSegments(seg, before, len) && WholeSegments(seg, after, len)
    requires n == Min(|stream|, d * len)
    requires forall i, p :: 0 <= i < d && 0 <= p < len ==>
      after[i][p] == Cell(seg, d, stream, n, i, p, before[i][p])
    ensures Unstriped(seg, after, len) == stream[..n] + Unstriped(seg, before, len)[n..]
  {
    var whole := stream[..n] + Unstriped(seg, before, len)[n..];
    forall k | 0 <= k < d * len ensures Unstriped(seg, after, len)[k] == whole[k] {
      LayoutInverse(seg, d, k);
      LayoutBound(seg, d, len, k);
      var i, p := ShardOf(seg, d, k), PosOf(seg, d, k);
      assert after[i][p] == Cell(seg, d, stream, n, i, p, before[i][p]);
    }
  }
}
