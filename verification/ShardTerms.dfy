/**
 * The terms of an uploaded shard (shard_parse.rs, steps 4 and 5): where each segment of each file lies in its
 * xorb and in the file.  The entries are given as deserialized.
 */
module ShardTerms {
  import opened Prelude
  import opened MerkleHex

  /** A hash, as the number that its octets spell: arrays of 32 octets sort like these numbers. */
  type Hash = nat

  /** A chunk of a xorb: where its octets start and how many there are. */
  datatype Chunk = Chunk(start: nat, length: nat)

  datatype XorbInfo = XorbInfo(hash: Hash, chunks: seq<Chunk>)

  datatype Segment = Segment(xorb: Hash, chunkStart: nat, chunkEnd: nat, unpacked: nat)

  datatype FileInfo = FileInfo(hash: Hash, segments: seq<Segment>, sha256: Option<seq<Octet>>)

  datatype ParsedFile = ParsedFile(id: Hash, totalSize: nat, sha256: Option<seq<Octet>>)

  datatype ParsedTerm = ParsedTerm(file: Hash, index: nat, xorb: Hash, chunkStart: nat, chunkEnd: nat,
                                   byteStart: nat, byteEnd: nat, unpackedStart: nat, unpackedEnd: nat)

  datatype Reason = EmptyChunkRange | BeyondChunks | EmptyByteRange

  datatype ShardErr = EmptyFileList | InconsistentTerm(file: Hash, index: nat, reason: Reason)

  datatype ParsedShard = ParsedShard(referenced: seq<Hash>, files: seq<ParsedFile>, terms: seq<ParsedTerm>)

  type Index = map<Hash, seq<Chunk>>

  // ----- the chunk index

  /** `entry(hash).or_insert(chunks)` for every entry in order. */
  function IndexOfXorbs(xorbs: seq<XorbInfo>): Index {
    if xorbs == [] then map[]
    else
      var front, last := IndexOfXorbs(xorbs[..|xorbs| - 1]), xorbs[|xorbs| - 1];
      if last.hash in front then front else front[last.hash := last.chunks]
  }

  /** The index has exactly the listed xorbs, each with the chunks of its first entry. */
  lemma {:induction false} FirstEntryWins(xorbs: seq<XorbInfo>, h: Hash)
    ensures h in IndexOfXorbs(xorbs) <==> exists i :: 0 <= i < |xorbs| && xorbs[i].hash == h
    ensures h in IndexOfXorbs(xorbs) ==>
      exists i :: 0 <= i < |xorbs| && xorbs[i].hash == h && IndexOfXorbs(xorbs)[h] == xorbs[i].chunks
                  && forall j :: 0 <= j < i ==> xorbs[j].hash != h
  {
    if xorbs != [] {
      var front, n := xorbs[..|xorbs| - 1], |xorbs| - 1;
      FirstEntryWins(front, h);
      if h in IndexOfXorbs(front) {
        var i :| 0 <= i < |front| && front[i].hash == h && IndexOfXorbs(front)[h] == front[i].chunks
                 && forall j :: 0 <= j < i ==> front[j].hash != h;
        assert xorbs[i].hash == h && forall j :: 0 <= j < i ==> xorbs[j] == front[j];
      } else {
        assert forall j :: 0 <= j < n ==> front[j].hash == xorbs[j].hash && xorbs[j].hash != h;
      }
    }
  }

  method BuildIndex(xorbs: seq<XorbInfo>) returns (index: Index)
    ensures index == IndexOfXorbs(xorbs)
  {
    index := map[];
    for i := 0 to |xorbs|
      invariant index == IndexOfXorbs(xorbs[..i])
    {
      assert xorbs[..i + 1][..i] == xorbs[..i];
      if xorbs[i].hash !in index {
        index := index[xorbs[i].hash := xorbs[i].chunks];
      }
    }
    assert xorbs[..|xorbs|] == xorbs;
  }

  // ----- terms

  /** What is wrong with a segment, if anything; the chunks of a xorb that is not listed are not known. */
  function Flaw(index: Index, s: Segment): Option<Reason> {
    if s.chunkStart >= s.chunkEnd then Some(EmptyChunkRange)
    else if s.xorb !in index then None
    else if s.chunkEnd > |index[s.xorb]| then Some(BeyondChunks)
    else if index[s.xorb][s.chunkStart].start >= index[s.xorb][s.chunkEnd - 1].start + index[s.xorb][s.chunkEnd - 1].length
    then Some(EmptyByteRange)
    else None
  }

  /** The octets of the segment in its xorb: from the start of its first chunk to the end of its last. */
  function Bytes(index: Index, s: Segment): (nat, nat)
    requires Flaw(index, s) == None
  {
    if s.xorb in index
    then (index[s.xorb][s.chunkStart].start,
          index[s.xorb][s.chunkEnd - 1].start + index[s.xorb][s.chunkEnd - 1].length)
    else (0, 0)
  }

  function Unpacked(segments: seq<Segment>): nat {
    if segments == [] then 0 else Unpacked(segments[..|segments| - 1]) + segments[|segments| - 1].unpacked
  }

  predicate Flawless(index: Index, segments: seq<Segment>) {
    forall i :: 0 <= i < |segments| ==> Flaw(index, segments[i]) == None
  }

  /** The term of segment `i`: it starts where the segments before it end. */
  function TermAt(index: Index, f: FileInfo, i: nat): ParsedTerm
    requires i < |f.segments| && Flaw(index, f.segments[i]) == None
  {
    var s := f.segments[i];
    ParsedTerm(f.hash, i, s.xorb, s.chunkStart, s.chunkEnd, Bytes(index, s).0, Bytes(index, s).1,
               Unpacked(f.segments[..i]), Unpacked(f.segments[..i]) + s.unpacked)
  }

  function Terms(index: Index, f: FileInfo): seq<ParsedTerm>
    requires Flawless(index, f.segments)
  {
    seq(|f.segments|, i requires 0 <= i < |f.segments| => TermAt(index, f, i))
  }

  function Hashes(segments: seq<Segment>): set<Hash> {
    set s | s in segments :: s.xorb
  }

  /** The first error in the file, or its terms. */
  ghost predicate FileParsed(index: Index, f: FileInfo, r: Result<seq<ParsedTerm>, ShardErr>) {
    match r
    case Ok(terms) => Flawless(index, f.segments) && terms == Terms(index, f)
    case Err(e) =>
      exists i :: 0 <= i < |f.segments| && Flawless(index, f.segments[..i]) && Flaw(index, f.segments[i]).Some?
                  && e == InconsistentTerm(f.hash, i, Flaw(index, f.segments[i]).value)
  }

  method SumUnpacked(segments: seq<Segment>) returns (total: nat)
    ensures total == Unpacked(segments)
  {
    total := 0;
    for i := 0 to |segments|
      invariant total == Unpacked(segments[..i])
    {
      assert segments[..i + 1][..i] == segments[..i];
      total := total + segments[i].unpacked;
    }
    assert segments[..|segments|] == segments;
  }

  /** The checks and the byte range of one segment. */
  method ByteRangeOf(index: Index, s: Segment) returns (r: Result<(nat, nat), Reason>)
    ensures r == if Flaw(index, s).Some? then Err(Flaw(index, s).value) else Ok(Bytes(index, s))
  {
    if s.chunkStart >= s.chunkEnd {
      return Err(EmptyChunkRange);
    }
    if s.xorb in index {
      var chunks := index[s.xorb];
      var first, last := s.chunkStart, s.chunkEnd - 1;
      if last >= |chunks| {
        return Err(BeyondChunks);
      }
      var bs, be := chunks[first].start, chunks[last].start + chunks[last].length;
      if bs >= be {
        return Err(EmptyByteRange);
      }
      r := Ok((bs, be));
    } else {
      r := Ok((0, 0));
    }
  }

  /** The terms of the segments so far. */
  ghost predicate SoFar(index: Index, f: FileInfo, terms: seq<ParsedTerm>) {
    |terms| <= |f.segments|
    && forall i :: 0 <= i < |terms| ==> Flaw(index, f.segments[i]) == None && terms[i] == TermAt(index, f, i)
  }

  lemma OneMore(index: Index, f: FileInfo, terms: seq<ParsedTerm>, t: ParsedTerm)
    requires SoFar(index, f, terms) && |terms| < |f.segments| && Flaw(index, f.segments[|terms|]) == None
    requires t == TermAt(index, f, |terms|)
    ensures SoFar(index, f, terms + [t])
    ensures t.unpackedEnd == Unpacked(f.segments[..|terms| + 1])
  {
    assert f.segments[..|terms| + 1][..|terms|] == f.segments[..|terms|];
  }

  lemma Complete(index: Index, f: FileInfo, terms: seq<ParsedTerm>)
    requires SoFar(index, f, terms) && |terms| == |f.segments|
    ensures FileParsed(index, f, Ok(terms))
  {
  }

  lemma FailsHere(index: Index, f: FileInfo, terms: seq<ParsedTerm>, reason: Reason)
    requires SoFar(index, f, terms) && |terms| < |f.segments| && Flaw(index, f.segments[|terms|]) == Some(reason)
    ensures FileParsed(index, f, Err(InconsistentTerm(f.hash, |terms|, reason)))
  {
    assert Flawless(index, f.segments[..|terms|]);
  }

  /** The loop over the segments of one file; every xorb met before an error is recorded. */
  method ParseSegments(index: Index, f: FileInfo, before: set<Hash>)
    returns (r: Result<seq<ParsedTerm>, ShardErr>, referenced: set<Hash>)
    ensures FileParsed(index, f, r)
    ensures r.Ok? ==> referenced == before + Hashes(f.segments)
  {
    var terms: seq<ParsedTerm> := [];
    var cursor: nat := 0;
    referenced := before;
    for idx := 0 to |f.segments|
      invariant SoFar(index, f, terms) && |terms| == idx
      invariant cursor == Unpacked(f.segments[..idx])
      invariant referenced == before + Hashes(f.segments[..idx])
    {
      var s := f.segments[idx];
      HashesGrow(f.segments, idx);
      referenced := referenced + {s.xorb};
      var bytes := ByteRangeOf(index, s);
      if bytes.Err? {
        FailsHere(index, f, terms, bytes.error);
        return Err(InconsistentTerm(f.hash, idx, bytes.error)), referenced;
      }
      var end: nat := cursor + s.unpacked;
      var t := ParsedTerm(f.hash, idx, s.xorb, s.chunkStart, s.chunkEnd, bytes.value.0, bytes.value.1, cursor, end);
      OneMore(index, f, terms, t);
      terms := terms + [t];
      cursor := end;
    }
    assert f.segments[..|f.segments|] == f.segments;
    Complete(index, f, terms);
    r := Ok(terms);
  }

  lemma HashesGrow(segments: seq<Segment>, i: nat)
    requires i < |segments|
    ensures Hashes(segments[..i + 1]) == Hashes(segments[..i]) + {segments[i].xorb}
  {
    assert segments[..i + 1] == segments[..i] + [segments[i]];
  }

  // ----- the referenced hashes, sorted

  predicate Increasing(s: seq<Hash>) {
    forall i, j :: 0 <= i < j < |s| ==> s[i] < s[j]
  }

  ghost predicate Lists(s: seq<Hash>, keys: set<Hash>) {
    forall h :: h in s <==> h in keys
  }

  function Insert(s: seq<Hash>, h: Hash): seq<Hash> {
    if s == [] || s[|s| - 1] < h then s + [h] else Insert(s[..|s| - 1], h) + [s[|s| - 1]]
  }

  lemma {:induction false} InsertKeeps(s: seq<Hash>, h: Hash)
    requires Increasing(s) && h !in s
    ensures Increasing(Insert(s, h)) && forall x :: x in Insert(s, h) <==> x in s || x == h
  {
    if s != [] && s[|s| - 1] >= h {
      var front, last := s[..|s| - 1], s[|s| - 1];
      InsertKeeps(front, h);
      assert s == front + [last] && last in s;
      var t := Insert(front, h);
      forall i | 0 <= i < |t| ensures t[i] < last {
        assert t[i] in t;
      }
      assert Insert(s, h) == t + [last];
    }
  }

  /** The keys of the set, sorted; the set gives them up in any order. */
  method SortKeys(keys: set<Hash>) returns (r: seq<Hash>)
    ensures Increasing(r) && Lists(r, keys)
  {
    r := [];
    var left := keys;
    while left != {}
      invariant left <= keys && Increasing(r) && Lists(r, keys - left)
      decreases |left|
    {
      var h :| h in left;
      InsertKeeps(r, h);
      r := Insert(r, h);
      left := left - {h};
    }
  }

  /** An increasing list is determined by its elements. */
  lemma {:induction false} IncreasingUnique(a: seq<Hash>, b: seq<Hash>, keys: set<Hash>)
    requires Increasing(a) && Increasing(b) && Lists(a, keys) && Lists(b, keys)
    ensures a == b
  {
    EmptyLists(a, keys);
    EmptyLists(b, keys);
    if a != [] {
      assert a[0] in b && b[0] in a;
      SmallestFirst(a, b[0]);
      SmallestFirst(b, a[0]);
      RestLists(a, keys);
      RestLists(b, keys);
      IncreasingUnique(a[1..], b[1..], keys - {a[0]});
    }
  }

  lemma EmptyLists(a: seq<Hash>, keys: set<Hash>)
    requires Lists(a, keys)
    ensures a == [] <==> keys == {}
  {
    if a != [] {
      assert a[0] in a;
    }
  }

  lemma SmallestFirst(a: seq<Hash>, h: Hash)
    requires Increasing(a) && h in a
    ensures a[0] <= h
  {
  }

  lemma RestLists(a: seq<Hash>, keys: set<Hash>)
    requires Increasing(a) && a != [] && Lists(a, keys)
    ensures Lists(a[1..], keys - {a[0]})
  {
    forall h ensures h in a[1..] <==> h in a && h != a[0] {
      assert a == [a[0]] + a[1..];
    }
  }

  // ----- the shard

  function AllSegments(files: seq<FileInfo>): seq<Segment> {
    if files == [] then [] else AllSegments(files[..|files| - 1]) + files[|files| - 1].segments
  }

  function AllTerms(index: Index, files: seq<FileInfo>): seq<ParsedTerm>
    requires forall i :: 0 <= i < |files| ==> Flawless(index, files[i].segments)
  {
    if files == [] then [] else AllTerms(index, files[..|files| - 1]) + Terms(index, files[|files| - 1])
  }

  function FileRow(f: FileInfo): ParsedFile {
    ParsedFile(f.hash, Unpacked(f.segments),
               if f.sha256.Some? && |f.sha256.value| == 32 then Some(Swap(f.sha256.value)) else None)
  }

  /** The first file with an error decides. */
  ghost predicate Refused(index: Index, files: seq<FileInfo>, e: ShardErr) {
    exists k :: 0 <= k < |files| && (forall i :: 0 <= i < k ==> Flawless(index, files[i].segments))
                && FileParsed(index, files[k], Err(e))
  }

  predicate AllFlawless(index: Index, files: seq<FileInfo>) {
    forall i :: 0 <= i < |files| ==> Flawless(index, files[i].segments)
  }

  ghost predicate ShardParsed(xorbs: seq<XorbInfo>, files: seq<FileInfo>, shard: ParsedShard) {
    var index := IndexOfXorbs(xorbs);
    && AllFlawless(index, files)
    && shard.terms == AllTerms(index, files)
    && |shard.files| == |files| && (forall i :: 0 <= i < |files| ==> shard.files[i] == FileRow(files[i]))
    && Increasing(shard.referenced) && Lists(shard.referenced, Hashes(AllSegments(files)))
  }

  lemma AllSegmentsGrow(files: seq<FileInfo>, k: nat)
    requires k < |files|
    ensures Hashes(AllSegments(files[..k + 1])) == Hashes(AllSegments(files[..k])) + Hashes(files[k].segments)
  {
    assert files[..k + 1][..k] == files[..k];
    var a, b := AllSegments(files[..k]), files[k].segments;
    assert AllSegments(files[..k + 1]) == a + b;
    assert forall s :: s in a + b <==> s in a || s in b;
  }

  /** The row of a file: the SHA-256 goes through its hex form. */
  method FileRowOf(f: FileInfo) returns (row: ParsedFile)
    requires f.sha256.Some? ==> |f.sha256.value| == 32
    ensures row == FileRow(f)
  {
    var total := SumUnpacked(f.segments);
    var sha: Option<seq<Octet>> := None;
    if f.sha256.Some? {
      var hex := DigestToHex(f.sha256.value);
      sha := DecodeHex32(hex);
      PlainOrder(f.sha256.value);
    }
    row := ParsedFile(f.hash, total, sha);
  }

  method ParseShard(xorbs: seq<XorbInfo>, files: seq<FileInfo>) returns (r: Result<ParsedShard, ShardErr>)
    requires forall i :: 0 <= i < |files| ==> files[i].sha256.Some? ==> |files[i].sha256.value| == 32
    ensures r == Err(EmptyFileList) <==> files == []
    ensures r.Ok? ==> ShardParsed(xorbs, files, r.value)
    ensures r.Err? && files != [] ==> Refused(IndexOfXorbs(xorbs), files, r.error)
  {
    if |files| == 0 {
      return Err(EmptyFileList);
    }
    var index := BuildIndex(xorbs);
    var rows: seq<ParsedFile> := [];
    var terms: seq<ParsedTerm> := [];
    var referenced: set<Hash> := {};
    for k := 0 to |files|
      invariant AllFlawless(index, files[..k]) && terms == AllTerms(index, files[..k])
      invariant |rows| == k && forall i :: 0 <= i < k ==> rows[i] == FileRow(files[i])
      invariant referenced == Hashes(AllSegments(files[..k]))
    {
      var row := FileRowOf(files[k]);
      rows := rows + [row];
      var parsed, more := ParseSegments(index, files[k], referenced);
      if parsed.Err? {
        assert forall i :: 0 <= i < k ==> files[..k][i] == files[i];
        assert Refused(index, files, parsed.error);
        return Err(parsed.error);
      }
      AllSegmentsGrow(files, k);
      assert files[..k + 1][..k] == files[..k];
      terms := terms + parsed.value;
      referenced := more;
    }
    assert files[..|files|] == files;
    var sorted := SortKeys(referenced);
    r := Ok(ParsedShard(sorted, rows, terms));
  }

  // ----- what the terms say

  lemma {:induction false} UnpackedMonotone(segments: seq<Segment>, i: nat)
    requires i <= |segments|
    ensures Unpacked(segments[..i]) <= Unpacked(segments)
  {
    if i < |segments| {
      var front := segments[..|segments| - 1];
      assert front[..i] == segments[..i];
      UnpackedMonotone(front, i);
    } else {
      assert segments[..i] == segments;
    }
  }

  /** Every term is that of its segment; consecutive terms meet, the first starts at zero, each is as long as its
      segment says, and the last ends at the size of the file. */
  lemma TermsMeet(index: Index, f: FileInfo, i: nat)
    requires Flawless(index, f.segments) && i < |f.segments|
    ensures var t := Terms(index, f);
            && t[i].index == i && t[i].file == f.hash && t[i].xorb == f.segments[i].xorb
            && t[i].chunkStart == f.segments[i].chunkStart && t[i].chunkEnd == f.segments[i].chunkEnd
            && t[i].unpackedEnd == t[i].unpackedStart + f.segments[i].unpacked
            && t[i].unpackedStart == (if i == 0 then 0 else t[i - 1].unpackedEnd)
            && t[i].unpackedEnd <= FileRow(f).totalSize
            && (i == |f.segments| - 1 ==> t[i].unpackedEnd == FileRow(f).totalSize)
  {
    var s := f.segments;
    assert i > 0 ==> s[..i][..i - 1] == s[..i - 1];
    assert s[..i + 1][..i] == s[..i];
    UnpackedMonotone(s, i + 1);
    assert s[..|s|] == s;
  }

  ghost predicate InTerm(t: ParsedTerm, b: nat) {
    t.unpackedStart <= b < t.unpackedEnd
  }

  lemma {:induction false} SomeSegment(segments: seq<Segment>, b: nat) returns (i: nat)
    requires b < Unpacked(segments)
    ensures i < |segments| && Unpacked(segments[..i]) <= b < Unpacked(segments[..i]) + segments[i].unpacked
  {
    var front := segments[..|segments| - 1];
    if b < Unpacked(front) {
      i := SomeSegment(front, b);
      assert front[..i] == segments[..i];
    } else {
      i := |segments| - 1;
    }
  }

  /** Every byte of a file is in exactly one of its terms, and no term goes beyond the file. */
  lemma TermsPartition(index: Index, f: FileInfo, b: nat)
    requires Flawless(index, f.segments)
    ensures var t := Terms(index, f);
            && (b < FileRow(f).totalSize <==> exists i :: 0 <= i < |t| && InTerm(t[i], b))
            && forall i, j :: 0 <= i < j < |t| ==> !(InTerm(t[i], b) && InTerm(t[j], b))
  {
    var t := Terms(index, f);
    if b < Unpacked(f.segments) {
      var i := SomeSegment(f.segments, b);
      assert InTerm(t[i], b);
    }
    forall i | 0 <= i < |t| ensures t[i].unpackedEnd <= Unpacked(f.segments) {
      TermsMeet(index, f, i);
    }
    forall i, j | 0 <= i < j < |t| ensures t[i].unpackedEnd <= t[j].unpackedStart {
      assert f.segments[..j][..i + 1] == f.segments[..i + 1] && f.segments[..i + 1][..i] == f.segments[..i];
      UnpackedMonotone(f.segments[..j], i + 1);
    }
  }

  /** A term of a listed xorb has a byte range that is not empty, from the start of its first chunk to the end
      of its last; a term of any other xorb has none. */
  lemma TermBytes(xorbs: seq<XorbInfo>, f: FileInfo, i: nat)
    requires Flawless(IndexOfXorbs(xorbs), f.segments) && i < |f.segments|
    ensures var t := Terms(IndexOfXorbs(xorbs), f)[i];
            if exists k :: 0 <= k < |xorbs| && xorbs[k].hash == t.xorb then
              exists k :: 0 <= k < |xorbs| && xorbs[k].hash == t.xorb && t.chunkStart < t.chunkEnd <= |xorbs[k].chunks|
                          && (forall j :: 0 <= j < k ==> xorbs[j].hash != t.xorb)
                          && t.byteStart == xorbs[k].chunks[t.chunkStart].start < t.byteEnd
                          && t.byteEnd == xorbs[k].chunks[t.chunkEnd - 1].start + xorbs[k].chunks[t.chunkEnd - 1].length
            else t.byteStart == t.byteEnd == 0
  {
    FirstEntryWins(xorbs, f.segments[i].xorb);
  }

  ghost predicate FirstEntry(xorbs: seq<XorbInfo>, k: nat, h: Hash) {
    k < |xorbs| && xorbs[k].hash == h && forall j :: 0 <= j < k ==> xorbs[j].hash != h
  }

  /** A segment is accepted exactly when it has chunks and, if its xorb is listed, the first entry of the xorb has
      all of them and they have octets between the start of the first and the end of the last. */
  lemma FlawExact(xorbs: seq<XorbInfo>, s: Segment)
    ensures Flaw(IndexOfXorbs(xorbs), s) == None <==>
      && s.chunkStart < s.chunkEnd
      && forall k: nat :: FirstEntry(xorbs, k, s.xorb) ==>
           var chunks := xorbs[k].chunks;
           && s.chunkEnd <= |chunks|
           && chunks[s.chunkStart].start < chunks[s.chunkEnd - 1].start + chunks[s.chunkEnd - 1].length
  {
    FirstEntryWins(xorbs, s.xorb);
    if s.xorb in IndexOfXorbs(xorbs) {
      var i :| 0 <= i < |xorbs| && xorbs[i].hash == s.xorb && IndexOfXorbs(xorbs)[s.xorb] == xorbs[i].chunks
               && forall j :: 0 <= j < i ==> xorbs[j].hash != s.xorb;
      assert FirstEntry(xorbs, i, s.xorb);
      forall k: nat | FirstEntry(xorbs, k, s.xorb) ensures k == i {
      }
    }
  }

  /** The row of a file has its hash, and its SHA-256, if there is one, with every group of octets reversed. */
  lemma RowExact(f: FileInfo, g: nat, j: nat)
    requires (f.sha256.Some? ==> |f.sha256.value| == 32) && g < 4 && j < 8
    ensures var row := FileRow(f);
      && row.id == f.hash && (row.sha256.Some? <==> f.sha256.Some?)
      && (f.sha256.Some? ==>
            |row.sha256.value| == 32 && row.sha256.value[8 * g + j] == f.sha256.value[8 * g + 7 - j])
  {
    if f.sha256.Some? {
      SwapAt(f.sha256.value, g, j);
    }
  }

  /** A hash is referenced exactly when some segment of some file names it. */
  lemma {:induction false} ReferencedExact(files: seq<FileInfo>, h: Hash)
    ensures h in Hashes(AllSegments(files)) <==>
      exists k, i :: 0 <= k < |files| && 0 <= i < |files[k].segments| && files[k].segments[i].xorb == h
  {
    if files != [] {
      var n := |files| - 1;
      ReferencedExact(files[..n], h);
      assert files[..n + 1] == files;
      AllSegmentsGrow(files, n);
      if k, i :| 0 <= k < |files| && 0 <= i < |files[k].segments| && files[k].segments[i].xorb == h {
        if k < n {
          assert files[..n][k] == files[k];
        } else {
          assert files[n].segments[i] in files[n].segments;
        }
      }
      if h in Hashes(files[n].segments) {
        var s :| s in files[n].segments && s.xorb == h;
        var i :| 0 <= i < |files[n].segments| && files[n].segments[i] == s;
      }
    }
  }

  function Before(files: seq<FileInfo>): nat {
    if files == [] then 0 else Before(files[..|files| - 1]) + |files[|files| - 1].segments|
  }

  /** The terms of the shard are those of its files, one file after the other, each in segment order. */
  lemma {:induction false} TermsInOrder(index: Index, files: seq<FileInfo>, k: nat, i: nat)
    requires AllFlawless(index, files) && k < |files| && i < |files[k].segments|
    ensures |AllTerms(index, files)| == Before(files)
    ensures Before(files[..k]) + i < Before(files)
    ensures AllTerms(index, files)[Before(files[..k]) + i] == Terms(index, files[k])[i]
  {
    var front := files[..|files| - 1];
    TermCount(index, front);
    if k < |front| {
      assert front[..k] == files[..k];
      TermsInOrder(index, front, k, i);
    } else {
      assert files[..k] == front;
    }
  }

  lemma {:induction false} TermCount(index: Index, files: seq<FileInfo>)
    requires AllFlawless(index, files)
    ensures |AllTerms(index, files)| == Before(files)
  {
    if files != [] {
      TermCount(index, files[..|files| - 1]);
    }
  }

  /** The parse succeeds exactly when there is a file and no segment has a flaw. */
  lemma RefusedExact(index: Index, files: seq<FileInfo>)
    ensures (exists e :: Refused(index, files, e)) <==> !AllFlawless(index, files)
  {
    if !AllFlawless(index, files) {
      var k := FirstFlawedFile(index, files);
      var i := FirstFlaw(index, files[k].segments);
      assert FileParsed(index, files[k], Err(InconsistentTerm(files[k].hash, i, Flaw(index, files[k].segments[i]).value)));
      assert Refused(index, files, InconsistentTerm(files[k].hash, i, Flaw(index, files[k].segments[i]).value));
    }
  }

  lemma {:induction false} FirstFlawedFile(index: Index, files: seq<FileInfo>) returns (k: nat)
    requires !AllFlawless(index, files)
    ensures k < |files| && !Flawless(index, files[k].segments)
    ensures forall i :: 0 <= i < k ==> Flawless(index, files[i].segments)
  {
    var front := files[..|files| - 1];
    if AllFlawless(index, front) {
      k := |files| - 1;
      assert forall i :: 0 <= i < k ==> files[i] == front[i];
    } else {
      k := FirstFlawedFile(index, front);
      assert forall i :: 0 <= i <= k ==> files[i] == front[i];
    }
  }

  lemma {:induction false} FirstFlaw(index: Index, segments: seq<Segment>) returns (i: nat)
    requires !Flawless(index, segments)
    ensures i < |segments| && Flaw(index, segments[i]).Some? && Flawless(index, segments[..i])
  {
    var front := segments[..|segments| - 1];
    if Flawless(index, front) {
      i := |segments| - 1;
    } else {
      i := FirstFlaw(index, front);
      assert front[..i] == segments[..i];
    }
  }
}
