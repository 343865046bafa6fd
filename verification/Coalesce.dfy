/**
 * Coalescing of byte spans (openweights-cas-core, coalesce.rs): the end-exclusive spans of the terms of one
 * xorb become end-inclusive ranges, sorted, disjoint and non-adjacent.
 */
module Coalesce {
  import opened Prelude

  type Hash = seq<Byte>

  /** End-exclusive. */
  datatype Span = Span(start: nat, end: nat)

  /** End-inclusive, as in an HTTP range. */
  datatype ByteRange = ByteRange(start: nat, endInclusive: nat)

  datatype Term = Term(xorb: Hash, byteStart: nat, byteEnd: nat)

  /** The database stores offsets as signed 64-bit integers. */
  predicate Offsets(spans: seq<Span>) {
    forall i :: 0 <= i < |spans| ==> spans[i].start <= spans[i].end < U64 / 2
  }

  ghost predicate Covers(spans: seq<Span>, b: nat) {
    exists i :: 0 <= i < |spans| && spans[i].start <= b < spans[i].end
  }

  ghost predicate SameBytes(a: seq<Span>, b: seq<Span>) {
    forall x: nat :: Covers(a, x) <==> Covers(b, x)
  }

  /** Sorted, non-empty, disjoint and non-adjacent. */
  predicate Normal(spans: seq<Span>) {
    && (forall i :: 0 <= i < |spans| ==> spans[i].start < spans[i].end)
    && Apart(spans)
  }

  predicate Apart(spans: seq<Span>) {
    forall i, j :: 0 <= i < j < |spans| ==> spans[i].end < spans[j].start
  }

  /** Every empty span is touched by a span with bytes. */
  predicate Touched(spans: seq<Span>) {
    forall i :: 0 <= i < |spans| && spans[i].start == spans[i].end ==> TouchedAt(spans, spans[i].start)
  }

  predicate TouchedAt(spans: seq<Span>, s: nat) {
    exists j :: 0 <= j < |spans| && spans[j].start <= s <= spans[j].end && spans[j].start < spans[j].end
  }

  // ----- sorting by start; spans with the same start end up in any order

  predicate Sorted(spans: seq<Span>) {
    forall i, j :: 0 <= i < j < |spans| ==> spans[i].start <= spans[j].start
  }

  lemma InsertSorted(sorted: seq<Span>, k: nat, s: Span)
    requires Sorted(sorted) && k <= |sorted|
    requires forall j :: 0 <= j < k ==> sorted[j].start < s.start
    requires k < |sorted| ==> s.start <= sorted[k].start
    ensures Sorted(sorted[..k] + [s] + sorted[k..])
  {
    var r := sorted[..k] + [s] + sorted[k..];
    forall i | 0 <= i < |r| ensures r[i] == if i < k then sorted[i] else if i == k then s else sorted[i - 1] {
    }
  }

  lemma InsertMultiset(sorted: seq<Span>, k: nat, s: Span)
    requires k <= |sorted|
    ensures multiset(sorted[..k] + [s] + sorted[k..]) == multiset(sorted) + multiset{s}
  {
    assert sorted == sorted[..k] + sorted[k..];
  }

  /** Where `s` goes into a sorted list. */
  method Position(sorted: seq<Span>, s: Span) returns (k: nat)
    ensures k <= |sorted| && (k < |sorted| ==> s.start <= sorted[k].start)
    ensures forall j :: 0 <= j < k ==> sorted[j].start < s.start
  {
    k := 0;
    while k < |sorted| && sorted[k].start < s.start
      invariant 0 <= k <= |sorted|
      invariant forall j :: 0 <= j < k ==> sorted[j].start < s.start
    {
      k := k + 1;
    }
  }

  /** `sort_unstable_by_key` on the start. */
  method SortByStart(spans: seq<Span>) returns (sorted: seq<Span>)
    ensures Sorted(sorted) && multiset(sorted) == multiset(spans)
  {
    sorted := [];
    for i := 0 to |spans|
      invariant Sorted(sorted) && multiset(sorted) == multiset(spans[..i])
    {
      var k := Position(sorted, spans[i]);
      InsertSorted(sorted, k, spans[i]);
      InsertMultiset(sorted, k, spans[i]);
      assert spans[..i + 1] == spans[..i] + [spans[i]];
      sorted := sorted[..k] + [spans[i]] + sorted[k..];
    }
    assert spans[..|spans|] == spans;
  }

  // ----- merging

  /** Span `s` lies, with its end points, within one of the merged spans. */
  ghost predicate Inside(s: Span, merged: seq<Span>) {
    exists m :: 0 <= m < |merged| && merged[m].start <= s.start && s.end <= merged[m].end
  }

  ghost predicate StartsAt(spans: seq<Span>, x: nat) {
    exists i :: 0 <= i < |spans| && spans[i].start == x
  }

  /** The merged spans are the connected pieces of the given ones, where spans that touch are connected. */
  ghost predicate Pieces(spans: seq<Span>, merged: seq<Span>) {
    && Apart(merged) && Forward(merged)
    && (forall m {:trigger StartsAt(spans, merged[m].start)} :: 0 <= m < |merged| ==> StartsAt(spans, merged[m].start))
    && (forall i {:trigger Inside(spans[i], merged)} :: 0 <= i < |spans| ==> Inside(spans[i], merged))
    && SameBytes(spans, merged)
  }

  lemma CoversAppend(spans: seq<Span>, s: Span, x: nat)
    ensures Covers(spans + [s], x) <==> Covers(spans, x) || s.start <= x < s.end
  {
    if Covers(spans, x) {
      var i :| 0 <= i < |spans| && spans[i].start <= x < spans[i].end;
      assert (spans + [s])[i] == spans[i];
    }
    if s.start <= x < s.end {
      assert (spans + [s])[|spans|] == s;
    }
  }

  /** One step of the merge loop. */
  function Absorb(merged: seq<Span>, s: Span): (r: seq<Span>)
    ensures |merged| <= |r| <= |merged| + 1
  {
    var n := |merged|;
    if n > 0 && s.start <= merged[n - 1].end then
      merged[..n - 1] + [Span(merged[n - 1].start, if merged[n - 1].end >= s.end then merged[n - 1].end else s.end)]
    else merged + [s]
  }

  /** Every merged span begins no later than `x`. */
  predicate NotAfter(merged: seq<Span>, x: nat) {
    forall m :: 0 <= m < |merged| ==> merged[m].start <= x
  }

  predicate Forward(spans: seq<Span>) {
    forall i :: 0 <= i < |spans| ==> spans[i].start <= spans[i].end
  }

  lemma AbsorbShape(merged: seq<Span>, s: Span)
    requires Apart(merged) && Forward(merged) && s.start <= s.end && NotAfter(merged, s.start)
    ensures Apart(Absorb(merged, s)) && Forward(Absorb(merged, s)) && NotAfter(Absorb(merged, s), s.start)
  {
  }

  lemma AbsorbInside(spans: seq<Span>, merged: seq<Span>, s: Span, i: nat)
    requires i < |spans + [s]| && (i < |spans| ==> Inside(spans[i], merged)) && NotAfter(merged, s.start)
    ensures Inside((spans + [s])[i], Absorb(merged, s))
  {
    var merged' := Absorb(merged, s);
    if i < |spans| {
      var m :| 0 <= m < |merged| && merged[m].start <= spans[i].start && spans[i].end <= merged[m].end;
      assert merged'[m].start <= spans[i].start && spans[i].end <= merged'[m].end;
    } else {
      assert merged'[|merged'| - 1].start <= s.start && s.end <= merged'[|merged'| - 1].end;
    }
  }

  lemma AbsorbStarts(spans: seq<Span>, merged: seq<Span>, s: Span, m: nat)
    requires m < |Absorb(merged, s)| && (m < |merged| ==> StartsAt(spans, merged[m].start))
    ensures StartsAt(spans + [s], Absorb(merged, s)[m].start)
  {
    if m < |merged| {
      var i :| 0 <= i < |spans| && spans[i].start == merged[m].start;
      assert (spans + [s])[i] == spans[i];
    } else {
      assert (spans + [s])[|spans|] == s;
    }
  }

  lemma AbsorbBytes(spans: seq<Span>, merged: seq<Span>, s: Span)
    requires SameBytes(spans, merged) && s.start <= s.end && Forward(merged) && NotAfter(merged, s.start)
    ensures SameBytes(spans + [s], Absorb(merged, s))
  {
    var merged', n := Absorb(merged, s), |merged|;
    forall x: nat ensures Covers(spans + [s], x) <==> Covers(merged', x) {
      CoversAppend(spans, s, x);
      if n > 0 && s.start <= merged[n - 1].end {
        CoversAppend(merged[..n - 1], merged'[n - 1], x);
        CoversAppend(merged[..n - 1], merged[n - 1], x);
        assert merged == merged[..n - 1] + [merged[n - 1]];
      } else {
        CoversAppend(merged, s, x);
      }
    }
  }

  lemma AbsorbPieces(spans: seq<Span>, merged: seq<Span>, s: Span)
    requires Pieces(spans, merged) && s.start <= s.end && NotAfter(merged, s.start)
    ensures Pieces(spans + [s], Absorb(merged, s)) && NotAfter(Absorb(merged, s), s.start)
  {
    AbsorbShape(merged, s);
    forall i | 0 <= i < |spans + [s]| ensures Inside((spans + [s])[i], Absorb(merged, s)) {
      AbsorbInside(spans, merged, s, i);
    }
    forall m | 0 <= m < |Absorb(merged, s)| ensures StartsAt(spans + [s], Absorb(merged, s)[m].start) {
      AbsorbStarts(spans, merged, s, m);
    }
    AbsorbBytes(spans, merged, s);
  }

  /** The merge of a list, as a value. */
  function Merged(spans: seq<Span>): seq<Span> {
    if spans == [] then [] else Absorb(Merged(spans[..|spans| - 1]), spans[|spans| - 1])
  }

  lemma {:induction false} MergedPieces(spans: seq<Span>)
    requires Sorted(spans) && Forward(spans)
    ensures Pieces(spans, Merged(spans))
    ensures spans != [] ==> NotAfter(Merged(spans), spans[|spans| - 1].start)
  {
    if spans != [] {
      var front, last := spans[..|spans| - 1], spans[|spans| - 1];
      MergedPieces(front);
      assert spans == front + [last];
      AbsorbPieces(front, Merged(front), last);
    }
  }

  /** The merge loop over sorted spans. */
  method Merge(spans: seq<Span>) returns (merged: seq<Span>)
    ensures merged == Merged(spans)
  {
    merged := [];
    for i := 0 to |spans|
      invariant merged == Merged(spans[..i])
    {
      var s, e := spans[i].start, spans[i].end;
      assert spans[..i + 1][..i] == spans[..i];
      var n := |merged|;
      if n > 0 && s <= merged[n - 1].end {
        var last := merged[n - 1];
        merged := merged[..n - 1] + [Span(last.start, if last.end >= e then last.end else e)];
      } else {
        merged := merged + [Span(s, e)];
      }
    }
    assert spans[..|spans|] == spans;
  }

  // ----- the normal form

  /** There is no empty piece exactly when every empty span is touched. */
  lemma PiecesNormal(spans: seq<Span>, merged: seq<Span>)
    requires Pieces(spans, merged) && Forward(spans)
    ensures Normal(merged) <==> Touched(spans)
  {
    if Touched(spans) {
      forall m | 0 <= m < |merged| ensures merged[m].start < merged[m].end {
        if merged[m].start == merged[m].end {
          UntouchedPiece(spans, merged, m);
          StrayUntouched(spans, merged[m].start);
        }
      }
    }
    if Normal(merged) {
      forall i | 0 <= i < |spans| && spans[i].start == spans[i].end ensures TouchedAt(spans, spans[i].start) {
        assert Inside(spans[i], merged);
        var m: nat :| m < |merged| && merged[m].start <= spans[i].start && spans[i].end <= merged[m].end;
        TouchedSpan(spans, merged, m, spans[i].start);
      }
    }
  }

  /** An empty span that nothing touches. */
  predicate Stray(spans: seq<Span>, s: nat) {
    Span(s, s) in spans && !TouchedAt(spans, s)
  }

  lemma StrayUntouched(spans: seq<Span>, s: nat)
    requires Stray(spans, s)
    ensures !Touched(spans)
  {
    var i :| 0 <= i < |spans| && spans[i] == Span(s, s);
  }

  /** Empty pieces are exactly the empty spans that nothing touches. */
  lemma StrayPiece(spans: seq<Span>, merged: seq<Span>, s: nat)
    requires Pieces(spans, merged) && Forward(spans)
    ensures Stray(spans, s) <==> Span(s, s) in merged
  {
    if Span(s, s) in merged {
      var m :| 0 <= m < |merged| && merged[m] == Span(s, s);
      UntouchedPiece(spans, merged, m);
    }
    if Stray(spans, s) {
      var i :| 0 <= i < |spans| && spans[i] == Span(s, s);
      assert Inside(spans[i], merged);
      var m: nat :| m < |merged| && merged[m].start <= s <= merged[m].end;
      if merged[m].start < merged[m].end {
        TouchedSpan(spans, merged, m, s);
      }
    }
  }

  lemma UntouchedPiece(spans: seq<Span>, merged: seq<Span>, m: nat)
    requires Apart(merged) && Forward(merged) && m < |merged| && merged[m].start == merged[m].end
    requires Forward(spans) && StartsAt(spans, merged[m].start)
    requires forall i :: 0 <= i < |spans| ==> Inside(spans[i], merged)
    ensures Stray(spans, merged[m].start)
  {
    var s := merged[m].start;
    var i :| 0 <= i < |spans| && spans[i].start == s;
    assert Inside(spans[i], merged);
    EmptyPiece(spans[i], merged, m);
    assert spans[i] == Span(s, s);
    if TouchedAt(spans, s) {
      var j :| 0 <= j < |spans| && spans[j].start <= s <= spans[j].end && spans[j].start < spans[j].end;
      assert Inside(spans[j], merged);
      EmptyPiece(spans[j], merged, m);
    }
  }

  lemma TouchedSpan(spans: seq<Span>, merged: seq<Span>, m: nat, s: nat)
    requires SameBytes(spans, merged) && m < |merged| && merged[m].start < merged[m].end
    requires merged[m].start <= s <= merged[m].end
    ensures TouchedAt(spans, s)
  {
    var x: nat := if s < merged[m].end then s else s - 1;
    assert merged[m].start <= x < merged[m].end;
    assert Covers(merged, x);
    var j :| 0 <= j < |spans| && spans[j].start <= x < spans[j].end;
    assert spans[j].start <= s <= spans[j].end && spans[j].start < spans[j].end;
  }

  /** A span that touches an empty piece is empty. */
  lemma EmptyPiece(s: Span, merged: seq<Span>, m: nat)
    requires Apart(merged) && Forward(merged) && m < |merged| && merged[m].start == merged[m].end
    requires Inside(s, merged) && s.start <= merged[m].start <= s.end
    ensures s.start == s.end
  {
    var k :| 0 <= k < |merged| && merged[k].start <= s.start && s.end <= merged[k].end;
  }

  /** A normal form is determined by its bytes, so it depends neither on the order of the spans nor on how
      an unstable sort orders ties. */
  lemma {:induction false} NormalUnique(a: seq<Span>, b: seq<Span>)
    requires Normal(a) && Normal(b) && SameBytes(a, b)
    ensures a == b
  {
    SameEmpty(a, b);
    if a != [] {
      FirstCovered(a, b);
      FirstCovered(b, a);
      FirstEnd(a, b);
      FirstEnd(b, a);
      TailBytes(a, b);
      NormalUnique(a[1..], b[1..]);
    }
  }

  lemma SameEmpty(a: seq<Span>, b: seq<Span>)
    requires Normal(a) && Normal(b) && SameBytes(a, b)
    ensures a == [] <==> b == []
  {
    if a != [] {
      assert Covers(a, a[0].start);
      var i :| 0 <= i < |b| && b[i].start <= a[0].start < b[i].end;
    }
    if b != [] {
      assert Covers(b, b[0].start);
      var i :| 0 <= i < |a| && a[i].start <= b[0].start < a[i].end;
    }
  }

  lemma FirstCovered(a: seq<Span>, b: seq<Span>)
    requires Normal(a) && Normal(b) && SameBytes(a, b) && a != [] && b != []
    ensures b[0].start <= a[0].start
  {
    assert Covers(a, a[0].start);
    assert Covers(b, a[0].start);
    var i :| 0 <= i < |b| && b[i].start <= a[0].start < b[i].end;
    if i > 0 {
      assert b[0].end < b[i].start;
    }
  }

  lemma NotCoveredAtEnd(spans: seq<Span>, i: nat)
    requires Apart(spans) && Forward(spans) && i < |spans|
    ensures !Covers(spans, spans[i].end)
  {
    forall j | 0 <= j < |spans| ensures !(spans[j].start <= spans[i].end < spans[j].end) {
      if j < i {
        assert spans[j].end < spans[i].start;
      } else if j > i {
        assert spans[i].end < spans[j].start;
      }
    }
  }

  lemma FirstEnd(a: seq<Span>, b: seq<Span>)
    requires Normal(a) && Normal(b) && SameBytes(a, b) && a != [] && b != [] && a[0].start == b[0].start
    ensures a[0].end <= b[0].end
  {
    NotCoveredAtEnd(b, 0);
    assert !Covers(a, b[0].end);
    assert !(a[0].start <= b[0].end < a[0].end);
  }

  lemma TailBytes(a: seq<Span>, b: seq<Span>)
    requires Normal(a) && Normal(b) && SameBytes(a, b) && a != [] && b != [] && a[0] == b[0]
    ensures SameBytes(a[1..], b[1..])
  {
    forall x: nat ensures Covers(a[1..], x) <==> Covers(b[1..], x) {
      TailCovers(a, x);
      TailCovers(b, x);
    }
  }

  lemma TailCovers(a: seq<Span>, x: nat)
    requires Normal(a) && a != []
    ensures Covers(a[1..], x) <==> Covers(a, x) && !(a[0].start <= x < a[0].end)
  {
    if Covers(a[1..], x) {
      var i :| 0 <= i < |a[1..]| && a[1..][i].start <= x < a[1..][i].end;
      assert a[i + 1] == a[1..][i];
    }
    if Covers(a, x) && !(a[0].start <= x < a[0].end) {
      var i :| 0 <= i < |a| && a[i].start <= x < a[i].end;
      assert a[1..][i - 1] == a[i];
    }
  }

  /** No cover of the same bytes has fewer spans than a normal form. */
  lemma FewestSpans(normal: seq<Span>, cover: seq<Span>)
    requires Normal(normal) && SameBytes(normal, cover)
    ensures |normal| <= |cover|
  {
    var owner := seq(|normal|, i requires 0 <= i < |normal| => Owner(normal, cover, i));
    forall i, j | 0 <= i < j < |normal| ensures owner[i] != owner[j] {
      NotCoveredAtEnd(normal, i);
      assert !Covers(cover, normal[i].end);
      assert cover[owner[i]].end <= normal[i].end < normal[j].start;
    }
    var owners := set k | k in owner;
    DistinctCard(owner);
    assert forall k :: k in owners ==> k < |cover|;
    IndexSetBound(owners, |cover|);
  }

  /** A span of the cover that holds the first byte of span `i`. */
  ghost function Owner(normal: seq<Span>, cover: seq<Span>, i: nat): (k: nat)
    requires Normal(normal) && SameBytes(normal, cover) && i < |normal|
    ensures k < |cover| && cover[k].start <= normal[i].start < cover[k].end
  {
    assert Covers(normal, normal[i].start);
    assert Covers(cover, normal[i].start);
    var k :| 0 <= k < |cover| && cover[k].start <= normal[i].start < cover[k].end;
    k
  }

  // ----- the pieces are determined by the spans

  /** The piece that a point of some span lies in. */
  lemma PieceOf(spans: seq<Span>, b: seq<Span>, x: nat) returns (n: nat)
    requires Forward(spans) && StartsAt(spans, x) && forall i :: 0 <= i < |spans| ==> Inside(spans[i], b)
    ensures n < |b| && b[n].start <= x <= b[n].end
  {
    var i: nat :| 0 <= i < |spans| && spans[i].start == x;
    assert Inside(spans[i], b);
    var k: nat :| 0 <= k < |b| && b[k].start <= spans[i].start && spans[i].end <= b[k].end;
    n := k;
  }

  /** A span whose bytes are all covered does not reach beyond the piece that it starts in. */
  lemma WithinPiece(s: Span, b: seq<Span>, n: nat)
    requires Apart(b) && Forward(b) && n < |b| && b[n].start <= s.start <= b[n].end
    requires forall x: nat :: s.start <= x < s.end ==> Covers(b, x)
    ensures s.end <= b[n].end
  {
    if s.end > b[n].end {
      assert Covers(b, b[n].end);
      NotCoveredAtEnd(b, n);
    }
  }

  lemma PieceBytes(a: seq<Span>, b: seq<Span>, m: nat)
    requires m < |a| && forall x: nat :: Covers(a, x) ==> Covers(b, x)
    ensures forall x: nat :: a[m].start <= x < a[m].end ==> Covers(b, x)
  {
    forall x: nat | a[m].start <= x < a[m].end ensures Covers(b, x) {
      assert Covers(a, x);
    }
  }

  /** A piece of one decomposition lies within a piece of any other. */
  lemma PieceWithin(spans: seq<Span>, a: seq<Span>, b: seq<Span>, m: nat) returns (n: nat)
    requires Forward(spans) && Pieces(spans, a) && Pieces(spans, b) && m < |a|
    ensures n < |b| && b[n].start <= a[m].start && a[m].end <= b[n].end
  {
    n := PieceOf(spans, b, a[m].start);
    SameBytesThrough(spans, a, b);
    PieceBytes(a, b, m);
    WithinPiece(a[m], b, n);
  }

  lemma SameBytesThrough(spans: seq<Span>, a: seq<Span>, b: seq<Span>)
    requires SameBytes(spans, a) && SameBytes(spans, b)
    ensures forall x: nat :: Covers(a, x) ==> Covers(b, x)
  {
  }

  lemma NotNested(a: seq<Span>, k: nat, m: nat)
    requires Apart(a) && Forward(a) && k < |a| && m < |a| && a[k].start <= a[m].start && a[m].end <= a[k].end
    ensures k == m
  {
  }

  lemma SamePiece(spans: seq<Span>, a: seq<Span>, b: seq<Span>, m: nat)
    requires Forward(spans) && Pieces(spans, a) && Pieces(spans, b) && m < |a|
    ensures a[m] in b
  {
    var n := PieceWithin(spans, a, b, m);
    var k := PieceWithin(spans, b, a, n);
    NotNested(a, k, m);
  }

  lemma {:induction false} SameList(a: seq<Span>, b: seq<Span>)
    requires Apart(a) && Forward(a) && Apart(b) && Forward(b) && forall s :: s in a <==> s in b
    ensures a == b
  {
    assert |a| > 0 ==> a[0] in b;
    assert |b| > 0 ==> b[0] in a;
    if a != [] {
      assert a[0] == b[0];
      RestOf(a);
      RestOf(b);
      SameList(a[1..], b[1..]);
    }
  }

  lemma RestOf(a: seq<Span>)
    requires Apart(a) && Forward(a) && a != []
    ensures forall s :: s in a[1..] <==> s in a && s != a[0]
  {
    assert a == [a[0]] + a[1..];
  }

  /** The connected pieces do not depend on how they were found. */
  lemma PiecesUnique(spans: seq<Span>, a: seq<Span>, b: seq<Span>)
    requires Forward(spans) && Pieces(spans, a) && Pieces(spans, b)
    ensures a == b
  {
    forall s ensures s in a <==> s in b {
      if m :| 0 <= m < |a| && a[m] == s {
        SamePiece(spans, a, b, m);
      }
      if n :| 0 <= n < |b| && b[n] == s {
        SamePiece(spans, b, a, n);
      }
    }
    SameList(a, b);
  }

  // ----- the result

  function ToExclusive(r: ByteRange): Span {
    Span(r.start, r.endInclusive + 1)
  }

  function Exclusive(ranges: seq<ByteRange>): (spans: seq<Span>)
    ensures |spans| == |ranges|
  {
    seq(|ranges|, i requires 0 <= i < |ranges| => ToExclusive(ranges[i]))
  }

  /** The one place where an end becomes inclusive; the subtraction wraps in 64 bits. */
  function ToInclusive(s: Span): ByteRange
    requires s.end < U64
  {
    ByteRange(s.start, if s.end > 0 then s.end - 1 else U64 - 1)
  }

  function Inclusive(spans: seq<Span>): (r: seq<ByteRange>)
    requires forall i :: 0 <= i < |spans| ==> spans[i].end < U64
    ensures |r| == |spans|
  {
    seq(|spans|, i requires 0 <= i < |spans| => ToInclusive(spans[i]))
  }

  /** The ranges are a normal form of the bytes of the spans. */
  ghost predicate Exact(spans: seq<Span>, ranges: seq<ByteRange>) {
    Normal(Exclusive(ranges)) && SameBytes(spans, Exclusive(ranges))
  }

  lemma PiecesBounded(spans: seq<Span>, merged: seq<Span>)
    requires Offsets(spans) && Pieces(spans, merged)
    ensures forall m :: 0 <= m < |merged| ==> merged[m].end < U64 / 2
  {
    forall m | 0 <= m < |merged| ensures merged[m].end < U64 / 2 {
      if merged[m].start < merged[m].end {
        assert Covers(merged, merged[m].end - 1);
        assert Covers(spans, merged[m].end - 1);
      } else {
        assert StartsAt(spans, merged[m].start);
      }
    }
  }

  /** Converting the pieces gives a normal form of the bytes exactly when no piece is empty: an empty piece
      becomes an inverted range or, at offset 0, a range over all 64-bit offsets. */
  lemma InclusiveExact(spans: seq<Span>, merged: seq<Span>)
    requires Offsets(spans) && Pieces(spans, merged)
    requires forall m :: 0 <= m < |merged| ==> merged[m].end < U64 / 2
    ensures Exact(spans, Inclusive(merged)) <==> Normal(merged)
  {
    if Normal(merged) {
      assert Exclusive(Inclusive(merged)) == merged;
    } else {
      var m :| 0 <= m < |merged| && merged[m].start == merged[m].end;
      EmptyInclusive(spans, merged, m);
    }
  }

  lemma EmptyInclusive(spans: seq<Span>, merged: seq<Span>, m: nat)
    requires Offsets(spans) && m < |merged| && merged[m].start == merged[m].end
    requires forall k :: 0 <= k < |merged| ==> merged[k].end < U64 / 2
    ensures !Exact(spans, Inclusive(merged))
  {
    var r := Exclusive(Inclusive(merged));
    assert r[m] == ToExclusive(ToInclusive(merged[m]));
    if merged[m].end == 0 {
      assert r[m].start <= U64 / 2 < r[m].end;
      assert Covers(r, U64 / 2);
      assert !Covers(spans, U64 / 2);
    }
  }

  lemma CoalesceExact(spans: seq<Span>, sorted: seq<Span>)
    requires Offsets(spans) && Sorted(sorted) && multiset(sorted) == multiset(spans)
    ensures forall m :: 0 <= m < |Merged(sorted)| ==> Merged(sorted)[m].end < U64
    ensures Exact(spans, Inclusive(Merged(sorted))) <==> Touched(spans)
  {
    var merged := Merged(sorted);
    SortedSpans(spans, sorted);
    MergedPieces(sorted);
    PiecesBounded(sorted, merged);
    PiecesNormal(sorted, merged);
    InclusiveExact(sorted, merged);
    SameExact(spans, sorted, Inclusive(merged));
  }

  lemma SameExact(a: seq<Span>, b: seq<Span>, ranges: seq<ByteRange>)
    requires SameBytes(a, b)
    ensures Exact(a, ranges) <==> Exact(b, ranges)
  {
  }

  /** The spans by their start. */
  function InOrder(spans: seq<Span>): seq<Span> {
    if spans == [] then [] else InsertInOrder(InOrder(spans[..|spans| - 1]), spans[|spans| - 1])
  }

  function InsertInOrder(sorted: seq<Span>, s: Span): seq<Span> {
    if sorted != [] && sorted[|sorted| - 1].start > s.start
    then InsertInOrder(sorted[..|sorted| - 1], s) + [sorted[|sorted| - 1]]
    else sorted + [s]
  }

  lemma {:induction false} InsertInOrderMultiset(sorted: seq<Span>, s: Span)
    ensures multiset(InsertInOrder(sorted, s)) == multiset(sorted) + multiset{s}
  {
    if sorted != [] && sorted[|sorted| - 1].start > s.start {
      var front, last := sorted[..|sorted| - 1], sorted[|sorted| - 1];
      InsertInOrderMultiset(front, s);
      assert sorted == front + [last];
    }
  }

  lemma {:induction false} InsertInOrderSorted(sorted: seq<Span>, s: Span)
    requires Sorted(sorted)
    ensures Sorted(InsertInOrder(sorted, s))
  {
    if sorted != [] && sorted[|sorted| - 1].start > s.start {
      var front, last := sorted[..|sorted| - 1], sorted[|sorted| - 1];
      InsertInOrderSorted(front, s);
      InsertInOrderMultiset(front, s);
      var r := InsertInOrder(front, s);
      forall i | 0 <= i < |r| ensures r[i].start <= last.start {
        assert r[i] in multiset(r);
        assert r[i] in front || r[i] == s;
      }
    }
  }

  lemma {:induction false} InOrderSorted(spans: seq<Span>)
    ensures Sorted(InOrder(spans)) && multiset(InOrder(spans)) == multiset(spans)
  {
    if spans != [] {
      var front, last := spans[..|spans| - 1], spans[|spans| - 1];
      InOrderSorted(front);
      InsertInOrderSorted(InOrder(front), last);
      InsertInOrderMultiset(InOrder(front), last);
      assert spans == front + [last];
    }
  }

  /** The connected pieces of any spans, each end made inclusive. */
  function CoalescedRanges(spans: seq<Span>): seq<ByteRange>
    requires Offsets(spans)
  {
    InOrderSorted(spans);
    CoalesceExact(spans, InOrder(spans));
    Inclusive(Merged(InOrder(spans)))
  }

  lemma CoalescedPieces(spans: seq<Span>)
    requires Offsets(spans)
    ensures var merged := Merged(InOrder(spans));
            && Pieces(spans, merged) && forall m :: 0 <= m < |merged| ==> merged[m].end < U64 / 2
  {
    var ordered := InOrder(spans);
    InOrderSorted(spans);
    Permuted(spans, ordered);
    OffsetsForward(ordered);
    MergedPieces(ordered);
    PermutedPieces(ordered, spans, Merged(ordered));
    PiecesBounded(spans, Merged(ordered));
  }

  /** Exactly the empty spans that nothing touches come out as ranges with no bytes or, at offset 0, as a range
      over all 64-bit offsets. */
  lemma StrayRange(spans: seq<Span>, s: nat)
    requires Offsets(spans) && s < U64
    ensures Stray(spans, s) <==> ToInclusive(Span(s, s)) in CoalescedRanges(spans)
  {
    CoalescedPieces(spans);
    OffsetsForward(spans);
    StrayPiece(spans, Merged(InOrder(spans)), s);
    InclusiveEmpty(Merged(InOrder(spans)), s);
  }

  lemma InclusiveEmpty(merged: seq<Span>, s: nat)
    requires s < U64 && forall m :: 0 <= m < |merged| ==> merged[m].end < U64 / 2
    ensures Span(s, s) in merged <==> ToInclusive(Span(s, s)) in Inclusive(merged)
  {
    var ranges := Inclusive(merged);
    if Span(s, s) in merged {
      var m :| 0 <= m < |merged| && merged[m] == Span(s, s);
      assert ranges[m] == ToInclusive(merged[m]);
    }
    if ToInclusive(Span(s, s)) in ranges {
      var m :| 0 <= m < |ranges| && ranges[m] == ToInclusive(Span(s, s));
      assert ranges[m] == ToInclusive(merged[m]);
    }
  }

  /** An empty span beyond offset 0 that nothing touches. */
  predicate StrayBeyond(spans: seq<Span>) {
    exists i ::
      0 <= i < |spans| && spans[i].start > 0 && spans[i].start == spans[i].end && !TouchedAt(spans, spans[i].start)
  }

  predicate ValidRanges(ranges: seq<ByteRange>) {
    forall m :: 0 <= m < |ranges| ==> ranges[m].start <= ranges[m].endInclusive < U64
  }

  /** The coalesced ranges are all in order unless an empty span beyond offset 0 is touched by nothing. */
  lemma CoalescedValid(spans: seq<Span>)
    requires Offsets(spans)
    ensures |CoalescedRanges(spans)| == 0 <==> |spans| == 0
    ensures ValidRanges(CoalescedRanges(spans)) <==> !StrayBeyond(spans)
  {
    var merged, ranges := Merged(InOrder(spans)), CoalescedRanges(spans);
    CoalescedPieces(spans);
    if spans != [] {
      assert Inside(spans[0], merged);
    }
    if StrayBeyond(spans) {
      var i :|
        0 <= i < |spans| && spans[i].start > 0 && spans[i].start == spans[i].end && !TouchedAt(spans, spans[i].start);
      var s := spans[i].start;
      assert spans[i] == Span(s, s);
      StrayRange(spans, s);
    } else {
      forall m | 0 <= m < |ranges| ensures ranges[m].start <= ranges[m].endInclusive < U64 {
        NotStray(spans, merged, m);
        assert ranges[m] == ToInclusive(merged[m]);
      }
    }
  }

  lemma NotStray(spans: seq<Span>, merged: seq<Span>, m: nat)
    requires Offsets(spans) && Pieces(spans, merged) && m < |merged| && !StrayBeyond(spans)
    ensures merged[m].start < merged[m].end || merged[m] == Span(0, 0)
  {
    if merged[m].start == merged[m].end {
      OffsetsForward(spans);
      UntouchedPiece(spans, merged, m);
      StrayAt(spans, merged[m].start);
    }
  }

  lemma StrayAt(spans: seq<Span>, s: nat)
    requires Stray(spans, s)
    ensures s == 0 || StrayBeyond(spans)
  {
    var i :| 0 <= i < |spans| && spans[i] == Span(s, s);
    assert spans[i].start == s;
  }

  lemma CoalescedExact(spans: seq<Span>)
    requires Offsets(spans)
    ensures Exact(spans, CoalescedRanges(spans)) <==> Touched(spans)
  {
    InOrderSorted(spans);
    CoalesceExact(spans, InOrder(spans));
  }

  /** If no empty span beyond offset 0 is left untouched, the one that is lies at offset 0. */
  lemma StrayAtZero(spans: seq<Span>)
    requires Offsets(spans) && !Touched(spans) && !StrayBeyond(spans)
    ensures ByteRange(0, U64 - 1) in CoalescedRanges(spans)
  {
    var i :| 0 <= i < |spans| && spans[i].start == spans[i].end && !TouchedAt(spans, spans[i].start);
    assert spans[i] == Span(0, 0);
    StrayRange(spans, 0);
  }

  lemma OffsetsForward(spans: seq<Span>)
    requires Offsets(spans)
    ensures Forward(spans)
  {
  }

  /** However ties are ordered, the merged spans are the same. */
  lemma SamePieces(a: seq<Span>, b: seq<Span>)
    requires Sorted(a) && Sorted(b) && Offsets(a) && multiset(a) == multiset(b)
    ensures Merged(a) == Merged(b)
  {
    Permuted(a, b);
    OffsetsForward(a);
    OffsetsForward(b);
    MergedPieces(a);
    MergedPieces(b);
    PermutedPieces(a, b, Merged(a));
    PiecesUnique(b, Merged(a), Merged(b));
  }

  /** The spans of one xorb. */
  method CoalesceSpans(spans: seq<Span>) returns (ranges: seq<ByteRange>)
    requires Offsets(spans)
    ensures ranges == CoalescedRanges(spans)
    ensures Exact(spans, ranges) <==> Touched(spans)
  {
    var sorted := SortByStart(spans);
    var merged := Merge(sorted);
    CoalesceExact(spans, sorted);
    InOrderSorted(spans);
    Permuted(spans, sorted);
    SamePieces(sorted, InOrder(spans));
    ranges := Inclusive(merged);
  }

  /** The order of the spans does not matter for what is asked of the result. */
  lemma SortedSpans(spans: seq<Span>, sorted: seq<Span>)
    requires multiset(sorted) == multiset(spans)
    ensures Offsets(spans) <==> Offsets(sorted)
    ensures Touched(spans) <==> Touched(sorted)
    ensures SameBytes(spans, sorted)
  {
    Permuted(spans, sorted);
    Permuted(sorted, spans);
  }

  lemma Permuted(a: seq<Span>, b: seq<Span>)
    requires multiset(a) == multiset(b)
    ensures Offsets(a) ==> Offsets(b)
    ensures Touched(a) ==> Touched(b)
    ensures forall x: nat :: Covers(a, x) ==> Covers(b, x)
  {
    SameElements(a, b);
    forall x: nat | Covers(a, x) ensures Covers(b, x) {
      var i :| 0 <= i < |a| && a[i].start <= x < a[i].end;
      assert a[i] in b;
    }
    if Touched(a) {
      forall i | 0 <= i < |b| && b[i].start == b[i].end ensures TouchedAt(b, b[i].start) {
        assert b[i] in a;
        TouchedElsewhere(a, b, b[i]);
      }
    }
    if Offsets(a) {
      forall i | 0 <= i < |b| ensures b[i].start <= b[i].end < U64 / 2 {
        assert b[i] in a;
      }
    }
  }

  lemma SameElements(a: seq<Span>, b: seq<Span>)
    requires multiset(a) == multiset(b)
    ensures forall s :: s in a <==> s in b
  {
    forall s ensures s in a <==> s in b {
      assert s in a <==> s in multiset(a);
    }
  }

  lemma TouchedElsewhere(a: seq<Span>, b: seq<Span>, s: Span)
    requires Touched(a) && s in a && s.start == s.end && forall t :: t in a ==> t in b
    ensures TouchedAt(b, s.start)
  {
    var k :| 0 <= k < |a| && a[k] == s;
    assert TouchedAt(a, a[k].start);
    var j :| 0 <= j < |a| && a[j].start <= s.start <= a[j].end && a[j].start < a[j].end;
    assert a[j] in b;
    var m :| 0 <= m < |b| && b[m] == a[j];
  }

  lemma PermutedPieces(a: seq<Span>, b: seq<Span>, merged: seq<Span>)
    requires multiset(a) == multiset(b) && Pieces(a, merged)
    ensures Pieces(b, merged)
  {
    SameElements(a, b);
    Permuted(a, b);
    Permuted(b, a);
    forall m | 0 <= m < |merged| ensures StartsAt(b, merged[m].start) {
      assert StartsAt(a, merged[m].start);
      var i :| 0 <= i < |a| && a[i].start == merged[m].start;
      assert a[i] in b;
    }
    forall i | 0 <= i < |b| ensures Inside(b[i], merged) {
      assert b[i] in a;
      var j :| 0 <= j < |a| && a[j] == b[i];
      assert Inside(a[j], merged);
    }
  }

  /** The pieces of any two inputs with the same spans are the same: neither the order of the spans nor that of
      ties matters, whether or not spans are empty. */
  lemma OrderIndependent(a: seq<Span>, b: seq<Span>)
    requires Offsets(a) && multiset(a) == multiset(b)
    ensures Offsets(b) && CoalescedRanges(a) == CoalescedRanges(b)
  {
    Permuted(a, b);
    InOrderSorted(a);
    InOrderSorted(b);
    Permuted(a, InOrder(a));
    SamePieces(InOrder(a), InOrder(b));
  }

  // ----- grouping by xorb

  function SpansOf(terms: seq<Term>, xorb: Hash): seq<Span> {
    if terms == [] then []
    else
      var last := terms[|terms| - 1];
      var front := SpansOf(terms[..|terms| - 1], xorb);
      if last.xorb == xorb then front + [Span(last.byteStart, last.byteEnd)] else front
  }

  predicate TermOf(t: Term, xorb: Hash, s: Span) {
    t.xorb == xorb && t.byteStart == s.start && t.byteEnd == s.end
  }

  /** The positions of the terms of a xorb with this span. */
  function TermsWith(terms: seq<Term>, xorb: Hash, s: Span): set<nat> {
    set i: nat | i < |terms| && TermOf(terms[i], xorb, s)
  }

  /** The group of a xorb has the span of each of its terms, as often as there are such terms, and no other. */
  lemma {:induction false} GroupCount(terms: seq<Term>, xorb: Hash, s: Span)
    ensures multiset(SpansOf(terms, xorb))[s] == |TermsWith(terms, xorb, s)|
  {
    if terms == [] {
      assert TermsWith(terms, xorb, s) == {};
    } else {
      var n := |terms| - 1;
      GroupCount(terms[..n], xorb, s);
      assert TermsWith(terms, xorb, s)
          == TermsWith(terms[..n], xorb, s) + if TermOf(terms[n], xorb, s) then {n} else {};
    }
  }

  lemma GroupMember(terms: seq<Term>, xorb: Hash, s: Span)
    ensures s in SpansOf(terms, xorb) <==> exists i :: 0 <= i < |terms| && TermOf(terms[i], xorb, s)
  {
    GroupCount(terms, xorb, s);
    assert s in SpansOf(terms, xorb) <==> multiset(SpansOf(terms, xorb))[s] > 0;
    if i: nat :| i < |terms| && TermOf(terms[i], xorb, s) {
      assert i in TermsWith(terms, xorb, s);
    } else {
      assert TermsWith(terms, xorb, s) == {};
    }
  }

  predicate HasTerm(terms: seq<Term>, xorb: Hash) {
    exists i :: 0 <= i < |terms| && terms[i].xorb == xorb
  }

  /** The byte of the xorb belongs to some term. */
  ghost predicate InTerm(terms: seq<Term>, xorb: Hash, b: nat) {
    exists i :: 0 <= i < |terms| && terms[i].xorb == xorb && terms[i].byteStart <= b < terms[i].byteEnd
  }

  /** Offset `x` lies in or at the end of a term with bytes. */
  predicate Meets(terms: seq<Term>, xorb: Hash, x: nat) {
    exists j :: 0 <= j < |terms| && terms[j].xorb == xorb && terms[j].byteStart <= x <= terms[j].byteEnd
                && terms[j].byteStart < terms[j].byteEnd
  }

  /** Every term of the xorb without bytes meets one with bytes. */
  predicate TermsTouched(terms: seq<Term>, xorb: Hash) {
    forall i :: 0 <= i < |terms| && terms[i].xorb == xorb && terms[i].byteStart == terms[i].byteEnd ==>
      Meets(terms, xorb, terms[i].byteStart)
  }

  lemma GroupCovers(terms: seq<Term>, xorb: Hash, b: nat)
    ensures Covers(SpansOf(terms, xorb), b) <==> InTerm(terms, xorb, b)
  {
    var spans := SpansOf(terms, xorb);
    if Covers(spans, b) {
      var k :| 0 <= k < |spans| && spans[k].start <= b < spans[k].end;
      GroupMember(terms, xorb, spans[k]);
      var i :| 0 <= i < |terms| && TermOf(terms[i], xorb, spans[k]);
    }
    if InTerm(terms, xorb, b) {
      var i :| 0 <= i < |terms| && terms[i].xorb == xorb && terms[i].byteStart <= b < terms[i].byteEnd;
      var s := Span(terms[i].byteStart, terms[i].byteEnd);
      GroupMember(terms, xorb, s);
      assert TermOf(terms[i], xorb, s);
      var k :| 0 <= k < |spans| && spans[k] == s;
    }
  }

  lemma GroupMeets(terms: seq<Term>, xorb: Hash, x: nat)
    ensures TouchedAt(SpansOf(terms, xorb), x) <==> Meets(terms, xorb, x)
  {
    var spans := SpansOf(terms, xorb);
    if TouchedAt(spans, x) {
      var k :| 0 <= k < |spans| && spans[k].start <= x <= spans[k].end && spans[k].start < spans[k].end;
      GroupMember(terms, xorb, spans[k]);
      var i :| 0 <= i < |terms| && TermOf(terms[i], xorb, spans[k]);
    }
    if Meets(terms, xorb, x) {
      var i :| 0 <= i < |terms| && terms[i].xorb == xorb && terms[i].byteStart <= x <= terms[i].byteEnd
               && terms[i].byteStart < terms[i].byteEnd;
      var s := Span(terms[i].byteStart, terms[i].byteEnd);
      GroupMember(terms, xorb, s);
      assert TermOf(terms[i], xorb, s);
      var k :| 0 <= k < |spans| && spans[k] == s;
    }
  }

  lemma GroupTouched(terms: seq<Term>, xorb: Hash)
    ensures Touched(SpansOf(terms, xorb)) <==> TermsTouched(terms, xorb)
    ensures SpansOf(terms, xorb) != [] <==> HasTerm(terms, xorb)
  {
    var spans := SpansOf(terms, xorb);
    if spans != [] {
      GroupMember(terms, xorb, spans[0]);
    }
    if i :| 0 <= i < |terms| && terms[i].xorb == xorb {
      GroupMember(terms, xorb, Span(terms[i].byteStart, terms[i].byteEnd));
    }
    if Touched(spans) {
      forall i | 0 <= i < |terms| && terms[i].xorb == xorb && terms[i].byteStart == terms[i].byteEnd
        ensures Meets(terms, xorb, terms[i].byteStart)
      {
        var s := Span(terms[i].byteStart, terms[i].byteEnd);
        GroupMember(terms, xorb, s);
        assert TermOf(terms[i], xorb, s);
        var k :| 0 <= k < |spans| && spans[k] == s;
        GroupMeets(terms, xorb, spans[k].start);
      }
    }
    if TermsTouched(terms, xorb) {
      forall k | 0 <= k < |spans| && spans[k].start == spans[k].end ensures TouchedAt(spans, spans[k].start) {
        GroupMember(terms, xorb, spans[k]);
        var i :| 0 <= i < |terms| && TermOf(terms[i], xorb, spans[k]);
        GroupMeets(terms, xorb, terms[i].byteStart);
      }
    }
  }

  /** The ranges are a normal form of the bytes of the xorb's terms. */
  ghost predicate ExactlyTerms(terms: seq<Term>, xorb: Hash, ranges: seq<ByteRange>) {
    Normal(Exclusive(ranges)) && forall b: nat :: Covers(Exclusive(ranges), b) <==> InTerm(terms, xorb, b)
  }

  lemma GroupExact(terms: seq<Term>, xorb: Hash, ranges: seq<ByteRange>)
    ensures Exact(SpansOf(terms, xorb), ranges) <==> ExactlyTerms(terms, xorb, ranges)
  {
    forall b: nat ensures Covers(SpansOf(terms, xorb), b) <==> InTerm(terms, xorb, b) {
      GroupCovers(terms, xorb, b);
    }
  }

  predicate TermOffsets(terms: seq<Term>) {
    forall i :: 0 <= i < |terms| ==> terms[i].byteStart <= terms[i].byteEnd < U64 / 2
  }

  lemma SpansOffsets(terms: seq<Term>, xorb: Hash)
    requires TermOffsets(terms)
    ensures Offsets(SpansOf(terms, xorb))
  {
    if terms != [] {
      SpansOffsets(terms[..|terms| - 1], xorb);
    }
  }

  /** The second loop of `coalesce_terms_by_xorb`: coalesce every group. */
  method CoalesceGroups(groups: map<Hash, seq<Span>>) returns (out: map<Hash, seq<ByteRange>>)
    requires forall h :: h in groups ==> Offsets(groups[h])
    ensures out.Keys == groups.Keys && forall h :: h in groups ==> out[h] == CoalescedRanges(groups[h])
  {
    out := map[];
    var rest := groups.Keys;
    while rest != {}
      invariant rest <= groups.Keys && out.Keys == groups.Keys - rest
      invariant forall h :: h in out ==> out[h] == CoalescedRanges(groups[h])
      decreases |rest|
    {
      var h :| h in rest;
      var ranges := CoalesceSpans(groups[h]);
      out := out[h := ranges];
      rest := rest - {h};
    }
  }

  lemma CoalescedTerms(terms: seq<Term>, xorb: Hash)
    requires TermOffsets(terms)
    ensures Offsets(SpansOf(terms, xorb))
    ensures ExactlyTerms(terms, xorb, CoalescedRanges(SpansOf(terms, xorb))) <==> TermsTouched(terms, xorb)
  {
    SpansOffsets(terms, xorb);
    CoalescedExact(SpansOf(terms, xorb));
    GroupExact(terms, xorb, CoalescedRanges(SpansOf(terms, xorb)));
    GroupTouched(terms, xorb);
  }

  /** `coalesce_terms_by_xorb`: for every xorb of the terms, the ranges are the connected pieces of their spans, and
      the normal form of their bytes exactly when every term without bytes meets one with bytes. */
  method CoalesceTermsByXorb(terms: seq<Term>) returns (out: map<Hash, seq<ByteRange>>)
    requires TermOffsets(terms)
    ensures forall h :: h in out <==> HasTerm(terms, h)
    ensures forall h :: h in out ==> Offsets(SpansOf(terms, h)) && out[h] == CoalescedRanges(SpansOf(terms, h))
    ensures forall h :: h in out ==> (ExactlyTerms(terms, h, out[h]) <==> TermsTouched(terms, h))
  {
    var groups: map<Hash, seq<Span>> := map[];
    for i := 0 to |terms|
      invariant forall h :: h in groups <==> SpansOf(terms[..i], h) != []
      invariant forall h :: h in groups ==> groups[h] == SpansOf(terms[..i], h)
    {
      var t := terms[i];
      assert terms[..i + 1][..i] == terms[..i];
      var group := if t.xorb in groups then groups[t.xorb] else [];
      groups := groups[t.xorb := group + [Span(t.byteStart, t.byteEnd)]];
    }
    assert terms[..|terms|] == terms;
    forall h | h in groups ensures Offsets(groups[h]) {
      SpansOffsets(terms, h);
    }
    out := CoalesceGroups(groups);
    forall h ensures h in out <==> HasTerm(terms, h) {
      GroupTouched(terms, h);
    }
    forall h | h in out ensures ExactlyTerms(terms, h, out[h]) <==> TermsTouched(terms, h) {
      CoalescedTerms(terms, h);
    }
  }
}
