/**
 * The grant check of the gateway (gateway/ranges.go, gateway/handlers.go): requested ranges must lie
 * within the ranges that the signed URL grants.
 */
module GrantCheck {
  import opened Prelude
  import opened Coalesce

  predicate Within(r: ByteRange, g: ByteRange) {
    g.start <= r.start && r.endInclusive <= g.endInclusive
  }

  predicate WithinAny(r: ByteRange, grants: seq<ByteRange>) {
    exists i :: 0 <= i < |grants| && Within(r, grants[i])
  }

  /** `allRangesWithinAny` */
  method AllRangesWithinAny(ranges: seq<ByteRange>, grants: seq<ByteRange>) returns (all: bool)
    ensures all <==> forall i :: 0 <= i < |ranges| ==> WithinAny(ranges[i], grants)
  {
    for i := 0 to |ranges|
      invariant forall j :: 0 <= j < i ==> WithinAny(ranges[j], grants)
    {
      var ok := false;
      var k := 0;
      while k < |grants| && !ok
        invariant 0 <= k <= |grants|
        invariant if ok then WithinAny(ranges[i], grants)
                  else forall j :: 0 <= j < k ==> !Within(ranges[i], grants[j])
      {
        if ranges[i].start >= grants[k].start && ranges[i].endInclusive <= grants[k].endInclusive {
          assert Within(ranges[i], grants[k]);
          ok := true;
        }
        k := k + 1;
      }
      if !ok {
        assert !WithinAny(ranges[i], grants);
        return false;
      }
    }
    all := true;
  }

  // ----- acceptance is containment

  /** Every byte of the range is a byte of the spans. */
  ghost predicate Contained(r: ByteRange, spans: seq<Span>) {
    forall b: nat :: r.start <= b <= r.endInclusive ==> Covers(spans, b)
  }

  /** Whatever the grants, an accepted range has only granted bytes. */
  lemma AcceptedIsContained(r: ByteRange, grants: seq<ByteRange>)
    requires WithinAny(r, grants)
    ensures Contained(r, Exclusive(grants))
  {
    var i :| 0 <= i < |grants| && Within(r, grants[i]);
    forall b: nat | r.start <= b <= r.endInclusive ensures Covers(Exclusive(grants), b) {
      assert Exclusive(grants)[i] == ToExclusive(grants[i]);
    }
  }

  /** For coalesced grants the converse holds as well. */
  lemma ContainedIsAccepted(r: ByteRange, grants: seq<ByteRange>)
    requires r.start <= r.endInclusive && Normal(Exclusive(grants)) && Contained(r, Exclusive(grants))
    ensures WithinAny(r, grants)
  {
    var spans := Exclusive(grants);
    assert Covers(spans, r.start);
    var i :| 0 <= i < |spans| && spans[i].start <= r.start < spans[i].end;
    NotCoveredAtEnd(spans, i);
    assert spans[i] == ToExclusive(grants[i]);
    assert !(r.start <= spans[i].end <= r.endInclusive);
    assert Within(r, grants[i]);
  }

  /** Two adjacent grants that were not coalesced refuse a range across them. */
  lemma UncoalescedGrantsRefuse()
    ensures var grants := [ByteRange(0, 4), ByteRange(5, 9)];
            Contained(ByteRange(3, 6), Exclusive(grants)) && !WithinAny(ByteRange(3, 6), grants)
  {
    var grants := [ByteRange(0, 4), ByteRange(5, 9)];
    assert Exclusive(grants)[0] == Span(0, 5) && Exclusive(grants)[1] == Span(5, 10);
    forall b: nat | 3 <= b <= 6 ensures Covers(Exclusive(grants), b) {
      assert Exclusive(grants)[if b < 5 then 0 else 1].start <= b < Exclusive(grants)[if b < 5 then 0 else 1].end;
    }
  }

  predicate Ordered(grants: seq<ByteRange>) {
    forall i :: 0 <= i < |grants| ==> grants[i].start <= grants[i].endInclusive
  }

  /** The connected pieces of the granted bytes. */
  function PiecesOf(grants: seq<ByteRange>): seq<Span> {
    Merged(InOrder(Exclusive(grants)))
  }

  /** Every connected piece of the granted bytes lies within one grant. */
  predicate Connected(grants: seq<ByteRange>) {
    forall m :: 0 <= m < |PiecesOf(grants)| ==> InGrant(PiecesOf(grants)[m], grants)
  }

  predicate InGrant(p: Span, grants: seq<ByteRange>) {
    exists i :: 0 <= i < |grants| && grants[i].start <= p.start && p.end <= grants[i].endInclusive + 1
  }

  lemma PiecesOfGrants(grants: seq<ByteRange>)
    requires Ordered(grants)
    ensures Coalesce.Forward(Exclusive(grants)) && Pieces(Exclusive(grants), PiecesOf(grants))
  {
    var spans := Exclusive(grants);
    forall i | 0 <= i < |spans| ensures spans[i].start <= spans[i].end {
      assert spans[i] == ToExclusive(grants[i]);
    }
    InOrderSorted(spans);
    SameElements(spans, InOrder(spans));
    forall i | 0 <= i < |InOrder(spans)| ensures InOrder(spans)[i].start <= InOrder(spans)[i].end {
      assert InOrder(spans)[i] in spans;
    }
    MergedPieces(InOrder(spans));
    PermutedPieces(InOrder(spans), spans, PiecesOf(grants));
  }

  /** A range of granted bytes lies within one of their pieces. */
  lemma ContainedInPiece(r: ByteRange, grants: seq<ByteRange>) returns (n: nat)
    requires Ordered(grants) && r.start <= r.endInclusive && Contained(r, Exclusive(grants))
    ensures n < |PiecesOf(grants)| && PiecesOf(grants)[n].start <= r.start && r.endInclusive < PiecesOf(grants)[n].end
  {
    var pieces := PiecesOf(grants);
    PiecesOfGrants(grants);
    assert Covers(Exclusive(grants), r.start);
    assert Covers(pieces, r.start);
    var k: nat :| 0 <= k < |pieces| && pieces[k].start <= r.start < pieces[k].end;
    n := k;
    forall x: nat | r.start <= x < r.endInclusive + 1 ensures Covers(pieces, x) {
      assert Covers(Exclusive(grants), x);
    }
    WithinPiece(ToExclusive(r), pieces, n);
  }

  /** The bytes of a piece are granted. */
  lemma PieceContained(grants: seq<ByteRange>, m: nat)
    requires Ordered(grants) && m < |PiecesOf(grants)| && PiecesOf(grants)[m].start < PiecesOf(grants)[m].end
    ensures Contained(ByteRange(PiecesOf(grants)[m].start, PiecesOf(grants)[m].end - 1), Exclusive(grants))
  {
    var p := PiecesOf(grants)[m];
    PiecesOfGrants(grants);
    forall b: nat | p.start <= b <= p.end - 1 ensures Covers(Exclusive(grants), b) {
      assert Covers(PiecesOf(grants), b);
    }
  }

  /** Pieces of ordered grants have bytes. */
  lemma PieceHasBytes(grants: seq<ByteRange>, m: nat)
    requires Ordered(grants) && m < |PiecesOf(grants)|
    ensures PiecesOf(grants)[m].start < PiecesOf(grants)[m].end
  {
    var spans, pieces := Exclusive(grants), PiecesOf(grants);
    PiecesOfGrants(grants);
    assert StartsAt(spans, pieces[m].start);
    var i :| 0 <= i < |spans| && spans[i].start == pieces[m].start;
    assert spans[i] == ToExclusive(grants[i]) && Covers(spans, spans[i].start);
    assert Covers(pieces, spans[i].start);
  }

  /** For any ordered grants: acceptance is containment, for all ranges, if and only if every connected piece of
      the granted bytes lies within one grant. */
  lemma CheckExact(grants: seq<ByteRange>)
    requires Ordered(grants)
    ensures Connected(grants) <==>
      forall r: ByteRange :: r.start <= r.endInclusive ==> (WithinAny(r, grants) <==> Contained(r, Exclusive(grants)))
  {
    var pieces := PiecesOf(grants);
    if Connected(grants) {
      forall r: ByteRange | r.start <= r.endInclusive ensures WithinAny(r, grants) <==> Contained(r, Exclusive(grants)) {
        if WithinAny(r, grants) {
          AcceptedIsContained(r, grants);
        }
        if Contained(r, Exclusive(grants)) {
          var n := ContainedInPiece(r, grants);
          assert InGrant(pieces[n], grants);
          var i :| 0 <= i < |grants| && grants[i].start <= pieces[n].start && pieces[n].end <= grants[i].endInclusive + 1;
          assert Within(r, grants[i]);
        }
      }
    } else {
      var m :| 0 <= m < |pieces| && !InGrant(pieces[m], grants);
      PieceHasBytes(grants, m);
      PieceContained(grants, m);
      NotWithin(pieces[m], grants);
    }
  }

  lemma NotWithin(p: Span, grants: seq<ByteRange>)
    requires !InGrant(p, grants) && p.start < p.end
    ensures !WithinAny(ByteRange(p.start, p.end - 1), grants)
  {
  }

  /** Against the coalesced ranges of a xorb's terms, a list of ranges is accepted exactly when every
      requested byte is a byte of some term. */
  lemma GrantCheckExact(spans: seq<Span>, grants: seq<ByteRange>, ranges: seq<ByteRange>)
    requires Exact(spans, grants)
    requires forall i :: 0 <= i < |ranges| ==> ranges[i].start <= ranges[i].endInclusive
    ensures (forall i :: 0 <= i < |ranges| ==> WithinAny(ranges[i], grants))
            <==> forall i :: 0 <= i < |ranges| ==> Contained(ranges[i], spans)
  {
    forall i | 0 <= i < |ranges| ensures WithinAny(ranges[i], grants) <==> Contained(ranges[i], spans) {
      if WithinAny(ranges[i], grants) {
        AcceptedIsContained(ranges[i], grants);
      }
      if Contained(ranges[i], spans) {
        ContainedIsAccepted(ranges[i], grants);
      }
    }
  }

  /** The range of each term on its own is admitted. */
  lemma OwnRangeAdmitted(spans: seq<Span>, grants: seq<ByteRange>, i: nat)
    requires Exact(spans, grants) && i < |spans| && spans[i].start < spans[i].end
    ensures WithinAny(ByteRange(spans[i].start, spans[i].end - 1), grants)
  {
    var r := ByteRange(spans[i].start, spans[i].end - 1);
    forall b: nat | r.start <= b <= r.endInclusive ensures Covers(Exclusive(grants), b) {
      assert Covers(spans, b);
    }
    ContainedIsAccepted(r, grants);
  }

  // ----- the handler

  datatype Refusal = Forbidden

  /** The grant step of `ServeXorb`: without a Range header a bounded URL stands for its granted ranges;
      an unbounded URL grants everything. */
  method EffectiveRanges(requested: seq<ByteRange>, grants: seq<ByteRange>)
    returns (r: Result<seq<ByteRange>, Refusal>)
    ensures grants == [] ==> r == Ok(requested)
    ensures grants != [] && requested == [] ==> r == Ok(grants)
    ensures grants != [] && requested != [] ==>
      r == if forall i :: 0 <= i < |requested| ==> WithinAny(requested[i], grants) then Ok(requested) else Err(Forbidden)
    ensures grants != [] && r.Ok? ==>
      r.value != [] && forall i :: 0 <= i < |r.value| ==> Contained(r.value[i], Exclusive(grants))
  {
    var ranges := requested;
    if |grants| > 0 {
      if |ranges| == 0 {
        ranges := grants;
      } else {
        var all := AllRangesWithinAny(ranges, grants);
        if !all {
          return Err(Forbidden);
        }
      }
      forall i | 0 <= i < |ranges| ensures Contained(ranges[i], Exclusive(grants)) {
        assert requested == [] ==> Within(ranges[i], grants[i]);
        AcceptedIsContained(ranges[i], grants);
      }
    }
    r := Ok(ranges);
  }
}
