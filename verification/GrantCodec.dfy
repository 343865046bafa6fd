/**
 * The range field of a signed URL: minted by the Rust side as `s1-e1,s2-e2,...`, parsed by both sides
 * (signed_url.rs and signed_url.go).
 */
module GrantCodec {
  import opened Prelude
  import opened Text

  type Segment = (nat, nat)

  predicate ValidSegments(segs: seq<Segment>) {
    segs != [] && forall i :: 0 <= i < |segs| ==> segs[i].0 <= segs[i].1 < U64
  }

  function Valid(g: Segment): Option<Segment> {
    if g.0 <= g.1 < U64 then Some(g) else None
  }

  function PrintSegment(g: Segment): string {
    Print(g.0) + "-" + Print(g.1)
  }

  /** `mint_v1_multi_range`: the joined segments. */
  function PrintSegments(segs: seq<Segment>): string {
    Join(SegmentParts(segs), ',')
  }

  function SegmentParts(segs: seq<Segment>): (parts: seq<string>)
    ensures |parts| == |segs|
  {
    seq(|segs|, i requires 0 <= i < |segs| => PrintSegment(segs[i]))
  }

  // ----- one segment

  /** Go: the first dash must have something on both sides. */
  function SegmentGo(p: string): Option<Segment> {
    var dash := IndexOf(p, '-');
    if dash == |p| || dash == 0 || dash == |p| - 1 then None
    else
      var start, end := ParseGo(p[..dash]), ParseGo(p[dash + 1..]);
      if start == None || end == None || start.value > end.value then None else Some((start.value, end.value))
  }

  /** Rust: `split_once('-')`, then both bounds parse. */
  function SegmentRust(p: string): Option<Segment> {
    var dash := IndexOf(p, '-');
    if dash == |p| then None
    else
      var start, end := ParseRust(p[..dash]), ParseRust(p[dash + 1..]);
      if start == None || end == None || start.value > end.value then None else Some((start.value, end.value))
  }

  /** A printed segment reads back on both sides if it is valid, and is refused by both if not. */
  lemma SegmentRoundTrip(g: Segment)
    ensures SegmentGo(PrintSegment(g)) == SegmentRust(PrintSegment(g)) == Valid(g)
    ensures ',' !in PrintSegment(g)
  {
    PrintParse(g.0);
    PrintParse(g.1);
    PrintedClean(g.0);
    PrintedClean(g.1);
    AroundDash(Print(g.0), Print(g.1));
  }

  lemma PrintedClean(n: nat)
    ensures Print(n) != "" && '-' !in Print(n) && ',' !in Print(n)
  {
    PrintDigits(n);
  }

  lemma SegmentsAgree(p: string)
    ensures SegmentGo(p) == if '+' in p then None else SegmentRust(p)
  {
    var dash := IndexOf(p, '-');
    if dash < |p| {
      ParsersAgree(p[..dash]);
      ParsersAgree(p[dash + 1..]);
      assert p == p[..dash] + ['-'] + p[dash + 1..];
    }
  }

  // ----- the whole field

  /** All parts parse, in order. */
  function All(parse: string -> Option<Segment>, parts: seq<string>): Option<seq<Segment>> {
    if parts == [] then Some([])
    else
      var front, last := All(parse, parts[..|parts| - 1]), parse(parts[|parts| - 1]);
      if front == None || last == None then None else Some(front.value + [last.value])
  }

  function FieldGo(s: string): Option<seq<Segment>> {
    if s == "" then None else All(SegmentGo, Split(s, ','))
  }

  function FieldRust(s: string): Option<seq<Segment>> {
    if s == "" then None else All(SegmentRust, Split(s, ','))
  }

  lemma AllNone(parse: string -> Option<Segment>, parts: seq<string>, i: nat)
    requires i < |parts| && parse(parts[i]) == None
    ensures All(parse, parts) == None
  {
    if i < |parts| - 1 {
      AllNone(parse, parts[..|parts| - 1], i);
    }
  }

  /** `parseRangeSegments` in Go. */
  method ParseRangeSegmentsGo(s: string) returns (r: Option<seq<Segment>>)
    ensures r == FieldGo(s)
  {
    if s == "" {
      return None;
    }
    var parts := Split(s, ',');
    var out: seq<Segment> := [];
    for k := 0 to |parts|
      invariant All(SegmentGo, parts[..k]) == Some(out)
    {
      var p := parts[k];
      assert parts[..k + 1][..k] == parts[..k];
      AllFails(SegmentGo, parts, k);
      var dash := IndexOf(p, '-');
      if dash == |p| || dash == 0 || dash == |p| - 1 {
        return None;
      }
      var start, end := ParseGo(p[..dash]), ParseGo(p[dash + 1..]);
      if start == None || end == None || start.value > end.value {
        return None;
      }
      out := out + [(start.value, end.value)];
    }
    assert parts[..|parts|] == parts;
    r := Some(out);
  }

  /** `parse_range_segments` in Rust. */
  method ParseRangeSegmentsRust(s: string) returns (r: Option<seq<Segment>>)
    ensures r == FieldRust(s)
  {
    if s == "" {
      return None;
    }
    var parts := Split(s, ',');
    var out: seq<Segment> := [];
    for k := 0 to |parts|
      invariant All(SegmentRust, parts[..k]) == Some(out)
    {
      var p := parts[k];
      assert parts[..k + 1][..k] == parts[..k];
      AllFails(SegmentRust, parts, k);
      var dash := IndexOf(p, '-');
      if dash == |p| {
        return None;
      }
      var start, end := ParseRust(p[..dash]), ParseRust(p[dash + 1..]);
      if start == None || end == None || start.value > end.value {
        return None;
      }
      out := out + [(start.value, end.value)];
    }
    assert parts[..|parts|] == parts;
    r := Some(out);
  }

  lemma AllFails(parse: string -> Option<Segment>, parts: seq<string>, i: nat)
    requires i < |parts|
    ensures parse(parts[i]) == None ==> All(parse, parts) == None
  {
    if parse(parts[i]) == None {
      AllNone(parse, parts, i);
    }
  }

  lemma {:induction false} AllMapped(parse: string -> Option<Segment>, parts: seq<string>, segs: seq<Segment>)
    requires |parts| == |segs| && forall i :: 0 <= i < |parts| ==> parse(parts[i]) == Some(segs[i])
    ensures All(parse, parts) == Some(segs)
  {
    if parts != [] {
      AllMapped(parse, parts[..|parts| - 1], segs[..|segs| - 1]);
      assert segs == segs[..|segs| - 1] + [segs[|segs| - 1]];
    }
  }

  /** Both languages read back every valid list of segments that is printed, and refuse every other. */
  lemma CodecRoundTrip(segs: seq<Segment>)
    ensures FieldGo(PrintSegments(segs)) == FieldRust(PrintSegments(segs))
         == if ValidSegments(segs) then Some(segs) else None
  {
    var parts := SegmentParts(segs);
    forall i | 0 <= i < |segs|
      ensures ',' !in parts[i] && SegmentGo(parts[i]) == SegmentRust(parts[i]) == Valid(segs[i])
    {
      SegmentRoundTrip(segs[i]);
    }
    if segs != [] {
      SplitJoin(parts, ',');
      PartsRoundTrip(SegmentGo, parts, segs);
      PartsRoundTrip(SegmentRust, parts, segs);
      assert Split("", ',') == [""] && SegmentGo("") == SegmentRust("") == None;
    }
  }

  lemma PartsRoundTrip(parse: string -> Option<Segment>, parts: seq<string>, segs: seq<Segment>)
    requires |parts| == |segs| > 0 && forall i :: 0 <= i < |segs| ==> parse(parts[i]) == Valid(segs[i])
    ensures All(parse, parts) == if ValidSegments(segs) then Some(segs) else None
  {
    if ValidSegments(segs) {
      AllMapped(parse, parts, segs);
    } else {
      var i :| 0 <= i < |segs| && !(segs[i].0 <= segs[i].1 < U64);
      AllNone(parse, parts, i);
    }
  }

  lemma {:induction false} AllAgree(parts: seq<string>)
    requires forall i :: 0 <= i < |parts| ==> '+' !in parts[i]
    ensures All(SegmentGo, parts) == All(SegmentRust, parts)
  {
    if parts != [] {
      AllAgree(parts[..|parts| - 1]);
      SegmentsAgree(parts[|parts| - 1]);
    }
  }

  /** The Go parser accepts exactly the fields without a plus sign that the Rust parser accepts, with the
      same segments. */
  lemma GoIsRustWithoutPlus(s: string)
    ensures FieldGo(s) == if '+' in s then None else FieldRust(s)
  {
    var parts := Split(s, ',');
    SplitMembers(s, ',', '+');
    if InSome(parts, '+') {
      var i :| 0 <= i < |parts| && '+' in parts[i];
      SegmentsAgree(parts[i]);
      AllNone(SegmentGo, parts, i);
    } else {
      AllAgree(parts);
    }
  }

  /** A field with a plus sign that only the Rust parser accepts. */
  lemma PlusOnlyInRust()
    ensures FieldRust("+1-2") == Some([(1, 2)]) && FieldGo("+1-2") == None
  {
    GoIsRustWithoutPlus("+1-2");
    var s := "+1-2";
    assert s[0] == '+';
    SplitPart(s, ',');
    assert IndexOf(s, '-') == 2 by {
      IndexOfAfter("+1", '-', "2");
      assert "+1" + ['-'] + "2" == s;
    }
    assert s[..2][1..] == ['1'] && s[3..] == ['2'];
    ValueSingle('1');
    ValueSingle('2');
    assert ParseRust(s[..2]) == Some(1) && ParseRust(s[3..]) == Some(2);
    assert SegmentRust(s) == Some((1, 2));
    AllMapped(SegmentRust, [s], [(1, 2)]);
  }
}
