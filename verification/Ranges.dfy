/** The Range header of the gateway (gateway/ranges.go), after section 2.1 of RFC 7233. */
module Ranges {
  import opened Prelude
  import opened Text
  import opened Coalesce

  datatype RangeErr = BadRange | Unsatisfiable | NegativeSize

  const BYTES := "bytes="

  // ----- what a header means

  /** The three forms of a byte range. */
  datatype Spec = Full(first: nat, last: nat) | Open(from: nat) | Suffix(count: nat)

  predicate WellFormed(spec: Spec) {
    match spec
    case Full(first, last) => first <= last
    case Open(_) => true
    case Suffix(count) => count > 0
  }

  /** The spec asks for byte `b` of an object of `size` bytes. */
  predicate Wants(spec: Spec, size: nat, b: nat) {
    match spec
    case Full(first, last) => first <= b <= last
    case Open(from) => from <= b < size
    case Suffix(count) => size <= b + count && b < size
  }

  /** The range of an object of `size` bytes that is served for a spec. */
  function Resolve(spec: Spec, size: nat): Result<ByteRange, RangeErr> {
    match spec
    case Full(first, last) =>
      if first > last then Err(BadRange)
      else if last >= size then Err(Unsatisfiable)
      else Ok(ByteRange(first, last))
    case Open(from) =>
      if from >= size then Err(Unsatisfiable) else Ok(ByteRange(from, size - 1))
    case Suffix(count) =>
      if count == 0 then Err(BadRange)
      else if size == 0 then Err(Unsatisfiable)
      else Ok(ByteRange(size - Min(count, size), size - 1))
  }

  /** A spec is served exactly when it is well formed, asks for some byte, and asks for none outside the object;
      the range served has exactly the bytes that it asks for. */
  lemma ResolveExact(spec: Spec, size: nat)
    ensures Resolve(spec, size) == Err(BadRange) <==> !WellFormed(spec)
    ensures Resolve(spec, size).Ok? <==>
              WellFormed(spec) && (exists b: nat :: Wants(spec, size, b))
              && forall b: nat :: Wants(spec, size, b) ==> b < size
    ensures Resolve(spec, size).Ok? ==>
              var r := Resolve(spec, size).value;
              r.start <= r.endInclusive < size && forall b: nat :: r.start <= b <= r.endInclusive <==> Wants(spec, size, b)
  {
    if Resolve(spec, size).Ok? {
      assert Wants(spec, size, Resolve(spec, size).value.start);
    } else if spec.Full? && spec.first <= spec.last {
      assert Wants(spec, size, spec.last);
    }
  }

  // ----- the grammar

  /** `unicode.IsSpace` */
  predicate IsSpace(c: char) {
    c in "\t\n\U{0B}\U{0C}\r \U{85}\U{A0}\U{1680}\U{2028}\U{2029}\U{202F}\U{205F}\U{3000}"
    || '\U{2000}' <= c <= '\U{200A}'
  }

  function TrimLeft(s: string): string {
    if s != "" && IsSpace(s[0]) then TrimLeft(s[1..]) else s
  }

  function TrimRight(s: string): string {
    if s != "" && IsSpace(s[|s| - 1]) then TrimRight(s[..|s| - 1]) else s
  }

  /** `strings.TrimSpace` */
  function TrimSpace(s: string): string {
    TrimRight(TrimLeft(s))
  }

  /** The spec that a trimmed piece of the header spells, if any. */
  function SpecOf(s: string): Option<Spec> {
    var dash := IndexOf(s, '-');
    if dash == |s| then None
    else
      var first, last := s[..dash], s[dash + 1..];
      var a, b := ParseGo(first), ParseGo(last);
      if first == "" then if b == None then None else Some(Suffix(b.value))
      else if last == "" then if a == None then None else Some(Open(a.value))
      else if a == None || b == None then None else Some(Full(a.value, b.value))
  }

  function ResolvePiece(raw: string, size: nat): Result<ByteRange, RangeErr> {
    var spec := SpecOf(TrimSpace(raw));
    if spec == None then Err(BadRange) else Resolve(spec.value, size)
  }

  /** All pieces in order; the first error decides. */
  function ResolveAll(pieces: seq<string>, size: nat): Result<seq<ByteRange>, RangeErr> {
    if pieces == [] then Ok([])
    else
      var front, last := ResolveAll(pieces[..|pieces| - 1], size), ResolvePiece(pieces[|pieces| - 1], size);
      if front.Err? then front
      else if last.Err? then Err(last.error)
      else Ok(front.value + [last.value])
  }

  function Resolved(header: string, size: int): Result<seq<ByteRange>, RangeErr> {
    if size < 0 then Err(NegativeSize)
    else if !(BYTES <= header) || header == BYTES then Err(BadRange)
    else ResolveAll(Split(header[|BYTES|..], ','), size)
  }

  lemma {:induction false} FirstErrorDecides(pieces: seq<string>, size: nat, i: nat)
    requires i < |pieces| && ResolveAll(pieces[..i], size).Ok? && ResolvePiece(pieces[i], size).Err?
    ensures ResolveAll(pieces, size) == Err(ResolvePiece(pieces[i], size).error)
  {
    if i < |pieces| - 1 {
      var front := pieces[..|pieces| - 1];
      assert front[..i] == pieces[..i];
      FirstErrorDecides(front, size, i);
    }
  }

  // ----- the parser

  /** The switch in the loop of `ParseRange`. */
  method ParsePiece(raw: string, size: nat) returns (r: Result<ByteRange, RangeErr>)
    ensures r == ResolvePiece(raw, size)
  {
    var s := TrimSpace(raw);
    if s == "" {
      return Err(BadRange);
    }
    var dash := IndexOf(s, '-');
    if dash == |s| {
      return Err(BadRange);
    }
    var startStr, endStr := s[..dash], s[dash + 1..];
    if startStr == "" && endStr == "" {
      return Err(BadRange);
    }
    if startStr == "" {
      var suffix := ParseGo(endStr);
      if suffix == None || suffix.value == 0 {
        return Err(BadRange);
      }
      if size == 0 {
        return Err(Unsatisfiable);
      }
      var count := suffix.value;
      if count > size {
        count := size;
      }
      r := Ok(ByteRange(size - count, size - 1));
    } else if endStr == "" {
      var from := ParseGo(startStr);
      if from == None {
        return Err(BadRange);
      }
      if size == 0 || from.value >= size {
        return Err(Unsatisfiable);
      }
      r := Ok(ByteRange(from.value, size - 1));
    } else {
      var first, last := ParseGo(startStr), ParseGo(endStr);
      if first == None || last == None || first.value > last.value {
        return Err(BadRange);
      }
      if size == 0 || last.value >= size {
        return Err(Unsatisfiable);
      }
      r := Ok(ByteRange(first.value, last.value));
    }
  }

  predicate InObject(ranges: seq<ByteRange>, size: nat) {
    forall i :: 0 <= i < |ranges| ==> ranges[i].start <= ranges[i].endInclusive < size
  }

  /** `ParseRange`: one range of the object for every piece of the header, in order. */
  method ParseRange(header: string, size: int) returns (r: Result<seq<ByteRange>, RangeErr>)
    ensures r == Resolved(header, size)
    ensures r.Ok? ==> size > 0 && r.value != [] && InObject(r.value, size)
                      && |r.value| == |Split(header[|BYTES|..], ',')|
  {
    if size < 0 {
      return Err(NegativeSize);
    }
    if !(BYTES <= header) {
      return Err(BadRange);
    }
    var body := header[|BYTES|..];
    if body == "" {
      return Err(BadRange);
    }
    var pieces := Split(body, ',');
    var out: seq<ByteRange> := [];
    for k := 0 to |pieces|
      invariant |out| == k && ResolveAll(pieces[..k], size) == Ok(out) && InObject(out, size)
    {
      var piece := ParsePiece(pieces[k], size);
      if piece.Err? {
        FirstErrorDecides(pieces, size, k);
        return Err(piece.error);
      }
      assert pieces[..k + 1][..k] == pieces[..k];
      out := out + [piece.value];
    }
    assert pieces[..|pieces|] == pieces;
    if |out| == 0 {
      return Err(BadRange);
    }
    r := Ok(out);
  }

  // ----- every header that can be written is understood

  function PrintSpec(spec: Spec): string {
    match spec
    case Full(first, last) => Print(first) + "-" + Print(last)
    case Open(from) => Print(from) + "-"
    case Suffix(count) => "-" + Print(count)
  }

  predicate Printable(spec: Spec) {
    match spec
    case Full(first, last) => first < U64 && last < U64
    case Open(from) => from < U64
    case Suffix(count) => count < U64
  }

  /** A printed number parses, and contains nothing that has a meaning in the header. */
  lemma NumberFacts(n: nat)
    requires n < U64
    ensures ParseGo(Print(n)) == Some(n) && '-' !in Print(n) && ',' !in Print(n)
    ensures !IsSpace(Print(n)[0]) && !IsSpace(Print(n)[|Print(n)| - 1])
  {
    PrintParse(n);
    PrintDigits(n);
    assert IsDigit(Print(n)[0]) && IsDigit(Print(n)[|Print(n)| - 1]);
  }

  lemma SpecRoundTrip(spec: Spec)
    requires Printable(spec)
    ensures SpecOf(PrintSpec(spec)) == Some(spec) && ',' !in PrintSpec(spec)
    ensures PrintSpec(spec) != "" && !IsSpace(PrintSpec(spec)[0]) && !IsSpace(PrintSpec(spec)[|PrintSpec(spec)| - 1])
  {
    match spec
    case Full(first, last) =>
      NumberFacts(first);
      NumberFacts(last);
      AroundDash(Print(first), Print(last));
    case Open(from) =>
      NumberFacts(from);
      AroundDash(Print(from), "");
      assert Print(from) + "-" + "" == PrintSpec(spec);
    case Suffix(count) =>
      NumberFacts(count);
      AroundDash("", Print(count));
      assert "" + "-" + Print(count) == PrintSpec(spec);
  }

  ghost predicate Blank(s: string) {
    forall i :: 0 <= i < |s| ==> IsSpace(s[i])
  }

  lemma {:induction false} TrimLeftDrops(a: string, s: string)
    requires Blank(a) && s != "" && !IsSpace(s[0])
    ensures TrimLeft(a + s) == s
  {
    if a == "" {
      assert a + s == s;
    } else {
      TrimLeftDrops(a[1..], s);
      assert (a + s)[1..] == a[1..] + s;
    }
  }

  lemma {:induction false} TrimRightDrops(s: string, b: string)
    requires Blank(b) && s != "" && !IsSpace(s[|s| - 1])
    ensures TrimRight(s + b) == s
  {
    if b == "" {
      assert s + b == s;
    } else {
      TrimRightDrops(s, b[..|b| - 1]);
      assert (s + b)[..|s + b| - 1] == s + b[..|b| - 1];
    }
  }

  /** A spec with blanks around it. */
  datatype Padded = Padded(before: string, spec: Spec, after: string)

  ghost predicate Writable(p: Padded) {
    Printable(p.spec) && Blank(p.before) && Blank(p.after)
  }

  function Written(p: Padded): string {
    p.before + PrintSpec(p.spec) + p.after
  }

  lemma WrittenResolves(p: Padded, size: nat)
    requires Writable(p)
    ensures ResolvePiece(Written(p), size) == Resolve(p.spec, size) && ',' !in Written(p)
  {
    var s := PrintSpec(p.spec);
    SpecRoundTrip(p.spec);
    assert Written(p) == p.before + (s + p.after);
    TrimLeftDrops(p.before, s + p.after);
    TrimRightDrops(s, p.after);
  }

  function Header(ps: seq<Padded>): string {
    BYTES + Join(seq(|ps|, i requires 0 <= i < |ps| => Written(ps[i])), ',')
  }

  /** The meaning of a list of specs: all of them, or the first error. */
  function Meaning(ps: seq<Padded>, size: nat): Result<seq<ByteRange>, RangeErr> {
    if ps == [] then Ok([])
    else
      var front, last := Meaning(ps[..|ps| - 1], size), Resolve(ps[|ps| - 1].spec, size);
      if front.Err? then front
      else if last.Err? then Err(last.error)
      else Ok(front.value + [last.value])
  }

  /** Every list of specs, written with any blanks around them, is parsed to what it means. */
  lemma HeaderRoundTrip(ps: seq<Padded>, size: nat)
    requires ps != [] && forall i :: 0 <= i < |ps| ==> Writable(ps[i])
    ensures Resolved(Header(ps), size) == Meaning(ps, size)
  {
    var pieces := seq(|ps|, i requires 0 <= i < |ps| => Written(ps[i]));
    forall i | 0 <= i < |ps|
      ensures ',' !in pieces[i] && ResolvePiece(pieces[i], size) == Resolve(ps[i].spec, size)
    {
      WrittenResolves(ps[i], size);
    }
    var body := Join(pieces, ',');
    SplitJoin(pieces, ',');
    assert Header(ps)[|BYTES|..] == body;
    assert body != "" by {
      SpecRoundTrip(ps[0].spec);
      assert pieces[0] != "";
    }
    PiecesMean(pieces, ps, size);
  }

  lemma {:induction false} PiecesMean(pieces: seq<string>, ps: seq<Padded>, size: nat)
    requires |pieces| == |ps|
    requires forall i :: 0 <= i < |ps| ==> ResolvePiece(pieces[i], size) == Resolve(ps[i].spec, size)
    ensures ResolveAll(pieces, size) == Meaning(ps, size)
  {
    if ps != [] {
      PiecesMean(pieces[..|ps| - 1], ps[..|ps| - 1], size);
    }
  }

  // ----- and nothing else is

  /** `s` is a decimal numeral for `n`, of 64 bits. */
  predicate Numeral(s: string, n: nat) {
    Digits(s) && Value(s) == n < U64
  }

  /** The three ways of writing a spec around a dash. */
  ghost predicate SpelledAs(first: string, last: string, spec: Spec) {
    match spec
    case Full(a, b) => Numeral(first, a) && Numeral(last, b)
    case Open(a) => Numeral(first, a) && last == ""
    case Suffix(b) => first == "" && Numeral(last, b)
  }

  ghost predicate Spells(s: string, spec: Spec) {
    exists first, last :: s == first + "-" + last && SpelledAs(first, last, spec)
  }

  lemma NumeralPlain(s: string, n: nat)
    requires Numeral(s, n)
    ensures '-' !in s && ',' !in s && ParseGo(s) == Some(n) && s != ""
  {
  }

  lemma SpelledParses(first: string, last: string, spec: Spec)
    requires SpelledAs(first, last, spec)
    ensures SpecOf(first + "-" + last) == Some(spec)
  {
    match spec
    case Full(a, b) =>
      NumeralPlain(first, a);
      NumeralPlain(last, b);
      AroundDash(first, last);
    case Open(a) =>
      NumeralPlain(first, a);
      AroundDash(first, last);
    case Suffix(b) =>
      NumeralPlain(last, b);
      AroundDash(first, last);
  }

  /** A trimmed piece is a spec exactly when it is written as one. */
  lemma SpecExact(s: string, spec: Spec)
    ensures SpecOf(s) == Some(spec) <==> Spells(s, spec)
  {
    if Spells(s, spec) {
      var first, last :| s == first + "-" + last && SpelledAs(first, last, spec);
      SpelledParses(first, last, spec);
    }
    if SpecOf(s) == Some(spec) {
      var dash := IndexOf(s, '-');
      assert s == s[..dash] + "-" + s[dash + 1..];
      assert SpelledAs(s[..dash], s[dash + 1..], spec);
    }
  }

  /** Trimming takes away exactly the blanks at both ends. */
  lemma TrimExact(s: string)
    ensures exists before, after :: Blank(before) && Blank(after) && s == before + TrimSpace(s) + after
    ensures TrimSpace(s) != "" ==> !IsSpace(TrimSpace(s)[0]) && !IsSpace(TrimSpace(s)[|TrimSpace(s)| - 1])
  {
    var before := TrimmedLeft(s);
    var after := TrimmedRight(TrimLeft(s));
    assert s == before + TrimSpace(s) + after;
  }

  lemma {:induction false} TrimmedLeft(s: string) returns (before: string)
    ensures Blank(before) && s == before + TrimLeft(s)
    ensures TrimLeft(s) != "" ==> !IsSpace(TrimLeft(s)[0])
  {
    before := "";
    if s != "" && IsSpace(s[0]) {
      var rest := TrimmedLeft(s[1..]);
      before := [s[0]] + rest;
      assert s == [s[0]] + s[1..];
    }
  }

  lemma SplitLast(s: string, t: string, rest: string)
    requires s != "" && s[..|s| - 1] == t + rest
    ensures s == t + (rest + [s[|s| - 1]])
  {
    assert s == s[..|s| - 1] + [s[|s| - 1]];
  }

  lemma {:induction false} TrimmedRight(s: string) returns (after: string)
    ensures Blank(after) && s == TrimRight(s) + after
    ensures TrimRight(s) != "" ==> !IsSpace(TrimRight(s)[|TrimRight(s)| - 1])
  {
    after := "";
    if s != "" && IsSpace(s[|s| - 1]) {
      var front, last := s[..|s| - 1], s[|s| - 1];
      var rest := TrimmedRight(front);
      after := rest + [last];
      SplitLast(s, TrimRight(front), rest);
    }
  }

  /** Blanks around a piece that spells a spec. */
  ghost predicate Says(piece: string, spec: Spec) {
    exists before, s, after :: Blank(before) && Blank(after) && piece == before + s + after && Spells(s, spec)
  }

  /** A piece resolves to what it says; one that says nothing is a bad range. */
  lemma PieceExact(piece: string, size: nat)
    ensures forall spec :: Says(piece, spec) ==> ResolvePiece(piece, size) == Resolve(spec, size)
    ensures (forall spec :: !Says(piece, spec)) ==> ResolvePiece(piece, size) == Err(BadRange)
  {
    forall spec | Says(piece, spec) ensures ResolvePiece(piece, size) == Resolve(spec, size) {
      var before, s, after :| Blank(before) && Blank(after) && piece == before + s + after && Spells(s, spec);
      SpellsTrimmed(before, s, after, spec);
      SpecExact(s, spec);
    }
    var found := SpecOf(TrimSpace(piece));
    if found.Some? {
      SpecExact(TrimSpace(piece), found.value);
      TrimExact(piece);
      var before, after :| Blank(before) && Blank(after) && piece == before + TrimSpace(piece) + after;
      assert Says(piece, found.value);
    }
  }

  lemma SpelledEnds(s: string, spec: Spec)
    requires Spells(s, spec)
    ensures s != "" && !IsSpace(s[0]) && !IsSpace(s[|s| - 1])
  {
    var first, last :| s == first + "-" + last && SpelledAs(first, last, spec);
    assert s[0] == if first == "" then '-' else first[0];
    assert s[|s| - 1] == if last == "" then '-' else last[|last| - 1];
  }

  lemma SpellsTrimmed(before: string, s: string, after: string, spec: Spec)
    requires Blank(before) && Blank(after) && Spells(s, spec)
    ensures TrimSpace(before + s + after) == s
  {
    SpelledEnds(s, spec);
    assert before + s + after == before + (s + after);
    TrimLeftDrops(before, s + after);
    TrimRightDrops(s, after);
  }

  /** A header is served exactly when it is `bytes=` and at least one character, every piece between its commas says a
      spec, and every such spec is served; each range is then that of its piece. */
  lemma HeaderExact(header: string, size: nat)
    ensures Resolved(header, size).Ok? <==>
      |header| > 6 && header[..6] == "bytes=" && AllServed(Split(header[6..], ','), size)
    ensures Resolved(header, size).Ok? ==>
      var pieces, ranges := Split(header[6..], ','), Resolved(header, size).value;
      && |ranges| == |pieces|
      && forall k, spec :: 0 <= k < |pieces| && Says(pieces[k], spec) ==> Resolve(spec, size) == Ok(ranges[k])
  {
    assert |BYTES| == 6;
    if |header| >= 6 && header[..6] == "bytes=" {
      assert header == BYTES + header[6..];
      var pieces := Split(header[6..], ',');
      AllResolve(pieces, size);
      if Resolved(header, size).Ok? {
        ResolvedPieces(pieces, size);
        var ranges := Resolved(header, size).value;
        forall k, spec | 0 <= k < |pieces| && Says(pieces[k], spec) ensures Resolve(spec, size) == Ok(ranges[k]) {
          PieceExact(pieces[k], size);
        }
      }
    }
  }

  ghost predicate Served(piece: string, size: nat) {
    exists spec :: Says(piece, spec) && Resolve(spec, size).Ok?
  }

  ghost predicate AllServed(pieces: seq<string>, size: nat) {
    forall k :: 0 <= k < |pieces| ==> Served(pieces[k], size)
  }

  lemma ServedExact(piece: string, size: nat)
    ensures ResolvePiece(piece, size).Ok? <==> Served(piece, size)
  {
    PieceExact(piece, size);
    if ResolvePiece(piece, size).Ok? {
      var spec :| Says(piece, spec);
    }
  }

  lemma AllServedLast(pieces: seq<string>, size: nat)
    requires pieces != []
    ensures var n := |pieces| - 1; AllServed(pieces, size) <==> AllServed(pieces[..n], size) && Served(pieces[n], size)
  {
    var n := |pieces| - 1;
    if AllServed(pieces, size) {
      forall k | 0 <= k < n ensures Served(pieces[..n][k], size) {
        assert Served(pieces[k], size);
      }
    }
    if AllServed(pieces[..n], size) && Served(pieces[n], size) {
      forall k | 0 <= k < |pieces| ensures Served(pieces[k], size) {
        assert k < n ==> Served(pieces[..n][k], size);
      }
    }
  }

  lemma {:induction false} AllResolve(pieces: seq<string>, size: nat)
    ensures ResolveAll(pieces, size).Ok? <==> AllServed(pieces, size)
  {
    if pieces != [] {
      var n := |pieces| - 1;
      AllResolve(pieces[..n], size);
      ServedExact(pieces[n], size);
      AllServedLast(pieces, size);
    }
  }

  lemma {:induction false} ResolvedPieces(pieces: seq<string>, size: nat)
    requires ResolveAll(pieces, size).Ok?
    ensures var ranges := ResolveAll(pieces, size).value;
      |ranges| == |pieces| && forall k :: 0 <= k < |pieces| ==> ResolvePiece(pieces[k], size) == Ok(ranges[k])
  {
    if pieces != [] {
      ResolvedPieces(pieces[..|pieces| - 1], size);
    }
  }
}
