/**
 * The responses of the gateway to range requests (gateway/ranges.go, gateway/handlers.go): one range, or a
 * multipart/byteranges body after section 4.1 of RFC 7233, written through Go's mime/multipart.Writer.
 * Octets are characters.
 */
module Multipart {
  import opened Prelude
  import opened Text
  import opened Coalesce
  import opened Ranges

  const CRLF := "\r\n"
  const BOUNDARY := "xet_multipart_boundary"
  const DELIM := "--" + BOUNDARY
  const OCTETS := "application/octet-stream"

  function ContentRange(r: ByteRange, total: nat): string {
    "bytes " + Print(r.start) + "-" + Print(r.endInclusive) + "/" + Print(total)
  }

  /** The header lines of a part: the library sorts them by name. */
  function Head(contentRange: string): string {
    "Content-Range: " + contentRange + CRLF + "Content-Type: " + OCTETS + CRLF + CRLF
  }

  predicate Ordered(ranges: seq<ByteRange>) {
    forall i :: 0 <= i < |ranges| ==> ranges[i].start <= ranges[i].endInclusive
  }

  function Length(r: ByteRange): nat
    requires r.start <= r.endInclusive
  {
    r.endInclusive - r.start + 1
  }

  /** What `io.Copy` moves out of a section reader over the range: it stops at the end of the source. */
  function Section(src: string, r: ByteRange): string
    requires r.start <= r.endInclusive
  {
    src[Min(r.start, |src|)..Min(r.endInclusive + 1, |src|)]
  }

  lemma SectionLength(src: string, r: ByteRange)
    requires r.start <= r.endInclusive
    ensures |Section(src, r)| <= Length(r)
    ensures |Section(src, r)| == Length(r) <==> r.endInclusive < |src|
    ensures r.endInclusive < |src| ==> Section(src, r) == src[r.start..r.endInclusive + 1]
  {
  }

  /** The headers of a response to the given ranges. */
  function Sent(headers: map<string, string>, ranges: seq<ByteRange>, total: nat, length: string): map<string, string> {
    if ranges == [] then headers["Content-Type" := OCTETS]["Content-Length" := length]["Accept-Ranges" := "bytes"]
    else if |ranges| == 1 then
      headers["Content-Type" := OCTETS]["Content-Range" := ContentRange(ranges[0], total)]["Content-Length" := length]
             ["Accept-Ranges" := "bytes"]
    else
      headers["Content-Type" := "multipart/byteranges; boundary=" + BOUNDARY]["Content-Length" := length]
             ["Accept-Ranges" := "bytes"]
  }

  lemma SentHeaders(headers: map<string, string>, ranges: seq<ByteRange>, total: nat, length: string)
    requires ranges != []
    ensures var sent := Sent(headers, ranges, total, length);
      && "Content-Type" in sent
      && (|ranges| == 1 ==> "Content-Range" in sent && sent["Content-Range"] == ContentRange(ranges[0], total))
      && (|ranges| > 1 ==> sent["Content-Type"] == "multipart/byteranges; boundary=" + BOUNDARY)
  {
  }

  // ----- writing

  class Response {
    var status: nat
    var headers: map<string, string>
    var body: string

    constructor ()
      ensures status == 0 && headers == map[] && body == ""
    {
      status, headers, body := 0, map[], "";
    }
  }

  /** `mime/multipart.Writer` */
  class PartWriter {
    const w: Response
    var started: bool

    constructor (w: Response)
      ensures this.w == w && !started
    {
      this.w, started := w, false;
    }

    method CreatePart(contentRange: string)
      modifies this, w`body
      ensures started
      ensures w.body == old(w.body) + (if old(started) then CRLF else "") + DELIM + CRLF + Head(contentRange)
    {
      w.body := w.body + (if started then CRLF else "") + DELIM + CRLF + Head(contentRange);
      started := true;
    }

    method Close()
      modifies w`body
      ensures w.body == old(w.body) + CRLF + DELIM + "--" + CRLF
    {
      w.body := w.body + CRLF + DELIM + "--" + CRLF;
    }
  }

  /** A part from just after its delimiter to just after the next one, and the rest of the body. */
  function PartThen(r: ByteRange, total: nat, src: string, rest: string): string
    requires r.start <= r.endInclusive
  {
    CRLF + Head(ContentRange(r, total)) + Section(src, r) + CRLF + DELIM + rest
  }

  /** The body from just after a delimiter on. */
  function Tail(ranges: seq<ByteRange>, total: nat, src: string): string
    requires Ordered(ranges)
  {
    if ranges == [] then "--" + CRLF
    else PartThen(ranges[0], total, src, Tail(ranges[1..], total, src))
  }

  /** The body that is left to write; a line break comes before every delimiter but the first. */
  function Remaining(ranges: seq<ByteRange>, first: bool, total: nat, src: string): string
    requires Ordered(ranges)
  {
    (if first && ranges != [] then "" else CRLF) + DELIM + Tail(ranges, total, src)
  }

  function Framed(ranges: seq<ByteRange>, total: nat, src: string): string
    requires Ordered(ranges)
  {
    Remaining(ranges, true, total, src)
  }

  /** The content length that is left to count. */
  function Count(ranges: seq<ByteRange>, first: bool, total: nat): nat
    requires Ordered(ranges)
  {
    if ranges == [] then |CRLF + DELIM + "--" + CRLF|
    else
      (if first then 0 else 2) + |DELIM + CRLF| + |"Content-Type: " + OCTETS + CRLF|
      + |"Content-Range: " + ContentRange(ranges[0], total) + CRLF| + 2 + Length(ranges[0])
      + Count(ranges[1..], false, total)
  }

  /** The length is counted right exactly when every range ends within the source. */
  lemma {:induction false} CountExact(ranges: seq<ByteRange>, first: bool, total: nat, src: string)
    requires Ordered(ranges)
    ensures |Remaining(ranges, first, total, src)| <= Count(ranges, first, total)
    ensures |Remaining(ranges, first, total, src)| == Count(ranges, first, total) <==> InObject(ranges, |src|)
  {
    if ranges != [] {
      SectionLength(src, ranges[0]);
      CountExact(ranges[1..], false, total, src);
      InObjectCons(ranges, |src|);
    }
  }

  lemma InObjectCons(ranges: seq<ByteRange>, size: nat)
    requires ranges != []
    ensures InObject(ranges, size) <==> InObject([ranges[0]], size) && InObject(ranges[1..], size)
  {
    if InObject([ranges[0]], size) && InObject(ranges[1..], size) {
      assert [ranges[0]][0] == ranges[0];
      forall i | 0 <= i < |ranges| ensures ranges[i].start <= ranges[i].endInclusive < size {
        assert i > 0 ==> ranges[i] == ranges[1..][i - 1];
      }
    }
  }

  lemma PrintInjective(m: nat, n: nat)
    requires Print(m) == Print(n)
    ensures m == n
  {
    PrintDigits(m);
    PrintDigits(n);
  }

  method ContentLength(ranges: seq<ByteRange>, total: nat) returns (n: nat)
    requires Ordered(ranges)
    ensures n == Count(ranges, true, total)
  {
    var openDelim := DELIM + CRLF;
    var closeDelim := CRLF + DELIM + "--" + CRLF;
    n := 0;
    for i := 0 to |ranges|
      invariant n + Count(ranges[i..], i == 0, total) == Count(ranges, true, total)
    {
      var r := ranges[i];
      assert ranges[i..][1..] == ranges[i + 1..];
      if i > 0 {
        n := n + 2;
      }
      n := n + |openDelim|;
      var ctLine := "Content-Type: " + OCTETS + CRLF;
      var crLine := "Content-Range: " + ContentRange(r, total) + CRLF;
      n := n + |ctLine|;
      n := n + |crLine|;
      n := n + 2;
      n := n + (r.endInclusive - r.start + 1);
    }
    n := n + |closeDelim|;
  }

  lemma Assoc(a: string, b: string, c: string)
    ensures a + (b + c) == a + b + c
  {
  }

  lemma Regroup(o: string, l: string, d: string, c: string, h: string, s: string, t: string)
    ensures (o + l + d + c + h + s) + (c + d + t) == o + (l + d + (c + h + s + c + d + t))
  {
    var p, q, y := o + l + d, c + h + s, c + d + t;
    Assoc(p, c, h);
    Assoc(p, c + h, s);
    Assoc(p, q, y);
    Assoc(q, c + d, t);
    Assoc(q, c, d);
    Assoc(o, l + d, q + y);
    Assoc(o, l, d);
  }

  /** The body that is left to write when `i` parts have been written. */
  function Left(ranges: seq<ByteRange>, i: nat, total: nat, src: string): string
    requires Ordered(ranges) && i <= |ranges|
  {
    Remaining(ranges[i..], i == 0, total, src)
  }

  lemma PartWritten(ranges: seq<ByteRange>, i: nat, total: nat, src: string, out: string, out': string)
    requires Ordered(ranges) && i < |ranges|
    requires out' == out + (if i > 0 then CRLF else "") + DELIM + CRLF + Head(ContentRange(ranges[i], total))
                     + Section(src, ranges[i])
    ensures out' + Left(ranges, i + 1, total, src) == out + Left(ranges, i, total, src)
  {
    assert ranges[i..][1..] == ranges[i + 1..] && ranges[i..][0] == ranges[i];
    Regroup(out, if i > 0 then CRLF else "", DELIM, CRLF, Head(ContentRange(ranges[i], total)), Section(src, ranges[i]),
            Tail(ranges[i + 1..], total, src));
  }

  /** `writeMultipartRanges`: the promised length is that of the body exactly when the ranges are in the object. */
  method WriteMultipartRanges(w: Response, ranges: seq<ByteRange>, total: nat, src: string)
    requires Ordered(ranges)
    modifies w
    ensures w.status == 206 && w.body == old(w.body) + Framed(ranges, total, src)
    ensures "Content-Length" in w.headers
    ensures w.headers == old(w.headers)["Content-Type" := "multipart/byteranges; boundary=" + BOUNDARY]
              ["Content-Length" := w.headers["Content-Length"]]["Accept-Ranges" := "bytes"]
    ensures w.headers["Content-Length"] == Print(|Framed(ranges, total, src)|) <==> InObject(ranges, |src|)
  {
    var contentLen: nat := ContentLength(ranges, total);
    w.headers := w.headers["Content-Type" := "multipart/byteranges; boundary=" + BOUNDARY]
      ["Content-Length" := Print(contentLen)]["Accept-Ranges" := "bytes"];
    w.status := 206;
    LengthHeader(ranges, total, src, w.headers["Content-Length"]);
    WriteParts(w, ranges, total, src);
  }

  lemma LengthHeader(ranges: seq<ByteRange>, total: nat, src: string, header: string)
    requires Ordered(ranges) && header == Print(Count(ranges, true, total))
    ensures header == Print(|Framed(ranges, total, src)|) <==> InObject(ranges, |src|)
  {
    CountExact(ranges, true, total, src);
    if header == Print(|Framed(ranges, total, src)|) {
      PrintInjective(Count(ranges, true, total), |Framed(ranges, total, src)|);
    }
  }

  lemma ClosingWritten(ranges: seq<ByteRange>, total: nat, src: string, out: string)
    requires Ordered(ranges)
    ensures out + CRLF + DELIM + "--" + CRLF == out + Left(ranges, |ranges|, total, src)
  {
    assert ranges[|ranges|..] == [];
    Assoc(out + CRLF + DELIM, "--", CRLF);
    Assoc(out + CRLF, DELIM, "--" + CRLF);
    Assoc(out, CRLF, DELIM + ("--" + CRLF));
    Assoc(CRLF, DELIM, "--" + CRLF);
  }

  /** The loop body of `writeMultipartRanges`: open a part, copy the section into it. */
  method WritePart(mw: PartWriter, r: ByteRange, total: nat, src: string)
    requires r.start <= r.endInclusive
    modifies mw, mw.w`body
    ensures mw.started
    ensures mw.w.body == old(mw.w.body) + (if old(mw.started) then CRLF else "") + DELIM + CRLF
                         + Head(ContentRange(r, total)) + Section(src, r)
  {
    mw.CreatePart(ContentRange(r, total));
    mw.w.body := mw.w.body + Section(src, r);
  }

  /** The third step of `writeMultipartRanges`. */
  method WriteParts(w: Response, ranges: seq<ByteRange>, total: nat, src: string)
    requires Ordered(ranges)
    modifies w`body
    ensures w.body == old(w.body) + Framed(ranges, total, src)
  {
    ghost var target := w.body + Framed(ranges, total, src);
    assert ranges[0..] == ranges;
    var mw := new PartWriter(w);
    for i := 0 to |ranges|
      invariant mw.w == w && mw.started == (i > 0)
      invariant w.body + Left(ranges, i, total, src) == target
    {
      ghost var out := w.body;
      WritePart(mw, ranges[i], total, src);
      PartWritten(ranges, i, total, src, out, w.body);
    }
    ClosingWritten(ranges, total, src, w.body);
    mw.Close();
  }

  /** `writeSingleRange` */
  method WriteSingleRange(w: Response, r: ByteRange, total: nat, src: string)
    requires r.start <= r.endInclusive
    modifies w
    ensures w.status == 206 && w.body == old(w.body) + Section(src, r)
    ensures "Content-Length" in w.headers
    ensures w.headers == Sent(old(w.headers), [r], total, w.headers["Content-Length"])
    ensures w.headers["Content-Length"] == Print(|Section(src, r)|) <==> r.endInclusive < |src|
  {
    var length: nat := r.endInclusive - r.start + 1;
    w.headers := w.headers["Content-Type" := OCTETS]["Content-Range" := ContentRange(r, total)]
      ["Content-Length" := Print(length)]["Accept-Ranges" := "bytes"];
    w.status := 206;
    w.body := w.body + Section(src, r);
    SectionLength(src, r);
    if Print(length) == Print(|Section(src, r)|) {
      PrintInjective(length, |Section(src, r)|);
    }
  }

  // ----- reading

  datatype Part = Part(range: ByteRange, total: nat, data: string)

  function After(s: string, p: string): Option<string> {
    if p <= s then Some(s[|p|..]) else None
  }

  /** One line and what follows its line break. */
  function Line(s: string): (r: Option<(string, string)>)
    ensures r.Some? ==> |r.value.1| < |s|
  {
    var i := IndexOf(s, '\r');
    if i + 1 < |s| && s[i + 1] == '\n' then Some((s[..i], s[i + 2..])) else None
  }

  /** Header lines up to the empty line; the value of Content-Range and what follows. */
  function ReadHead(s: string, found: Option<string>): (r: Option<(Option<string>, string)>)
    ensures r.Some? ==> |r.value.1| < |s|
    decreases |s|
  {
    var line := Line(s);
    if line == None then None
    else if line.value.0 == "" then Some((found, line.value.1))
    else
      var value := After(line.value.0, "Content-Range: ");
      ReadHead(line.value.1, if value.Some? then value else found)
  }

  function ParseContentRange(v: string): Option<(ByteRange, nat)> {
    var t := After(v, "bytes ");
    if t == None then None
    else
      var dash := IndexOf(t.value, '-');
      if dash == |t.value| then None
      else
        var start, more := ParseGo(t.value[..dash]), t.value[dash + 1..];
        var slash := IndexOf(more, '/');
        if slash == |more| then None
        else
          var end, total := ParseGo(more[..slash]), ParseGo(more[slash + 1..]);
          if start == None || end == None || total == None then None
          else Some((ByteRange(start.value, end.value), total.value))
  }

  /** Read parts from just after a delimiter on; each part's Content-Range says how many octets it has. */
  function ReadParts(s: string, delimiter: string): Option<seq<Part>>
    decreases |s|
  {
    if s == "--" + CRLF then Some([])
    else
      var head := After(s, CRLF);
      if head == None then None
      else
        var h := ReadHead(head.value, None);
        if h == None || h.value.0 == None then None
        else
          var cr, rest := ParseContentRange(h.value.0.value), h.value.1;
          if cr == None || cr.value.0.start > cr.value.0.endInclusive || Length(cr.value.0) > |rest| then None
          else
            var n := Length(cr.value.0);
            var more := After(rest[n..], CRLF + delimiter);
            if more == None then None
            else
              var parts := ReadParts(more.value, delimiter);
              if parts == None then None
              else Some([Part(cr.value.0, cr.value.1, rest[..n])] + parts.value)
  }

  /** The Content-Type names the boundary; section 5.1.1 of RFC 2046 puts two hyphens before it. */
  function ReadBody(contentType: string, body: string): Option<seq<Part>> {
    var boundary := After(contentType, "multipart/byteranges; boundary=");
    if boundary == None then None
    else
      var delimiter := "--" + boundary.value;
      var s := After(body, delimiter);
      if s == None then None else ReadParts(s.value, delimiter)
  }

  lemma AfterPrefix(p: string, s: string)
    ensures After(p + s, p) == Some(s)
  {
  }

  lemma LineIs(a: string, b: string)
    requires '\r' !in a
    ensures Line(a + CRLF + b) == Some((a, b))
  {
    var s := a + CRLF + b;
    assert s == a + ['\r'] + ("\n" + b);
    IndexOfAfter(a, '\r', "\n" + b);
    assert s[..|a|] == a && s[|a| + 2..] == b;
  }

  lemma ContentRangeFields(a: string, b: string, c: string)
    requires '-' !in a && '/' !in b
    ensures ParseContentRange("bytes " + a + "-" + b + "/" + c)
            == if ParseGo(a) == None || ParseGo(b) == None || ParseGo(c) == None then None
               else Some((ByteRange(ParseGo(a).value, ParseGo(b).value), ParseGo(c).value))
  {
    var p, more := "bytes ", b + ['/'] + c;
    assert p + a + "-" + b + "/" + c == p + (a + ['-'] + more) by {
      Assoc(p + a + "-", b, "/");
      Assoc(p + a + "-", b + "/", c);
      Assoc(p, a, "-");
      Assoc(p, a + "-", more);
    }
    AfterPrefix(p, a + ['-'] + more);
    AroundMark(a, '-', more);
    AroundMark(b, '/', c);
  }

  lemma ContentRangeRoundTrip(r: ByteRange, total: nat)
    requires r.start < U64 && r.endInclusive < U64 && total < U64
    ensures ParseContentRange(ContentRange(r, total)) == Some((r, total)) && '\r' !in ContentRange(r, total)
  {
    var a, b, c := Print(r.start), Print(r.endInclusive), Print(total);
    NumberPlain(r.start);
    NumberPlain(r.endInclusive);
    NumberPlain(total);
    ContentRangeFields(a, b, c);
    assert '\r' !in "bytes " + a + "-" && '\r' !in "bytes " + a + "-" + b + "/";
  }

  lemma NumberPlain(n: nat)
    requires n < U64
    ensures ParseGo(Print(n)) == Some(n) && '-' !in Print(n) && '/' !in Print(n) && '\r' !in Print(n)
  {
    PrintDigits(n);
    PrintParse(n);
  }

  lemma AroundMark(a: string, c: char, b: string)
    requires c !in a
    ensures var s := a + [c] + b; IndexOf(s, c) == |a| < |s| && s[..|a|] == a && s[|a| + 1..] == b
  {
    IndexOfAfter(a, c, b);
  }

  lemma HeadRoundTrip(contentRange: string, rest: string)
    requires '\r' !in contentRange
    ensures ReadHead(Head(contentRange) + rest, None) == Some((Some(contentRange), rest))
  {
    var l1, l2 := "Content-Range: " + contentRange, "Content-Type: " + OCTETS;
    var s3 := "" + CRLF + rest;
    var s2 := l2 + CRLF + s3;
    assert Head(contentRange) + rest == l1 + CRLF + s2;
    LineIs(l1, s2);
    LineIs(l2, s3);
    LineIs("", rest);
    AfterPrefix("Content-Range: ", contentRange);
    assert l2[8] == 'T' && "Content-Range: "[8] == 'R';
    assert ReadHead(s3, Some(contentRange)) == Some((Some(contentRange), rest));
    assert ReadHead(s2, Some(contentRange)) == Some((Some(contentRange), rest));
  }

  /** The parts of an object, range by range. */
  function PartsOf(ranges: seq<ByteRange>, src: string, total: nat): seq<Part>
    requires InObject(ranges, |src|)
  {
    seq(|ranges|, i requires 0 <= i < |ranges| => Part(ranges[i], total, src[ranges[i].start..ranges[i].endInclusive + 1]))
  }

  lemma PartsOfCons(ranges: seq<ByteRange>, src: string, total: nat)
    requires ranges != [] && InObject(ranges, |src|)
    ensures PartsOf(ranges, src, total)
            == [Part(ranges[0], total, src[ranges[0].start..ranges[0].endInclusive + 1])] + PartsOf(ranges[1..], src, total)
  {
  }

  lemma ReadOnePart(r: ByteRange, total: nat, src: string, rest: string)
    requires r.start <= r.endInclusive < |src| && |src| < U64 && total < U64
    requires ReadParts(rest, DELIM).Some?
    ensures ReadParts(PartThen(r, total, src, rest), DELIM)
            == Some([Part(r, total, src[r.start..r.endInclusive + 1])] + ReadParts(rest, DELIM).value)
  {
    var cr, data := ContentRange(r, total), Section(src, r);
    var s := PartThen(r, total, src, rest);
    var after := data + ((CRLF + DELIM) + rest);
    assert s == CRLF + (Head(cr) + after) by {
      var p := CRLF + Head(cr) + data;
      Assoc(p, CRLF, DELIM);
      Assoc(p, CRLF + DELIM, rest);
      Assoc(CRLF + Head(cr), data, CRLF + DELIM + rest);
      Assoc(CRLF, Head(cr), after);
    }
    assert s[0] == '\r' && s != "--" + CRLF;
    AfterPrefix(CRLF, Head(cr) + after);
    ContentRangeRoundTrip(r, total);
    HeadRoundTrip(cr, after);
    SectionLength(src, r);
    assert after[..Length(r)] == data && after[Length(r)..] == (CRLF + DELIM) + rest;
    AfterPrefix(CRLF + DELIM, rest);
  }

  lemma TailStep(ranges: seq<ByteRange>, total: nat, src: string, rest: string)
    requires ranges != [] && InObject(ranges, |src|) && |src| < U64 && total < U64
    requires ReadParts(rest, DELIM) == Some(PartsOf(ranges[1..], src, total))
    ensures ReadParts(PartThen(ranges[0], total, src, rest), DELIM) == Some(PartsOf(ranges, src, total))
  {
    ReadOnePart(ranges[0], total, src, rest);
    PartsOfCons(ranges, src, total);
  }

  lemma {:induction false} TailRoundTrip(ranges: seq<ByteRange>, total: nat, src: string)
    requires InObject(ranges, |src|) && |src| < U64 && total < U64
    ensures ReadParts(Tail(ranges, total, src), DELIM) == Some(PartsOf(ranges, src, total))
  {
    if ranges == [] {
      assert PartsOf(ranges, src, total) == [];
    } else {
      TailRoundTrip(ranges[1..], total, src);
      TailStep(ranges, total, src, Tail(ranges[1..], total, src));
    }
  }

  /** A reader that takes the boundary from the Content-Type and goes by the Content-Range lengths recovers the ranges
      and exactly the object's octets, whatever the octets are. */
  lemma MultipartRoundTrip(ranges: seq<ByteRange>, total: nat, src: string)
    requires ranges != [] && InObject(ranges, |src|) && |src| < U64 && total < U64
    ensures ReadBody("multipart/byteranges; boundary=" + BOUNDARY, Framed(ranges, total, src))
         == Some(PartsOf(ranges, src, total))
  {
    assert "" + DELIM == DELIM;
    AfterPrefix("multipart/byteranges; boundary=", BOUNDARY);
    AfterPrefix(DELIM, Tail(ranges, total, src));
    TailRoundTrip(ranges, total, src);
  }

  // ----- the handler

  function TotalLength(ranges: seq<ByteRange>): nat
    requires Ordered(ranges)
  {
    if ranges == [] then 0 else TotalLength(ranges[..|ranges| - 1]) + Length(ranges[|ranges| - 1])
  }

  /** The last step of `ServeXorb`: the whole object, one range, or several. */
  method ServeBody(w: Response, ranges: seq<ByteRange>, xorb: string) returns (bytesServed: nat)
    requires Ordered(ranges) && w.body == ""
    modifies w
    ensures w.status == if ranges == [] then 200 else 206
    ensures w.body == if ranges == [] then xorb
                      else if |ranges| == 1 then Section(xorb, ranges[0])
                      else Framed(ranges, |xorb|, xorb)
    ensures bytesServed == if ranges == [] then |xorb| else TotalLength(ranges)
    ensures "Content-Length" in w.headers
            && w.headers == Sent(old(w.headers), ranges, |xorb|, w.headers["Content-Length"])
            && (w.headers["Content-Length"] == Print(|w.body|) <==> InObject(ranges, |xorb|))
  {
    if |ranges| == 0 {
      w.headers := w.headers["Content-Type" := OCTETS]["Content-Length" := Print(|xorb|)]["Accept-Ranges" := "bytes"];
      w.status := 200;
      w.body := w.body + xorb;
      bytesServed := |xorb|;
    } else if |ranges| == 1 {
      WriteSingleRange(w, ranges[0], |xorb|, xorb);
      bytesServed := ranges[0].endInclusive - ranges[0].start + 1;
      assert ranges[..0] == [];
    } else {
      WriteMultipartRanges(w, ranges, |xorb|, xorb);
      bytesServed := 0;
      for i := 0 to |ranges|
        invariant Ordered(ranges[..i]) && bytesServed == TotalLength(ranges[..i])
      {
        assert ranges[..i + 1][..i] == ranges[..i];
        bytesServed := bytesServed + (ranges[i].endInclusive - ranges[i].start + 1);
      }
      assert ranges[..|ranges|] == ranges;
    }
  }
}
