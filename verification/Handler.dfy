/**
 * `ServeXorb` (gateway/handlers.go): the signed URL, the Range header, the grant check and the response, in
 * that order.  The look-up of the xorb and its source are a parameter.
 */
module Handler {
  import opened Prelude
  import opened Text
  import C = Coalesce
  import G = GrantCodec
  import U = SignedUrl
  import R = Ranges
  import M = Multipart
  import GrantCheck

  datatype Decision = Refuse(status: nat, message: string) | Serve(ranges: seq<C.ByteRange>)

  function ToRanges(segs: seq<G.Segment>): (r: seq<C.ByteRange>)
    ensures |r| == |segs|
  {
    seq(|segs|, i requires 0 <= i < |segs| => C.ByteRange(segs[i].0, segs[i].1))
  }

  function ToSegments(ranges: seq<C.ByteRange>): (s: seq<G.Segment>)
    ensures |s| == |ranges|
  {
    seq(|ranges|, i requires 0 <= i < |ranges| => (ranges[i].start, ranges[i].endInclusive))
  }

  predicate AllWithin(ranges: seq<C.ByteRange>, grants: seq<C.ByteRange>) {
    forall i :: 0 <= i < |ranges| ==> GrantCheck.WithinAny(ranges[i], grants)
  }

  function Requested(header: string, size: nat): Result<seq<C.ByteRange>, R.RangeErr> {
    if header == "" then Ok([]) else R.Resolved(header, size)
  }

  /** What the handler decides for a xorb and the grants of an accepted URL. */
  function DecideRanges(grants: seq<C.ByteRange>, header: string, xorb: string): Decision {
    var requested := Requested(header, |xorb|);
    if requested == Err(R.Unsatisfiable) then Refuse(416, "range not satisfiable")
    else if requested.Err? then Refuse(400, "bad range")
    else if grants == [] then Serve(requested.value)
    else if requested.value == [] then Serve(grants)
    else if AllWithin(requested.value, grants) then Serve(requested.value)
    else Refuse(403, "forbidden")
  }

  /** What the handler decides before it writes anything. */
  function Decide(verified: Result<U.VerifyOk, U.VerifyErr>, header: string, xorb: Option<string>): Decision {
    if verified.Err? then
      if verified.error.Malformed? then Refuse(400, "bad request") else Refuse(403, "forbidden")
    else if xorb == None then Refuse(404, "not found")
    else DecideRanges(ToRanges(verified.value.ranges), header, xorb.value)
  }

  /** The octets that answer a decision to serve. */
  function Body(ranges: seq<C.ByteRange>, xorb: string): string
    requires M.Ordered(ranges)
  {
    if ranges == [] then xorb
    else if |ranges| == 1 then M.Section(xorb, ranges[0])
    else M.Framed(ranges, |xorb|, xorb)
  }

  /** The headers of a refusal. */
  function Plain(headers: map<string, string>): map<string, string> {
    headers["Content-Type" := "text/plain; charset=utf-8"]["X-Content-Type-Options" := "nosniff"]
  }

  /** Section 4.4 of RFC 7233: a 416 says how long the object is. */
  function Unsatisfied(headers: map<string, string>, size: nat): map<string, string> {
    headers["Content-Range" := "bytes */" + Print(size)]
  }

  /** `respondError` */
  method RespondError(w: M.Response, status: nat, message: string)
    modifies w
    ensures w.status == status && w.body == old(w.body) + message + "\n"
    ensures w.headers == Plain(old(w.headers))
  {
    w.headers := w.headers["Content-Type" := "text/plain; charset=utf-8"]["X-Content-Type-Options" := "nosniff"];
    w.status := status;
    w.body := w.body + message + "\n";
  }

  lemma ResolvedInObject(header: string, size: nat)
    requires R.Resolved(header, size).Ok?
    ensures R.Resolved(header, size).value != [] && R.InObject(R.Resolved(header, size).value, size)
  {
    var pieces := Split(header[|R.BYTES|..], ',');
    PiecesInObject(pieces, size);
  }

  lemma {:induction false} PiecesInObject(pieces: seq<string>, size: nat)
    requires R.ResolveAll(pieces, size).Ok?
    ensures var r := R.ResolveAll(pieces, size).value; |r| == |pieces| && R.InObject(r, size)
  {
    if pieces != [] {
      PiecesInObject(pieces[..|pieces| - 1], size);
    }
  }

  /** The segments that a verifier returns parse, so they are ordered. */
  lemma AcceptedSegments(lib: U.Lib, keys: U.Keys, url: U.Url, now: nat)
    requires U.UuidsValid(lib) && U.GoVerify(lib, keys, url, now).Ok?
    ensures var r := U.GoVerify(lib, keys, url, now).value.ranges; r == [] || G.ValidSegments(r)
  {
    U.AcceptedMeans(U.Go, lib, keys, url, now);
    var r := U.First(url.query, "r");
    if r.Some? {
      ParsedSegments(Split(r.value, ','));
    }
  }

  lemma {:induction false} ParsedSegments(parts: seq<string>)
    requires G.All(G.SegmentRust, parts).Some?
    ensures var s := G.All(G.SegmentRust, parts).value;
            |s| == |parts| && forall i :: 0 <= i < |s| ==> s[i].0 <= s[i].1 < U64
  {
    if parts != [] {
      ParsedSegments(parts[..|parts| - 1]);
      SegmentOrdered(parts[|parts| - 1]);
    }
  }

  lemma SegmentOrdered(p: string)
    ensures G.SegmentRust(p).Some? ==> G.SegmentRust(p).value.0 <= G.SegmentRust(p).value.1 < U64
  {
  }

  /** What an answer must be; the length that it promises is that of its body exactly when the ranges that it
      serves are in the xorb. */
  ghost predicate Answers(d: Decision, xorb: Option<string>, before: map<string, string>, status: nat,
                          headers: map<string, string>, body: string, bytesServed: nat) {
    match d
    case Refuse(code, message) =>
      && status == code && body == message + "\n" && bytesServed == 0
      && headers == Plain(if code == 416 && xorb.Some? then Unsatisfied(before, |xorb.value|) else before)
    case Serve(ranges) =>
      && xorb.Some? && M.Ordered(ranges)
      && status == (if ranges == [] then 200 else 206) && body == Body(ranges, xorb.value)
      && bytesServed == (if ranges == [] then |xorb.value| else M.TotalLength(ranges))
      && "Content-Length" in headers
      && headers == M.Sent(before, ranges, |xorb.value|, headers["Content-Length"])
      && (headers["Content-Length"] == Print(|body|) <==> R.InObject(ranges, |xorb.value|))
  }

  /** The third step: parse the header, if there is one. */
  method ParseHeader(header: string, size: nat) returns (r: Result<seq<C.ByteRange>, R.RangeErr>)
    ensures r == Requested(header, size)
    ensures r.Ok? ==> M.Ordered(r.value)
  {
    if header == "" {
      return Ok([]);
    }
    r := R.ParseRange(header, size);
  }

  /** What a header that cannot be served is answered with. */
  method RefuseHeader(w: M.Response, e: R.RangeErr, size: nat)
    modifies w
    ensures w.status == if e.Unsatisfiable? then 416 else 400
    ensures w.body == old(w.body) + (if e.Unsatisfiable? then "range not satisfiable" else "bad range") + "\n"
    ensures w.headers == Plain(if e.Unsatisfiable? then Unsatisfied(old(w.headers), size) else old(w.headers))
  {
    if e.Unsatisfiable? {
      w.headers := w.headers["Content-Range" := "bytes */" + Print(size)];
      RespondError(w, 416, "range not satisfiable");
    } else {
      RespondError(w, 400, "bad range");
    }
  }

  /** The handler from the Range header on. */
  method AnswerRanges(w: M.Response, grants: seq<C.ByteRange>, header: string, xorb: string) returns (bytesServed: nat)
    requires M.Ordered(grants) && w.body == ""
    modifies w
    ensures Answers(DecideRanges(grants, header, xorb), Some(xorb), old(w.headers), w.status, w.headers, w.body,
                    bytesServed)
  {
    bytesServed := 0;
    var parsed := ParseHeader(header, |xorb|);
    if parsed.Err? {
      RefuseHeader(w, parsed.error, |xorb|);
      return;
    }
    var effective := GrantCheck.EffectiveRanges(parsed.value, grants);
    if effective.Err? {
      RespondError(w, 403, "forbidden");
      return;
    }
    bytesServed := M.ServeBody(w, effective.value, xorb);
  }

  /** The handler from the look-up on. */
  method Answer(w: M.Response, verified: Result<U.VerifyOk, U.VerifyErr>, header: string, xorb: Option<string>)
    returns (bytesServed: nat)
    requires verified.Ok? ==> verified.value.ranges == [] || G.ValidSegments(verified.value.ranges)
    requires w.body == ""
    modifies w
    ensures Answers(Decide(verified, header, xorb), xorb, old(w.headers), w.status, w.headers, w.body,
                    bytesServed)
  {
    bytesServed := 0;
    if verified.Err? {
      if verified.error.Malformed? {
        RespondError(w, 400, "bad request");
      } else {
        RespondError(w, 403, "forbidden");
      }
    } else if xorb == None {
      RespondError(w, 404, "not found");
    } else {
      bytesServed := AnswerRanges(w, ToRanges(verified.value.ranges), header, xorb.value);
    }
  }

  // ----- what each request is answered with

  /** The status that refuses a URL that states an expiry and a key id, if it is refused. */
  ghost function RefusalOf(lib: U.Lib, keys: U.Keys, url: U.Url, now: nat, exp: nat, kid: U.Uuid, found: bool)
    : Option<nat>
    requires kid.Valid()
  {
    if now >= exp then Some(403)
    else if !U.Decodes(lib, url) then Some(400)
    else if !U.Signed(lib, keys, url, exp, kid) then Some(403)
    else if !found then Some(404)
    else None
  }

  /** What an accepted URL with this grant is answered with. */
  ghost predicate AnsweredByGrant(d: Decision, segs: seq<G.Segment>, header: string, xorb: string) {
    var requested := Requested(header, |xorb|);
    && (requested.Err? ==> d.Refuse? && d.status == if requested.error.Unsatisfiable? then 416 else 400)
    && (header == "" ==> d == Serve(ToRanges(segs)))
    && (header != "" && requested.Ok? ==>
          if segs == [] || AllWithin(requested.value, ToRanges(segs)) then d == Serve(requested.value)
          else d.Refuse? && d.status == 403)
  }

  /** A URL that states nothing is answered with 400.  Otherwise the handler answers 403 from the stated expiry on,
      400 for a signature that does not decode, 403 for one that is not that of what the URL states under a key it
      holds, and 404 without a xorb, in this order; all other requests are answered by the grant. */
  lemma DecideExact(lib: U.Lib, keys: U.Keys, url: U.Url, now: nat, header: string, xorb: Option<string>)
    requires U.UuidsValid(lib)
    ensures var d := Decide(U.GoVerify(lib, keys, url, now), header, xorb);
      && (!U.SaysSomething(lib, url) ==> d.Refuse? && d.status == 400)
      && forall exp, kid, segs :: U.States(lib, url, exp, kid, segs) ==>
           kid.Valid() &&
           match RefusalOf(lib, keys, url, now, exp, kid, xorb.Some?)
           case Some(status) => d.Refuse? && d.status == status
           case None => xorb.Some? && AnsweredByGrant(d, segs, header, xorb.value)
  {
    U.GoOutcome(lib, keys, url, now);
    var v := U.GoVerify(lib, keys, url, now);
    forall exp, kid, segs | U.States(lib, url, exp, kid, segs)
      ensures kid.Valid() && U.Judged(v, lib, keys, url, now, exp, kid, segs)
    {
    }
    if v.Ok? && xorb.Some? && header != "" && R.Resolved(header, |xorb.value|).Ok? {
      ResolvedInObject(header, |xorb.value|);
    }
  }

  /** Octets leave the gateway only for a genuine URL. */
  lemma ServedIsGenuine(lib: U.Lib, keys: U.Keys, url: U.Url, now: nat, header: string, xorb: Option<string>)
    requires U.UuidsValid(lib)
    ensures var d := Decide(U.GoVerify(lib, keys, url, now), header, xorb);
      if d.Refuse? then d.status in {400, 403, 404, 416}
      else xorb.Some? && Authorized(lib, keys, url, now)
  {
    var v := U.GoVerify(lib, keys, url, now);
    if v.Ok? {
      U.AcceptedGo(lib, keys, url, now);
    }
  }

  /** The URL is genuine now, for some payload. */
  ghost predicate Authorized(lib: U.Lib, keys: U.Keys, url: U.Url, now: nat) {
    exists v :: U.Genuine(lib, keys, url, now, U.First(url.query, "r"),
                          U.Then(U.First(url.query, "sig"), lib.decodeGo), v)
  }

  /** `ServeXorb` */
  method ServeXorb(w: M.Response, lib: U.Lib, keys: U.Keys, url: U.Url, now: nat, header: string, xorb: Option<string>)
    returns (bytesServed: nat)
    requires U.UuidsValid(lib) && w.body == ""
    modifies w
    ensures Answers(Decide(U.GoVerify(lib, keys, url, now), header, xorb), xorb, old(w.headers), w.status, w.headers,
                    w.body, bytesServed)
    ensures w.status == 200 || w.status == 206 ==> xorb.Some? && Authorized(lib, keys, url, now)
    ensures !(w.status == 200 || w.status == 206) ==> bytesServed == 0
  {
    ServedIsGenuine(lib, keys, url, now, header, xorb);
    var verified := U.VerifyGo(lib, keys, url, now);
    if verified.Ok? {
      AcceptedSegments(lib, keys, url, now);
    }
    bytesServed := Answer(w, verified, header, xorb);
  }

  // ----- from the terms of a xorb to the octets that a client reads

  lemma GrantsInXorb(spans: seq<C.Span>, grants: seq<C.ByteRange>, size: nat)
    requires C.Exact(spans, grants) && forall i :: 0 <= i < |spans| ==> spans[i].end <= size
    ensures R.InObject(grants, size)
  {
    var ex := C.Exclusive(grants);
    forall i | 0 <= i < |grants| ensures grants[i].start <= grants[i].endInclusive < size {
      assert ex[i] == C.ToExclusive(grants[i]);
      assert C.Covers(ex, grants[i].endInclusive);
      assert C.Covers(spans, grants[i].endInclusive);
    }
  }

  lemma RoundSegments(ranges: seq<C.ByteRange>)
    ensures ToRanges(ToSegments(ranges)) == ranges
  {
  }

  /** Every octet that is asked for is an octet of some term. */
  ghost predicate OnlyTerms(ranges: seq<C.ByteRange>, spans: seq<C.Span>) {
    forall i :: 0 <= i < |ranges| ==> GrantCheck.Contained(ranges[i], spans)
  }

  /** What the handler decides for a URL that carries the coalesced ranges of a xorb's terms. */
  ghost predicate DecidedByTerms(d: Decision, spans: seq<C.Span>, grants: seq<C.ByteRange>, header: string, size: nat) {
    var requested := Requested(header, size);
    && (header == "" ==> d == Serve(grants))
    && (requested.Err? ==> d.Refuse? && d.status == if requested.error.Unsatisfiable? then 416 else 400)
    && (header != "" && requested.Ok? ==>
          d == if OnlyTerms(requested.value, spans) then Serve(requested.value) else Refuse(403, "forbidden"))
    && (d.Serve? ==> d.ranges != [] && R.InObject(d.ranges, size) && OnlyTerms(d.ranges, spans))
  }

  lemma GrantDecision(verified: Result<U.VerifyOk, U.VerifyErr>, spans: seq<C.Span>, grants: seq<C.ByteRange>,
                      header: string, xorb: string)
    requires verified.Ok? && verified.value.ranges == ToSegments(grants)
    requires C.Exact(spans, grants) && grants != [] && R.InObject(grants, |xorb|)
    ensures DecidedByTerms(Decide(verified, header, Some(xorb)), spans, grants, header, |xorb|)
  {
    RoundSegments(grants);
    OwnGrants(spans, grants);
    if header != "" && R.Resolved(header, |xorb|).Ok? {
      ResolvedInObject(header, |xorb|);
      GrantCheck.GrantCheckExact(spans, grants, R.Resolved(header, |xorb|).value);
    }
  }

  /** The spans of a xorb's terms are coalesced, minted into a URL and presented, before it expires, with any
      Range header: the handler serves what the header asks for exactly when every octet asked for belongs to
      a term, all the terms' octets when there is no header, and only ranges within the xorb. */
  lemma GrantEndToEnd(lib: U.Lib, key: U.Key, ttl: nat, hash: string, kid: U.Uuid, mintedAt: nat,
                      spans: seq<C.Span>, grants: seq<C.ByteRange>,
                      keys: U.Keys, now: nat, header: string, xorb: string)
    requires lib.Sound() && U.HashOk(hash) && kid.Valid() && U.HasKey(keys, key)
    requires now < U.ExpiryOf(mintedAt, ttl)
    requires C.Exact(spans, grants) && grants != [] && |xorb| < U64
    requires forall i :: 0 <= i < |spans| ==> spans[i].end <= |xorb|
    ensures var url := U.Mint(lib, key, ttl, hash, ToSegments(grants), kid, mintedAt);
            DecidedByTerms(Decide(U.GoVerify(lib, keys, url, now), header, Some(xorb)), spans, grants, header, |xorb|)
  {
    var segs := ToSegments(grants);
    GrantsInXorb(spans, grants, |xorb|);
    assert G.ValidSegments(segs);
    U.MintVerifies(lib, key, ttl, hash, segs, kid, mintedAt, keys, now);
    var verified := U.GoVerify(lib, keys, U.Mint(lib, key, ttl, hash, segs, kid, mintedAt), now);
    GrantDecision(verified, spans, grants, header, xorb);
  }

  /** The same for the ranges that coalescing the spans gives: the handler decides by the octets of the terms,
      for every Range header, if and only if every empty span is touched by a span with bytes. */
  lemma EndToEndExact(lib: U.Lib, key: U.Key, ttl: nat, hash: string, kid: U.Uuid, mintedAt: nat,
                      spans: seq<C.Span>, keys: U.Keys, now: nat, xorb: string)
    requires lib.Sound() && U.HashOk(hash) && kid.Valid() && U.HasKey(keys, key)
    requires now < U.ExpiryOf(mintedAt, ttl)
    requires C.Offsets(spans) && spans != [] && |xorb| < U64
    requires forall i :: 0 <= i < |spans| ==> spans[i].end <= |xorb|
    ensures var grants := C.CoalescedRanges(spans);
            var verified := U.GoVerify(lib, keys, U.Mint(lib, key, ttl, hash, ToSegments(grants), kid, mintedAt), now);
            C.Touched(spans) <==> DecidesByTerms(verified, spans, grants, xorb)
  {
    var grants := C.CoalescedRanges(spans);
    var verified := U.GoVerify(lib, keys, U.Mint(lib, key, ttl, hash, ToSegments(grants), kid, mintedAt), now);
    C.CoalescedExact(spans);
    C.CoalescedValid(spans);
    if C.Touched(spans) {
      forall header ensures DecidedByTerms(Decide(verified, header, Some(xorb)), spans, grants, header, |xorb|) {
        GrantEndToEnd(lib, key, ttl, hash, kid, mintedAt, spans, grants, keys, now, header, xorb);
      }
    } else {
      StrayDecision(lib, key, ttl, hash, kid, mintedAt, spans, keys, now, "", xorb);
      assert DecidesByTerms(verified, spans, grants, xorb) ==>
        DecidedByTerms(Decide(verified, "", Some(xorb)), spans, grants, "", |xorb|);
    }
  }

  ghost predicate DecidesByTerms(verified: Result<U.VerifyOk, U.VerifyErr>, spans: seq<C.Span>,
                                 grants: seq<C.ByteRange>, xorb: string) {
    forall header :: DecidedByTerms(Decide(verified, header, Some(xorb)), spans, grants, header, |xorb|)
  }

  /** Otherwise one of two things happens.  An empty span beyond offset 0 that nothing touches makes the gateway
      refuse the URL, whatever is asked for.  One at offset 0 makes it grant every range of the xorb, and answer a
      request without a header with a range over all 64-bit offsets. */
  lemma StrayDecision(lib: U.Lib, key: U.Key, ttl: nat, hash: string, kid: U.Uuid, mintedAt: nat,
                      spans: seq<C.Span>, keys: U.Keys, now: nat, header: string, xorb: string)
    requires lib.Sound() && U.HashOk(hash) && kid.Valid() && U.HasKey(keys, key)
    requires now < U.ExpiryOf(mintedAt, ttl)
    requires C.Offsets(spans) && spans != [] && !C.Touched(spans) && |xorb| < U64
    ensures var grants := C.CoalescedRanges(spans);
            var verified := U.GoVerify(lib, keys, U.Mint(lib, key, ttl, hash, ToSegments(grants), kid, mintedAt), now);
            var decision, requested := Decide(verified, header, Some(xorb)), Requested(header, |xorb|);
            if C.StrayBeyond(spans) then decision == Refuse(400, "bad request")
            else
              && C.ByteRange(0, U64 - 1) in grants
              && (requested.Ok? ==> decision == Serve(if header == "" then grants else requested.value))
  {
    var grants := C.CoalescedRanges(spans);
    var segs := ToSegments(grants);
    C.CoalescedValid(spans);
    assert segs != [];
    if C.StrayBeyond(spans) {
      var i :| 0 <= i < |grants| && !(grants[i].start <= grants[i].endInclusive < U64);
      assert segs[i] == (grants[i].start, grants[i].endInclusive);
      U.MintRefused(lib, key, ttl, hash, segs, kid, mintedAt, keys, now);
    } else {
      C.StrayAtZero(spans);
      assert G.ValidSegments(segs);
      U.MintVerifies(lib, key, ttl, hash, segs, kid, mintedAt, keys, now);
      var verified := U.GoVerify(lib, keys, U.Mint(lib, key, ttl, hash, segs, kid, mintedAt), now);
      UnboundedDecision(verified, grants, header, xorb);
    }
  }

  /** A grant over all offsets admits every range of the xorb. */
  lemma UnboundedDecision(verified: Result<U.VerifyOk, U.VerifyErr>, grants: seq<C.ByteRange>, header: string,
                          xorb: string)
    requires verified.Ok? && verified.value.ranges == ToSegments(grants)
    requires C.ByteRange(0, U64 - 1) in grants && |xorb| < U64
    ensures var requested := Requested(header, |xorb|);
            requested.Ok? ==>
              Decide(verified, header, Some(xorb)) == Serve(if header == "" then grants else requested.value)
  {
    RoundSegments(grants);
    if header != "" && R.Resolved(header, |xorb|).Ok? {
      ResolvedInObject(header, |xorb|);
      GrantsAll(grants, R.Resolved(header, |xorb|).value);
    }
  }

  /** What the handler decides, said of the terms of the xorb `h`. */
  ghost predicate DecidedByOctets(d: Decision, terms: seq<C.Term>, h: C.Hash, header: string, size: nat) {
    var requested := Requested(header, size);
    && (requested.Err? ==> d.Refuse? && d.status == if requested.error.Unsatisfiable? then 416 else 400)
    && (header == "" ==> d.Serve? && C.ExactlyTerms(terms, h, d.ranges))
    && (header != "" && requested.Ok? ==>
          d == if OctetsInTerms(requested.value, terms, h) then Serve(requested.value) else Refuse(403, "forbidden"))
    && (d.Serve? ==> d.ranges != [] && R.InObject(d.ranges, size))
  }

  ghost predicate OctetsInTerms(ranges: seq<C.ByteRange>, terms: seq<C.Term>, h: C.Hash) {
    forall i, b: nat :: 0 <= i < |ranges| && ranges[i].start <= b <= ranges[i].endInclusive ==> C.InTerm(terms, h, b)
  }

  lemma OnlyTermsOctets(ranges: seq<C.ByteRange>, terms: seq<C.Term>, h: C.Hash)
    ensures OnlyTerms(ranges, C.SpansOf(terms, h)) <==> OctetsInTerms(ranges, terms, h)
  {
    forall b: nat ensures C.Covers(C.SpansOf(terms, h), b) <==> C.InTerm(terms, h, b) {
      C.GroupCovers(terms, h, b);
    }
  }

  /** From the terms on: for the ranges that coalescing gives the xorb `h`, the handler decides every request by the
      octets of its terms if and only if every term without octets meets one with octets. */
  lemma TermsEndToEnd(lib: U.Lib, key: U.Key, ttl: nat, hash: string, kid: U.Uuid, mintedAt: nat,
                      terms: seq<C.Term>, h: C.Hash, keys: U.Keys, now: nat, xorb: string)
    requires lib.Sound() && U.HashOk(hash) && kid.Valid() && U.HasKey(keys, key)
    requires now < U.ExpiryOf(mintedAt, ttl)
    requires C.TermOffsets(terms) && C.HasTerm(terms, h) && |xorb| < U64
    requires forall i :: 0 <= i < |terms| && terms[i].xorb == h ==> terms[i].byteEnd <= |xorb|
    ensures C.Offsets(C.SpansOf(terms, h))
    ensures var segs := ToSegments(C.CoalescedRanges(C.SpansOf(terms, h)));
            var verified := U.GoVerify(lib, keys, U.Mint(lib, key, ttl, hash, segs, kid, mintedAt), now);
            C.TermsTouched(terms, h) <==>
              forall header :: DecidedByOctets(Decide(verified, header, Some(xorb)), terms, h, header, |xorb|)
  {
    C.SpansOffsets(terms, h);
    C.GroupTouched(terms, h);
    var spans := C.SpansOf(terms, h);
    var grants := C.CoalescedRanges(spans);
    var verified := U.GoVerify(lib, keys, U.Mint(lib, key, ttl, hash, ToSegments(grants), kid, mintedAt), now);
    forall k | 0 <= k < |spans| ensures spans[k].end <= |xorb| {
      C.GroupMember(terms, h, spans[k]);
    }
    if C.TermsTouched(terms, h) {
      C.CoalescedTerms(terms, h);
      C.CoalescedExact(spans);
      C.CoalescedValid(spans);
      forall header ensures DecidedByOctets(Decide(verified, header, Some(xorb)), terms, h, header, |xorb|) {
        GrantEndToEnd(lib, key, ttl, hash, kid, mintedAt, spans, grants, keys, now, header, xorb);
        if header != "" && Requested(header, |xorb|).Ok? {
          OnlyTermsOctets(Requested(header, |xorb|).value, terms, h);
        }
      }
    } else {
      StrayDecision(lib, key, ttl, hash, kid, mintedAt, spans, keys, now, "", xorb);
      assert !DecidedByOctets(Decide(verified, "", Some(xorb)), terms, h, "", |xorb|);
    }
  }

  lemma GrantsAll(grants: seq<C.ByteRange>, ranges: seq<C.ByteRange>)
    requires C.ByteRange(0, U64 - 1) in grants && forall i :: 0 <= i < |ranges| ==> ranges[i].endInclusive < U64
    ensures AllWithin(ranges, grants)
  {
    var k :| 0 <= k < |grants| && grants[k] == C.ByteRange(0, U64 - 1);
    forall i | 0 <= i < |ranges| ensures GrantCheck.WithinAny(ranges[i], grants) {
      assert GrantCheck.Within(ranges[i], grants[k]);
    }
  }

  lemma OwnGrants(spans: seq<C.Span>, grants: seq<C.ByteRange>)
    requires C.Exact(spans, grants)
    ensures OnlyTerms(grants, spans)
  {
    forall i | 0 <= i < |grants| ensures GrantCheck.Contained(grants[i], spans) {
      assert GrantCheck.Within(grants[i], grants[i]);
      GrantCheck.AcceptedIsContained(grants[i], grants);
    }
  }

  /** What a client reads out of a response to several ranges: each range with exactly its octets. */
  lemma ClientReads(ranges: seq<C.ByteRange>, xorb: string, before: map<string, string>, length: string)
    requires ranges != [] && R.InObject(ranges, |xorb|) && |xorb| < U64
    ensures var headers := M.Sent(before, ranges, |xorb|, length);
            if |ranges| == 1 then
              && Body(ranges, xorb) == xorb[ranges[0].start..ranges[0].endInclusive + 1]
              && M.ParseContentRange(headers["Content-Range"]) == Some((ranges[0], |xorb|))
            else M.ReadBody(headers["Content-Type"], Body(ranges, xorb)) == Some(M.PartsOf(ranges, xorb, |xorb|))
  {
    M.SentHeaders(before, ranges, |xorb|, length);
    if |ranges| == 1 {
      M.SectionLength(xorb, ranges[0]);
      M.ContentRangeRoundTrip(ranges[0], |xorb|);
    } else {
      M.MultipartRoundTrip(ranges, |xorb|, xorb);
    }
  }
}
