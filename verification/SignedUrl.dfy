/**
 * Signed URLs: minted by the Rust side (signed_url.rs), verified by the Rust side and by the gateway
 * (signed_url.go).  HMAC, base64 and UUID parsing are parameters.
 */
module SignedUrl {
  import opened Prelude
  import opened Text
  import opened GrantCodec

  type Key = seq<Byte>
  type Sig = seq<Byte>
  type Query = seq<(string, string)>

  // ----- fields

  predicate LowerHex(c: char) {
    '0' <= c <= '9' || 'a' <= c <= 'f'
  }

  predicate UpperHex(c: char) {
    'A' <= c <= 'F'
  }

  /** 64 lowercase hex digits. */
  predicate HashOk(hash: string) {
    |hash| == 64 && forall i :: 0 <= i < |hash| ==> LowerHex(hash[i])
  }

  /** The 32 hex digits of a UUID. */
  datatype Uuid = Uuid(hex: string) {
    predicate Valid() {
      |hex| == 32 && forall i :: 0 <= i < |hex| ==> LowerHex(hex[i])
    }

    /** The hyphenated form that both sides print. */
    function ToString(): string
      requires Valid()
    {
      hex[..8] + "-" + hex[8..12] + "-" + hex[12..16] + "-" + hex[16..20] + "-" + hex[20..]
    }
  }

  datatype Lib = Lib(
    mac: (Key, string) -> Sig,
    encode: Sig -> string,
    decodeRust: string -> Option<Sig>,
    decodeGo: string -> Option<Sig>,
    uuidRust: string -> Option<Uuid>,
    uuidGo: string -> Option<Uuid>)
  {
    /** Both base64 decoders read back what is encoded, both UUID parsers what is printed. */
    ghost predicate Sound() {
      && (forall s: Sig :: encode(s) != "" && decodeRust(encode(s)) == Some(s) && decodeGo(encode(s)) == Some(s))
      && (forall k: Uuid :: k.Valid() ==> uuidRust(k.ToString()) == Some(k) && uuidGo(k.ToString()) == Some(k))
      && (forall t: string :: uuidRust(t).Some? ==> uuidRust(t).value.Valid())
      && (forall t: string :: uuidGo(t).Some? ==> uuidGo(t).value.Valid())
    }
  }

  // ----- the canonical string

  const LF: char := '\n'

  function Fields(hash: string, exp: nat, r: string, kid: Uuid): seq<string>
    requires kid.Valid()
  {
    ["v1", hash, Print(exp), r, kid.ToString()]
  }

  /** `canonical_string_raw` and `canonicalStringRaw`: five fields, four line feeds. */
  function Canonical(hash: string, exp: nat, r: string, kid: Uuid): string
    requires kid.Valid()
  {
    "v1" + [LF] + hash + [LF] + Print(exp) + [LF] + r + [LF] + kid.ToString()
  }

  lemma CanonicalJoins(hash: string, exp: nat, r: string, kid: Uuid)
    requires kid.Valid()
    ensures Canonical(hash, exp, r, kid) == Join(Fields(hash, exp, r, kid), LF)
  {
    var f := Fields(hash, exp, r, kid);
    var t1, t2, t3 := f[1..], f[1..][1..], f[1..][1..][1..];
    assert t3 == [r, kid.ToString()] && t3[1..] == [kid.ToString()];
    assert Join(t3, LF) == r + [LF] + kid.ToString();
    assert Join(t2, LF) == Print(exp) + [LF] + Join(t3, LF);
    assert Join(t1, LF) == hash + [LF] + Join(t2, LF);
    assert Join(f, LF) == "v1" + [LF] + Join(t1, LF);
  }

  lemma UuidClean(kid: Uuid)
    requires kid.Valid()
    ensures LF !in kid.ToString()
  {
  }

  lemma UuidInjective(a: Uuid, b: Uuid)
    requires a.Valid() && b.Valid() && a.ToString() == b.ToString()
    ensures a == b
  {
    UuidSlices(a);
    UuidSlices(b);
  }

  lemma UuidSlices(a: Uuid)
    requires a.Valid()
    ensures var s := a.ToString();
            |s| == 36 && a.hex == s[..8] + s[9..13] + s[14..18] + s[19..23] + s[24..]
  {
    var s := a.ToString();
    assert s[..8] == a.hex[..8] && s[9..13] == a.hex[8..12] && s[14..18] == a.hex[12..16];
    assert s[19..23] == a.hex[16..20] && s[24..] == a.hex[20..];
  }

  /** The canonical string determines its fields, as long as they contain no line feed. */
  lemma CanonicalInjective(hash: string, exp: nat, r: string, kid: Uuid, hash': string, exp': nat, r': string, kid': Uuid)
    requires kid.Valid() && kid'.Valid() && LF !in hash && LF !in hash' && LF !in r && LF !in r'
    requires Canonical(hash, exp, r, kid) == Canonical(hash', exp', r', kid')
    ensures hash == hash' && exp == exp' && r == r' && kid == kid'
  {
    var f, f' := Fields(hash, exp, r, kid), Fields(hash', exp', r', kid');
    FieldsClean(hash, exp, r, kid);
    FieldsClean(hash', exp', r', kid');
    CanonicalJoins(hash, exp, r, kid);
    CanonicalJoins(hash', exp', r', kid');
    SplitJoin(f, LF);
    SplitJoin(f', LF);
    assert f == f';
    assert f[1] == hash && f'[1] == hash' && f[2] == Print(exp) && f'[2] == Print(exp');
    assert f[3] == r && f'[3] == r' && f[4] == kid.ToString() && f'[4] == kid'.ToString();
    PrintDigits(exp);
    PrintDigits(exp');
    UuidInjective(kid, kid');
  }

  lemma FieldsClean(hash: string, exp: nat, r: string, kid: Uuid)
    requires kid.Valid() && LF !in hash && LF !in r
    ensures forall i :: 0 <= i < |Fields(hash, exp, r, kid)| ==> LF !in Fields(hash, exp, r, kid)[i]
  {
    PrintDigits(exp);
    UuidClean(kid);
  }

  /** A range field that is accepted contains no line feed. */
  lemma AcceptedClean(r: string)
    requires FieldRust(r).Some?
    ensures LF !in r
  {
    var parts := Split(r, ',');
    SplitMembers(r, ',', LF);
    forall i | 0 <= i < |parts| ensures LF !in parts[i] {
      AllFails(SegmentRust, parts, i);
      var p, dash := parts[i], IndexOf(parts[i], '-');
      assert p == p[..dash] + ['-'] + p[dash + 1..];
      NumberClean(p[..dash]);
      NumberClean(p[dash + 1..]);
    }
  }

  lemma NumberClean(s: string)
    requires ParseRust(s).Some?
    ensures LF !in s
  {
    if s[0] == '+' {
      assert s == [s[0]] + s[1..];
    }
  }

  // ----- minting

  datatype Url = Url(hash: string, query: Query)

  function ExpiryOf(now: nat, ttl: nat): nat {
    Min(now + ttl, U64 - 1)
  }

  /** The field that carries the grant; empty for a grant of the whole xorb. */
  function RangeField(segs: seq<Segment>): string {
    if segs == [] then "" else PrintSegments(segs)
  }

  /** What `mint_v1` (no range or one) and `mint_v1_multi_range` (one or more) build. */
  function Mint(lib: Lib, key: Key, ttl: nat, hash: string, segs: seq<Segment>, kid: Uuid, now: nat): Url
    requires kid.Valid()
  {
    var exp := ExpiryOf(now, ttl);
    var sig := lib.encode(lib.mac(key, Canonical(hash, exp, RangeField(segs), kid)));
    var query := [("exp", Print(exp)), ("kid", kid.ToString()), ("sig", sig)];
    Url(hash, if segs == [] then query else query + [("r", PrintSegments(segs))])
  }

  // ----- verifying

  datatype VerifyErr = Malformed(what: string) | Expired | BadSignature

  datatype VerifyOk = VerifyOk(hash: string, exp: nat, ranges: seq<Segment>, kid: Uuid, byPrev: bool)

  datatype Keys = Keys(current: Key, prev: Option<Key>)

  function First(q: Query, k: string): Option<string> {
    if q == [] then None else if q[0].0 == k then Some(q[0].1) else First(q[1..], k)
  }

  function Last(q: Query, k: string): Option<string> {
    if q == [] then None
    else if q[|q| - 1].0 == k then Some(q[|q| - 1].1)
    else Last(q[..|q| - 1], k)
  }

  /** The signature check, current key first. */
  function CheckSig(lib: Lib, keys: Keys, canonical: string, provided: Sig, ok: VerifyOk): Result<VerifyOk, VerifyErr> {
    if lib.mac(keys.current, canonical) == provided then Ok(ok.(byPrev := false))
    else if keys.prev.Some? && lib.mac(keys.prev.value, canonical) == provided then Ok(ok.(byPrev := true))
    else Err(BadSignature)
  }

  /** What `Verify` in Go computes. */
  function GoVerify(lib: Lib, keys: Keys, url: Url, now: nat): Result<VerifyOk, VerifyErr>
    requires forall t: string :: lib.uuidGo(t).Some? ==> lib.uuidGo(t).value.Valid()
  {
    var get := (k: string) => if First(url.query, k).Some? then First(url.query, k).value else "";
    var r := First(url.query, "r");
    if !HashOk(url.hash) then Err(Malformed("xorb_hash_hex"))
    else if get("exp") == "" then Err(Malformed("exp"))
    else if get("kid") == "" then Err(Malformed("kid"))
    else if get("sig") == "" then Err(Malformed("sig"))
    else if ParseGo(get("exp")) == None then Err(Malformed("exp"))
    else if lib.uuidGo(get("kid")) == None then Err(Malformed("kid"))
    else if r.Some? && FieldGo(r.value) == None then Err(Malformed("range"))
    else
      var exp, kid := ParseGo(get("exp")).value, lib.uuidGo(get("kid")).value;
      if now >= exp then Err(Expired)
      else if lib.decodeGo(get("sig")) == None then Err(Malformed("sig_b64"))
      else
        CheckSig(lib, keys, Canonical(url.hash, exp, if r.Some? then r.value else "", kid),
                 lib.decodeGo(get("sig")).value,
                 VerifyOk(url.hash, exp, if r.Some? then FieldGo(r.value).value else [], kid, false))
  }

  function HashCheckRust(hash: string): Option<VerifyErr> {
    if |hash| != 64 || exists i :: 0 <= i < |hash| && !LowerHex(hash[i]) && !UpperHex(hash[i])
    then Some(Malformed("xorb_hash_hex"))
    else if exists i :: 0 <= i < |hash| && UpperHex(hash[i]) then Some(Malformed("xorb_hash_hex_case"))
    else None
  }

  function Then<T, U>(a: Option<T>, f: T -> Option<U>): Option<U> {
    if a.Some? then f(a.value) else None
  }

  /** What `verify` in Rust computes. */
  function RustVerify(lib: Lib, keys: Keys, url: Url, now: nat): Result<VerifyOk, VerifyErr>
    requires forall t: string :: lib.uuidRust(t).Some? ==> lib.uuidRust(t).value.Valid()
  {
    RustVerifySlots(lib, keys, url.hash, Then(Last(url.query, "exp"), ParseRust),
                    Then(Last(url.query, "kid"), lib.uuidRust), Last(url.query, "sig"), Last(url.query, "r"), now)
  }

  /** The part of `verify` after the query has been read into slots. */
  function RustVerifySlots(lib: Lib, keys: Keys, hash: string, exp: Option<nat>, kid: Option<Uuid>, sig: Option<string>,
                           r: Option<string>, now: nat): Result<VerifyOk, VerifyErr>
    requires kid.Some? ==> kid.value.Valid()
  {
    if HashCheckRust(hash).Some? then Err(HashCheckRust(hash).value)
    else if exp == None then Err(Malformed("exp"))
    else if kid == None then Err(Malformed("kid"))
    else if sig == None then Err(Malformed("sig"))
    else if r.Some? && FieldRust(r.value) == None then Err(Malformed("range"))
    else if now >= exp.value then Err(Expired)
    else if lib.decodeRust(sig.value) == None then Err(Malformed("sig_b64"))
    else
      CheckSig(lib, keys, Canonical(hash, exp.value, if r.Some? then r.value else "", kid.value),
               lib.decodeRust(sig.value).value,
               VerifyOk(hash, exp.value, if r.Some? then FieldRust(r.value).value else [], kid.value, false))
  }

  /** `UrlSigner::verify`: the slots are filled in a loop, later pairs overwriting earlier ones. */
  method VerifyRust(lib: Lib, keys: Keys, url: Url, now: nat) returns (res: Result<VerifyOk, VerifyErr>)
    requires forall t: string :: lib.uuidRust(t).Some? ==> lib.uuidRust(t).value.Valid()
    ensures res == RustVerify(lib, keys, url, now)
  {
    var hashErr := HashCheckRust(url.hash);
    if hashErr.Some? {
      return Err(hashErr.value);
    }
    var exp: Option<nat>, kid: Option<Uuid>, sig: Option<string>, r: Option<string> := None, None, None, None;
    var q := url.query;
    for i := 0 to |q|
      invariant exp == Then(Last(q[..i], "exp"), ParseRust) && kid == Then(Last(q[..i], "kid"), lib.uuidRust)
      invariant sig == Last(q[..i], "sig") && r == Last(q[..i], "r")
    {
      var (k, v) := q[i];
      assert q[..i + 1][..i] == q[..i];
      if k == "exp" {
        exp := ParseRust(v);
      } else if k == "kid" {
        kid := lib.uuidRust(v);
      } else if k == "sig" {
        sig := Some(v);
      } else if k == "r" {
        r := Some(v);
      }
    }
    assert q[..|q|] == q;
    res := RustVerifySlots(lib, keys, url.hash, exp, kid, sig, r, now);
  }

  /** `isHexLower` over the path segment, as `Verify` in Go loops. */
  method HashOkGo(hash: string) returns (ok: bool)
    ensures ok <==> HashOk(hash)
  {
    if |hash| != 64 {
      return false;
    }
    for i := 0 to |hash|
      invariant forall j :: 0 <= j < i ==> LowerHex(hash[j])
    {
      if !LowerHex(hash[i]) {
        return false;
      }
    }
    ok := true;
  }

  lemma HashChecksAgree(hash: string)
    ensures HashCheckRust(hash) == None <==> HashOk(hash)
  {
  }

  // ----- what is minted is accepted, by both verifiers

  /** `mint_v1` as it is written: no range or one. */
  function MintV1(lib: Lib, key: Key, ttl: nat, hash: string, range: Option<Segment>, kid: Uuid, now: nat): Url
    requires kid.Valid()
  {
    var exp := ExpiryOf(now, ttl);
    var r := if range.Some? then PrintSegment(range.value) else "";
    var sig := lib.encode(lib.mac(key, Canonical(hash, exp, r, kid)));
    var query := [("exp", Print(exp)), ("kid", kid.ToString()), ("sig", sig)];
    Url(hash, if range.Some? then query + [("r", PrintSegment(range.value))] else query)
  }

  /** A grant of one segment is the same URL from both minting functions. */
  lemma OneSegment(lib: Lib, key: Key, ttl: nat, hash: string, g: Segment, kid: Uuid, now: nat)
    requires kid.Valid()
    ensures MintV1(lib, key, ttl, hash, Some(g), kid, now) == Mint(lib, key, ttl, hash, [g], kid, now)
    ensures MintV1(lib, key, ttl, hash, None, kid, now) == Mint(lib, key, ttl, hash, [], kid, now)
  {
    assert PrintSegments([g]) == PrintSegment(g);
  }

  predicate Grantable(hash: string, segs: seq<Segment>, kid: Uuid) {
    HashOk(hash) && kid.Valid() && (segs == [] || ValidSegments(segs))
  }

  /** What both verifiers read out of a minted query. */
  lemma MintedFields(lib: Lib, key: Key, ttl: nat, hash: string, segs: seq<Segment>, kid: Uuid, now: nat)
    requires kid.Valid()
    ensures var q, exp := Mint(lib, key, ttl, hash, segs, kid, now).query, ExpiryOf(now, ttl);
            var sig := lib.encode(lib.mac(key, Canonical(hash, exp, RangeField(segs), kid)));
            var r := if segs == [] then None else Some(PrintSegments(segs));
            && First(q, "exp") == Last(q, "exp") == Some(Print(exp))
            && First(q, "kid") == Last(q, "kid") == Some(kid.ToString())
            && First(q, "sig") == Last(q, "sig") == Some(sig)
            && First(q, "r") == Last(q, "r") == r
  {
    var q := Mint(lib, key, ttl, hash, segs, kid, now).query;
    var p: seq<string> := ["exp", "kid", "sig", "r"];
    forall i | 0 <= i < |q| ensures q[i].0 == p[i] && First(q, p[i]) == Last(q, p[i]) == Some(q[i].1) {
      FirstAt(q, i);
      LastAt(q, i);
    }
    if segs == [] {
      NotThere(q, "r");
    }
  }

  lemma {:induction false} FirstAt(q: Query, i: nat)
    requires i < |q| && forall j :: 0 <= j < i ==> q[j].0 != q[i].0
    ensures First(q, q[i].0) == Some(q[i].1)
  {
    if i > 0 {
      FirstAt(q[1..], i - 1);
    }
  }

  lemma {:induction false} LastAt(q: Query, i: nat)
    requires i < |q| && forall j :: i < j < |q| ==> q[j].0 != q[i].0
    ensures Last(q, q[i].0) == Some(q[i].1)
  {
    if i < |q| - 1 {
      LastAt(q[..|q| - 1], i);
    }
  }

  lemma {:induction false} NotThere(q: Query, k: string)
    requires forall j :: 0 <= j < |q| ==> q[j].0 != k
    ensures First(q, k) == None && Last(q, k) == None
  {
    if q != [] {
      NotThere(q[1..], k);
      NotThere(q[..|q| - 1], k);
    }
  }

  ghost predicate HasKey(keys: Keys, key: Key) {
    key == keys.current || keys.prev == Some(key)
  }

  /** The payload that was minted, and a flag that says which key matched. */
  ghost predicate Payload(v: Result<VerifyOk, VerifyErr>, hash: string, exp: nat, segs: seq<Segment>, kid: Uuid) {
    v.Ok? && v.value.hash == hash && v.value.exp == exp && v.value.ranges == segs && v.value.kid == kid
  }

  /** What both verifiers make of a minted URL, before they know about keys. */
  function MintedResult(lib: Lib, key: Key, ttl: nat, hash: string, segs: seq<Segment>, kid: Uuid, now: nat,
                        keys: Keys, later: nat): Result<VerifyOk, VerifyErr>
    requires kid.Valid()
  {
    var exp := ExpiryOf(now, ttl);
    var message := Canonical(hash, exp, RangeField(segs), kid);
    if later >= exp then Err(Expired)
    else CheckSig(lib, keys, message, lib.mac(key, message), VerifyOk(hash, exp, segs, kid, false))
  }

  /** `verify` in Rust on a query whose fields all parse. */
  lemma RustReads(lib: Lib, keys: Keys, url: Url, later: nat, exp: nat, kid: Uuid, sig: string, mac: Sig,
                  r: Option<string>, segs: seq<Segment>)
    requires (forall t: string :: lib.uuidRust(t).Some? ==> lib.uuidRust(t).value.Valid()) && kid.Valid()
    requires HashOk(url.hash) && exp < U64 && Last(url.query, "exp") == Some(Print(exp))
    requires Last(url.query, "kid") == Some(kid.ToString()) && lib.uuidRust(kid.ToString()) == Some(kid)
    requires Last(url.query, "sig") == Some(sig) && lib.decodeRust(sig) == Some(mac)
    requires Last(url.query, "r") == r && if r == None then segs == [] else FieldRust(r.value) == Some(segs)
    ensures RustVerify(lib, keys, url, later)
            == if later >= exp then Err(Expired)
               else CheckSig(lib, keys, Canonical(url.hash, exp, if r.Some? then r.value else "", kid), mac,
                             VerifyOk(url.hash, exp, segs, kid, false))
  {
    PrintParse(exp);
    HashChecksAgree(url.hash);
  }

  /** `Verify` in Go on a query whose fields all parse. */
  lemma GoReads(lib: Lib, keys: Keys, url: Url, later: nat, exp: nat, kid: Uuid, sig: string, mac: Sig,
                r: Option<string>, segs: seq<Segment>)
    requires (forall t: string :: lib.uuidGo(t).Some? ==> lib.uuidGo(t).value.Valid()) && kid.Valid()
    requires HashOk(url.hash) && exp < U64 && First(url.query, "exp") == Some(Print(exp))
    requires First(url.query, "kid") == Some(kid.ToString()) && lib.uuidGo(kid.ToString()) == Some(kid)
    requires First(url.query, "sig") == Some(sig) && sig != "" && lib.decodeGo(sig) == Some(mac)
    requires First(url.query, "r") == r && if r == None then segs == [] else FieldGo(r.value) == Some(segs)
    ensures GoVerify(lib, keys, url, later)
            == if later >= exp then Err(Expired)
               else CheckSig(lib, keys, Canonical(url.hash, exp, if r.Some? then r.value else "", kid), mac,
                             VerifyOk(url.hash, exp, segs, kid, false))
  {
    PrintParse(exp);
    UuidSlices(kid);
  }

  lemma MintedResults(lib: Lib, key: Key, ttl: nat, hash: string, segs: seq<Segment>, kid: Uuid, now: nat,
                      keys: Keys, later: nat)
    requires lib.Sound() && Grantable(hash, segs, kid)
    ensures var url := Mint(lib, key, ttl, hash, segs, kid, now);
            RustVerify(lib, keys, url, later) == GoVerify(lib, keys, url, later)
            == MintedResult(lib, key, ttl, hash, segs, kid, now, keys, later)
  {
    var url, exp := Mint(lib, key, ttl, hash, segs, kid, now), ExpiryOf(now, ttl);
    var mac := lib.mac(key, Canonical(hash, exp, RangeField(segs), kid));
    var r := if segs == [] then None else Some(PrintSegments(segs));
    MintedFields(lib, key, ttl, hash, segs, kid, now);
    if segs != [] {
      CodecRoundTrip(segs);
    }
    RustReads(lib, keys, url, later, exp, kid, lib.encode(mac), mac, r, segs);
    GoReads(lib, keys, url, later, exp, kid, lib.encode(mac), mac, r, segs);
  }

  /** A URL minted for a list with a segment whose start is after its end, or too large, is refused by both
      verifiers. */
  lemma MintRefused(lib: Lib, key: Key, ttl: nat, hash: string, segs: seq<Segment>, kid: Uuid, now: nat,
                    keys: Keys, later: nat)
    requires lib.Sound() && HashOk(hash) && kid.Valid() && segs != [] && !ValidSegments(segs)
    ensures var url := Mint(lib, key, ttl, hash, segs, kid, now);
            RustVerify(lib, keys, url, later) == GoVerify(lib, keys, url, later) == Err(Malformed("range"))
  {
    MintedFields(lib, key, ttl, hash, segs, kid, now);
    CodecRoundTrip(segs);
    PrintParse(ExpiryOf(now, ttl));
    HashChecksAgree(hash);
    UuidSlices(kid);
  }

  /** Both verifiers accept the URL with its payload before `exp`, if they hold its key, and refuse it as expired
      from `exp` on. */
  ghost predicate LivesUntil(lib: Lib, keys: Keys, key: Key, url: Url, hash: string, segs: seq<Segment>, kid: Uuid,
                             exp: nat, later: nat)
    requires UuidsValid(lib)
  {
    && (later < exp && HasKey(keys, key) ==>
          && Payload(GoVerify(lib, keys, url, later), hash, exp, segs, kid)
          && Payload(RustVerify(lib, keys, url, later), hash, exp, segs, kid))
    && (later >= exp ==> GoVerify(lib, keys, url, later) == RustVerify(lib, keys, url, later) == Err(Expired))
  }

  /** A URL minted at `now` lives for exactly `ttl` seconds; where the sum would leave 64 bits, until the last
      second that 64 bits can name. */
  lemma MintVerifies(lib: Lib, key: Key, ttl: nat, hash: string, segs: seq<Segment>, kid: Uuid, now: nat,
                     keys: Keys, later: nat)
    requires lib.Sound() && Grantable(hash, segs, kid)
    ensures var url := Mint(lib, key, ttl, hash, segs, kid, now);
            && (now + ttl < U64 ==> LivesUntil(lib, keys, key, url, hash, segs, kid, now + ttl, later))
            && (now + ttl >= U64 ==> LivesUntil(lib, keys, key, url, hash, segs, kid, 0xFFFF_FFFF_FFFF_FFFF, later))
  {
    MintedResults(lib, key, ttl, hash, segs, kid, now, keys, later);
  }

  // ----- a test vector of the repository

  const VECTOR_HASH := "eea25d6ee393ccae385820daed127b96ef0ea034dfb7cf6da3a950ce334b7632"
  const VECTOR_KID := Uuid("01945edc" + "5f0a" + "71a3" + "9c82" + "3a0000000001")

  lemma VectorNumbers()
    ensures Print(1024) == "1024" && Print(8191) == "8191" && Print(12288) == "12288" && Print(16383) == "16383"
  {
  }

  lemma VectorExpiry()
    ensures Print(2000000000) == "2000000000"
  {
  }

  lemma VectorKid()
    ensures VECTOR_KID.Valid()
    ensures VECTOR_KID.ToString() == "01945edc" + "-" + "5f0a" + "-" + "71a3" + "-" + "9c82" + "-" + "3a0000000001"
  {
    UuidPieces("01945edc", "5f0a", "71a3", "9c82", "3a0000000001");
  }

  lemma UuidPieces(a: string, b: string, c: string, d: string, e: string)
    requires |a| == 8 && |b| == |c| == |d| == 4 && |e| == 12
    ensures var hex := a + b + c + d + e;
            hex[..8] == a && hex[8..12] == b && hex[12..16] == c && hex[16..20] == d && hex[20..] == e
  {
  }

  /** Two segments, as they are joined. */
  lemma TwoSegments(a: Segment, b: Segment)
    ensures PrintSegments([a, b])
         == (Print(a.0) + "-" + Print(a.1)) + "," + (Print(b.0) + "-" + Print(b.1))
  {
    var parts := SegmentParts([a, b]);
    assert parts[0] == PrintSegment(a) && parts[1..] == [PrintSegment(b)];
    assert Join(parts[1..], ',') == PrintSegment(b);
    assert [','] == ",";
  }

  /** The `v1_multi_range` vector of conformance/fixtures/signed_url_vectors.json: what is signed, and the query. */
  lemma MintVector(lib: Lib, key: Key)
    ensures VECTOR_KID.Valid()
    ensures var kid := "01945edc" + "-" + "5f0a" + "-" + "71a3" + "-" + "9c82" + "-" + "3a0000000001";
            var r := "1024" + "-" + "8191" + "," + ("12288" + "-" + "16383");
            var message := "v1" + "\n" + VECTOR_HASH + "\n" + "2000000000" + "\n" + r + "\n" + kid;
            Mint(lib, key, 3600, VECTOR_HASH, [(1024, 8191), (12288, 16383)], VECTOR_KID, 1_999_996_400)
            == Url(VECTOR_HASH, [("exp", "2000000000"), ("kid", kid), ("sig", lib.encode(lib.mac(key, message))), ("r", r)])
  {
    VectorNumbers();
    VectorExpiry();
    VectorKid();
    TwoSegments((1024, 8191), (12288, 16383));
    MintShape(lib, key, 3600, VECTOR_HASH, [(1024, 8191), (12288, 16383)], VECTOR_KID, 1_999_996_400);
  }

  /** A URL for some segments, with the expiry written out. */
  lemma MintShape(lib: Lib, key: Key, ttl: nat, hash: string, segs: seq<Segment>, kid: Uuid, now: nat)
    requires kid.Valid() && segs != [] && now + ttl < U64
    ensures var exp, id, r := Print(now + ttl), kid.ToString(), PrintSegments(segs);
            var message := "v1" + "\n" + hash + "\n" + exp + "\n" + r + "\n" + id;
            Mint(lib, key, ttl, hash, segs, kid, now)
            == Url(hash, [("exp", exp), ("kid", id), ("sig", lib.encode(lib.mac(key, message))), ("r", r)])
  {
  }

  // ----- what acceptance means, on either side

  datatype Side = Rust | Go

  /** Repeated query keys: Rust takes the last, Go the first. */
  function Field(side: Side, q: Query, k: string): Option<string> {
    if side.Rust? then Last(q, k) else First(q, k)
  }

  function OrEmpty(s: Option<string>): string {
    if s.Some? then s.value else ""
  }

  ghost predicate UuidsValid(lib: Lib) {
    && (forall t: string :: lib.uuidRust(t).Some? ==> lib.uuidRust(t).value.Valid())
    && (forall t: string :: lib.uuidGo(t).Some? ==> lib.uuidGo(t).value.Valid())
  }

  ghost function Verify(side: Side, lib: Lib, keys: Keys, url: Url, now: nat): Result<VerifyOk, VerifyErr>
    requires UuidsValid(lib)
  {
    if side.Rust? then RustVerify(lib, keys, url, now) else GoVerify(lib, keys, url, now)
  }

  /** The message whose signature was checked. */
  ghost function Message(side: Side, url: Url, v: VerifyOk): string
    requires v.kid.Valid()
  {
    Canonical(v.hash, v.exp, OrEmpty(Field(side, url.query, "r")), v.kid)
  }

  /** An accepted URL is unexpired, names the hash of its path, carries a grant that parses, and its signature
      is that of the message under the key that the flag names. */
  ghost predicate Genuine(lib: Lib, keys: Keys, url: Url, now: nat, r: Option<string>, sig: Option<Sig>, v: VerifyOk) {
    && HashOk(v.hash) && v.hash == url.hash && v.kid.Valid() && now < v.exp < U64
    && (if r == None then v.ranges == [] else FieldRust(r.value) == Some(v.ranges))
    && (v.byPrev ==> keys.prev.Some?)
    && sig == Some(lib.mac(if v.byPrev then keys.prev.value else keys.current,
                           Canonical(v.hash, v.exp, OrEmpty(r), v.kid)))
  }

  lemma AcceptedRust(lib: Lib, keys: Keys, url: Url, now: nat)
    requires UuidsValid(lib) && RustVerify(lib, keys, url, now).Ok?
    ensures Genuine(lib, keys, url, now, Last(url.query, "r"), Then(Last(url.query, "sig"), lib.decodeRust),
                    RustVerify(lib, keys, url, now).value)
  {
    var exp := OrEmpty(Last(url.query, "exp"));
    assert ParseRust(exp).Some? ==> ParseRust(exp).value < U64;
    HashChecksAgree(url.hash);
  }

  lemma AcceptedGo(lib: Lib, keys: Keys, url: Url, now: nat)
    requires UuidsValid(lib) && GoVerify(lib, keys, url, now).Ok?
    ensures Genuine(lib, keys, url, now, First(url.query, "r"), Then(First(url.query, "sig"), lib.decodeGo),
                    GoVerify(lib, keys, url, now).value)
  {
    GoIsRustWithoutPlus(OrEmpty(First(url.query, "r")));
  }

  lemma AcceptedMeans(side: Side, lib: Lib, keys: Keys, url: Url, now: nat)
    requires UuidsValid(lib) && Verify(side, lib, keys, url, now).Ok?
    ensures Genuine(lib, keys, url, now, Field(side, url.query, "r"),
                    Then(Field(side, url.query, "sig"), if side.Rust? then lib.decodeRust else lib.decodeGo),
                    Verify(side, lib, keys, url, now).value)
  {
    if side.Rust? {
      AcceptedRust(lib, keys, url, now);
    } else {
      AcceptedGo(lib, keys, url, now);
    }
  }

  /** The URL states a hash, an expiry, a key id and a grant, and carries a signature; as the gateway reads it. */
  ghost predicate States(lib: Lib, url: Url, exp: nat, kid: Uuid, segs: seq<Segment>) {
    var q := url.query;
    && HashOk(url.hash)
    && First(q, "exp").Some? && ParseGo(First(q, "exp").value) == Some(exp)
    && First(q, "kid").Some? && First(q, "kid").value != "" && lib.uuidGo(First(q, "kid").value) == Some(kid)
    && First(q, "sig").Some? && First(q, "sig").value != ""
    && match First(q, "r") case None => segs == [] case Some(field) => FieldGo(field) == Some(segs)
  }

  /** The signature in the URL is that of what it states, under one of the two keys. */
  ghost predicate Signed(lib: Lib, keys: Keys, url: Url, exp: nat, kid: Uuid)
    requires kid.Valid()
  {
    var message := Canonical(url.hash, exp, OrEmpty(First(url.query, "r")), kid);
    exists key: Key :: HasKey(keys, key)
      && Then(First(url.query, "sig"), lib.decodeGo) == Some(lib.mac(key, message))
  }

  ghost predicate Decodes(lib: Lib, url: Url) {
    Then(First(url.query, "sig"), lib.decodeGo).Some?
  }

  ghost predicate SaysSomething(lib: Lib, url: Url) {
    exists exp, kid, segs :: States(lib, url, exp, kid, segs)
  }

  /** What is to come of a URL that states this. */
  ghost predicate Judged(v: Result<VerifyOk, VerifyErr>, lib: Lib, keys: Keys, url: Url, now: nat, exp: nat, kid: Uuid,
                         segs: seq<Segment>)
    requires kid.Valid()
  {
    if now >= exp then v == Err(Expired)
    else if !Decodes(lib, url) then v.Err? && v.error.Malformed?
    else if Signed(lib, keys, url, exp, kid) then Payload(v, url.hash, exp, segs, kid)
    else v == Err(BadSignature)
  }

  /** Every outcome of the gateway's verifier: malformed exactly when the URL states nothing or its signature does
      not decode before the expiry, expired exactly from the stated expiry on, and otherwise accepted with what it
      states exactly when it is signed. */
  lemma GoOutcome(lib: Lib, keys: Keys, url: Url, now: nat)
    requires UuidsValid(lib)
    ensures !SaysSomething(lib, url) ==>
              GoVerify(lib, keys, url, now).Err? && GoVerify(lib, keys, url, now).error.Malformed?
    ensures forall exp, kid, segs :: States(lib, url, exp, kid, segs) ==>
      kid.Valid() && Judged(GoVerify(lib, keys, url, now), lib, keys, url, now, exp, kid, segs)
  {
    forall exp, kid, segs | States(lib, url, exp, kid, segs)
      ensures kid.Valid() && Judged(GoVerify(lib, keys, url, now), lib, keys, url, now, exp, kid, segs)
    {
      StatedOutcome(lib, keys, url, now, exp, kid, segs);
    }
    if !SaysSomething(lib, url) && (GoVerify(lib, keys, url, now).Ok? || !GoVerify(lib, keys, url, now).error.Malformed?) {
      var kid := lib.uuidGo(OrEmpty(First(url.query, "kid")));
      var segs := if First(url.query, "r").Some? then FieldGo(First(url.query, "r").value).value else [];
      assert States(lib, url, ParseGo(First(url.query, "exp").value).value, kid.value, segs);
    }
  }

  lemma StatedOutcome(lib: Lib, keys: Keys, url: Url, now: nat, exp: nat, kid: Uuid, segs: seq<Segment>)
    requires UuidsValid(lib) && States(lib, url, exp, kid, segs)
    ensures kid.Valid() && Judged(GoVerify(lib, keys, url, now), lib, keys, url, now, exp, kid, segs)
  {
    var message := Canonical(url.hash, exp, OrEmpty(First(url.query, "r")), kid);
    if Decodes(lib, url) {
      var sig := Then(First(url.query, "sig"), lib.decodeGo).value;
      assert HasKey(keys, keys.current);
      assert keys.prev.Some? ==> HasKey(keys, keys.prev.value);
      assert Signed(lib, keys, url, exp, kid) <==>
        lib.mac(keys.current, message) == sig || (keys.prev.Some? && lib.mac(keys.prev.value, message) == sig);
    }
  }

  /** Equal signed messages mean an equal payload, whichever side accepted, with whatever keys and clock. */
  lemma SameMessageSamePayload(side: Side, side': Side, lib: Lib, keys: Keys, keys': Keys, url: Url, url': Url,
                               now: nat, now': nat)
    requires UuidsValid(lib)
    requires Verify(side, lib, keys, url, now).Ok? && Verify(side', lib, keys', url', now').Ok?
    requires Verify(side, lib, keys, url, now).value.kid.Valid() && Verify(side', lib, keys', url', now').value.kid.Valid()
    requires Message(side, url, Verify(side, lib, keys, url, now).value)
             == Message(side', url', Verify(side', lib, keys', url', now').value)
    ensures var v := Verify(side, lib, keys, url, now).value;
            Payload(Verify(side', lib, keys', url', now'), v.hash, v.exp, v.ranges, v.kid)
  {
    AcceptedMeans(side, lib, keys, url, now);
    AcceptedMeans(side', lib, keys', url', now');
    var v, v' := Verify(side, lib, keys, url, now).value, Verify(side', lib, keys', url', now').value;
    var r, r' := Field(side, url.query, "r"), Field(side', url'.query, "r");
    if r.Some? {
      AcceptedClean(r.value);
    }
    if r'.Some? {
      AcceptedClean(r'.value);
    }
    CanonicalInjective(v.hash, v.exp, OrEmpty(r), v.kid, v'.hash, v'.exp, OrEmpty(r'), v'.kid);
    assert FieldRust("") == None;
  }

  // ----- the two verifiers agree

  /** No field is given twice. */
  ghost predicate Unrepeated(q: Query) {
    forall i, j :: 0 <= i < j < |q| ==> q[i].0 != q[j].0
  }

  lemma {:induction false} UnrepeatedFields(q: Query, k: string)
    requires Unrepeated(q)
    ensures First(q, k) == Last(q, k)
  {
    if i :| 0 <= i < |q| && q[i].0 == k {
      FirstAt(q, i);
      LastAt(q, i);
    } else {
      NotThere(q, k);
    }
  }

  /** The base64 and UUID decoders of both sides agree on this query. */
  predicate DecodersAgree(lib: Lib, q: Query) {
    var sig, kid := OrEmpty(First(q, "sig")), OrEmpty(First(q, "kid"));
    lib.decodeGo(sig) == lib.decodeRust(sig) && lib.uuidGo(kid) == lib.uuidRust(kid)
  }

  /** The first and the last value of every field that a verifier reads are the same. */
  predicate ReadsAlike(q: Query) {
    && First(q, "exp") == Last(q, "exp") && First(q, "kid") == Last(q, "kid")
    && First(q, "sig") == Last(q, "sig") && First(q, "r") == Last(q, "r")
  }

  lemma UnrepeatedReadsAlike(q: Query)
    requires Unrepeated(q)
    ensures ReadsAlike(q)
  {
    UnrepeatedFields(q, "exp");
    UnrepeatedFields(q, "kid");
    UnrepeatedFields(q, "sig");
    UnrepeatedFields(q, "r");
  }

  /** On a query whose four fields read alike and that the decoders agree on, the gateway accepts exactly what
      the Rust verifier accepts, with the same result, except numbers with a plus sign and empty fields. */
  lemma GoIsRust(lib: Lib, keys: Keys, url: Url, now: nat)
    requires UuidsValid(lib) && ReadsAlike(url.query) && DecodersAgree(lib, url.query)
    ensures var q, rust, go := url.query, RustVerify(lib, keys, url, now), GoVerify(lib, keys, url, now);
            && (go.Ok? ==> go == rust)
            && (rust.Ok? ==>
                  (go.Ok? <==> '+' !in OrEmpty(First(q, "exp")) && '+' !in OrEmpty(First(q, "r"))
                               && OrEmpty(First(q, "kid")) != "" && OrEmpty(First(q, "sig")) != ""))
  {
    var q := url.query;
    ParsersAgree(OrEmpty(First(q, "exp")));
    GoIsRustWithoutPlus(OrEmpty(First(q, "r")));
    HashChecksAgree(url.hash);
  }

  /** Fields in front of a query: Go reads the first value, Rust the last. */
  lemma FirstLastPrepended(k: string, v: string, q: Query, field: string)
    ensures First([(k, v)] + q, field) == if field == k then Some(v) else First(q, field)
    ensures Last([(k, v)] + q, field)
         == if Last(q, field).Some? then Last(q, field) else if field == k then Some(v) else None
  {
    var p := [(k, v)] + q;
    assert p[1..] == q;
    if q == [] {
      assert p[..0] == [] && p[0] == (k, v);
    } else {
      assert p[..|p| - 1] == [(k, v)] + q[..|q| - 1];
      FirstLastPrepended(k, v, q[..|q| - 1], field);
    }
  }

  /** A URL minted for the grant `b`, with the range field of another grant `a` put in front: the Rust side
      accepts it with `b`, the gateway reads `a` and refuses the signature, for every MAC that gives the two
      messages different signatures. */
  lemma RepeatedFieldsDiffer(lib: Lib, key: Key, ttl: nat, hash: string, a: seq<Segment>, b: seq<Segment>, kid: Uuid,
                             now: nat, keys: Keys, later: nat)
    requires lib.Sound() && Grantable(hash, b, kid) && ValidSegments(a) && ValidSegments(b)
    requires HasKey(keys, key) && later < ExpiryOf(now, ttl)
    requires var exp := ExpiryOf(now, ttl);
             var mac := lib.mac(key, Canonical(hash, exp, PrintSegments(b), kid));
             && lib.mac(keys.current, Canonical(hash, exp, PrintSegments(a), kid)) != mac
             && (keys.prev.Some? ==> lib.mac(keys.prev.value, Canonical(hash, exp, PrintSegments(a), kid)) != mac)
    ensures var minted := Mint(lib, key, ttl, hash, b, kid, now);
            var url := Url(hash, [("r", PrintSegments(a))] + minted.query);
            && Payload(RustVerify(lib, keys, url, later), hash, ExpiryOf(now, ttl), b, kid)
            && GoVerify(lib, keys, url, later) == Err(BadSignature)
  {
    var exp := ExpiryOf(now, ttl);
    var q := Mint(lib, key, ttl, hash, b, kid, now).query;
    var url := Url(hash, [("r", PrintSegments(a))] + q);
    var mac := lib.mac(key, Canonical(hash, exp, RangeField(b), kid));
    MintedFields(lib, key, ttl, hash, b, kid, now);
    FirstLastPrepended("r", PrintSegments(a), q, "exp");
    FirstLastPrepended("r", PrintSegments(a), q, "kid");
    FirstLastPrepended("r", PrintSegments(a), q, "sig");
    FirstLastPrepended("r", PrintSegments(a), q, "r");
    CodecRoundTrip(a);
    CodecRoundTrip(b);
    RustReads(lib, keys, url, later, exp, kid, lib.encode(mac), mac, Some(PrintSegments(b)), b);
    GoReads(lib, keys, url, later, exp, kid, lib.encode(mac), mac, Some(PrintSegments(a)), a);
  }

  /** `Verify` in Go, check by check. */
  method VerifyGo(lib: Lib, keys: Keys, url: Url, now: nat) returns (res: Result<VerifyOk, VerifyErr>)
    requires forall t: string :: lib.uuidGo(t).Some? ==> lib.uuidGo(t).value.Valid()
    ensures res == GoVerify(lib, keys, url, now)
  {
    var hashOk := HashOkGo(url.hash);
    if !hashOk {
      return Err(Malformed("xorb_hash_hex"));
    }
    var exp, kid := OrEmpty(First(url.query, "exp")), OrEmpty(First(url.query, "kid"));
    var sig := OrEmpty(First(url.query, "sig"));
    if exp == "" {
      return Err(Malformed("exp"));
    }
    if kid == "" {
      return Err(Malformed("kid"));
    }
    if sig == "" {
      return Err(Malformed("sig"));
    }
    var expiry, id := ParseGo(exp), lib.uuidGo(kid);
    if expiry == None {
      return Err(Malformed("exp"));
    }
    if id == None {
      return Err(Malformed("kid"));
    }
    var ranges: seq<Segment>, rField := [], "";
    if First(url.query, "r").Some? {
      rField := First(url.query, "r").value;
      var parsed := ParseRangeSegmentsGo(rField);
      if parsed == None {
        return Err(Malformed("range"));
      }
      ranges := parsed.value;
    }
    if now >= expiry.value {
      return Err(Expired);
    }
    var provided := lib.decodeGo(sig);
    if provided == None {
      return Err(Malformed("sig_b64"));
    }
    var message := Canonical(url.hash, expiry.value, rField, id.value);
    res := CheckSig(lib, keys, message, provided.value, VerifyOk(url.hash, expiry.value, ranges, id.value, false));
  }
}
