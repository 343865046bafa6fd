/**
 * Key rotation over whole runs of the signer and its verifiers: the clock advances, URLs are minted with the
 * current key, and a rotation makes the current key the previous one and installs a new current key
 * (signed_url.rs, signed_url.go).
 */
module KeyRotation {
  import opened Prelude
  import opened GrantCodec
  import opened SignedUrl

  /** What a URL was minted with. */
  datatype Minted = Minted(key: Key, hash: string, segs: seq<Segment>, kid: Uuid, at: nat)

  datatype Action = Tick(seconds: nat) | Issue(hash: string, segs: seq<Segment>, kid: Uuid) | Rotate(next: Key)

  datatype State = State(now: nat, keys: Keys, rotated: Option<nat>, minted: seq<Minted>)

  function Start(now: nat, key: Key): State {
    State(now, Keys(key, None), None, [])
  }

  /** A rotation waits for a whole lifetime after the one before. */
  predicate Allowed(s: State, a: Action, ttl: nat) {
    match a
    case Tick(_) => true
    case Issue(hash, segs, kid) => Grantable(hash, segs, kid)
    case Rotate(_) => s.rotated.Some? ==> s.rotated.value + ttl <= s.now
  }

  function Step(s: State, a: Action): State {
    match a
    case Tick(seconds) => s.(now := s.now + seconds)
    case Issue(hash, segs, kid) => s.(minted := s.minted + [Minted(s.keys.current, hash, segs, kid, s.now)])
    case Rotate(next) => s.(keys := Keys(next, Some(s.keys.current)), rotated := Some(s.now))
  }

  function Run(s: State, actions: seq<Action>): State
    decreases |actions|
  {
    if actions == [] then s else Run(Step(s, actions[0]), actions[1..])
  }

  predicate Spaced(s: State, actions: seq<Action>, ttl: nat)
    decreases |actions|
  {
    actions == [] || (Allowed(s, actions[0], ttl) && Spaced(Step(s, actions[0]), actions[1..], ttl))
  }

  /** A URL that is still alive was minted with one of the two keys; one minted with the previous key dates
      from before the last rotation. */
  ghost predicate Inv(s: State, ttl: nat) {
    && (s.rotated.Some? ==> s.rotated.value <= s.now)
    && forall i :: 0 <= i < |s.minted| ==> Kept(s, s.minted[i], ttl)
  }

  ghost predicate Kept(s: State, m: Minted, ttl: nat) {
    && Grantable(m.hash, m.segs, m.kid)
    && (|| m.key == s.keys.current
        || (s.rotated.Some? && m.at <= s.rotated.value && Some(m.key) == s.keys.prev)
        || m.at + ttl <= s.now)
  }

  lemma StepKeeps(s: State, a: Action, ttl: nat)
    requires Inv(s, ttl) && Allowed(s, a, ttl) && (forall i :: 0 <= i < |s.minted| ==> s.minted[i].at <= s.now)
    ensures Inv(Step(s, a), ttl)
    ensures forall i :: 0 <= i < |Step(s, a).minted| ==> Step(s, a).minted[i].at <= Step(s, a).now
  {
    var t := Step(s, a);
    forall i | 0 <= i < |t.minted| ensures Kept(t, t.minted[i], ttl) {
      assert i < |s.minted| ==> t.minted[i] == s.minted[i] && Kept(s, s.minted[i], ttl);
    }
  }

  lemma {:induction false} RunKeeps(s: State, actions: seq<Action>, ttl: nat)
    requires Inv(s, ttl) && (forall i :: 0 <= i < |s.minted| ==> s.minted[i].at <= s.now)
    requires Spaced(s, actions, ttl)
    ensures Inv(Run(s, actions), ttl)
    decreases |actions|
  {
    if actions != [] {
      StepKeeps(s, actions[0], ttl);
      RunKeeps(Step(s, actions[0]), actions[1..], ttl);
    }
  }

  /** In every run whose rotations are at least one lifetime apart, every URL minted so far is accepted by both
      verifiers, with the payload it was minted with, until it expires. */
  lemma EveryLiveUrlVerifies(lib: Lib, start: nat, key: Key, actions: seq<Action>, ttl: nat, i: nat)
    requires lib.Sound() && Spaced(Start(start, key), actions, ttl)
    requires i < |Run(Start(start, key), actions).minted|
    ensures var s := Run(Start(start, key), actions);
            var m := s.minted[i];
            var exp := if m.at + ttl < U64 then m.at + ttl else U64 - 1;
            m.kid.Valid() &&
            var url := Mint(lib, m.key, ttl, m.hash, m.segs, m.kid, m.at);
            && (s.now < exp ==>
                  && Payload(GoVerify(lib, s.keys, url, s.now), m.hash, exp, m.segs, m.kid)
                  && Payload(RustVerify(lib, s.keys, url, s.now), m.hash, exp, m.segs, m.kid))
            && (s.now >= exp ==>
                  GoVerify(lib, s.keys, url, s.now) == RustVerify(lib, s.keys, url, s.now) == Err(Expired))
  {
    RunKeeps(Start(start, key), actions, ttl);
    var s := Run(Start(start, key), actions);
    var m := s.minted[i];
    assert Kept(s, m, ttl);
    MintVerifies(lib, m.key, ttl, m.hash, m.segs, m.kid, m.at, s.keys, s.now);
  }

  // ----- without spacing

  predicate IssuesGrantable(actions: seq<Action>) {
    forall i :: 0 <= i < |actions| && actions[i].Issue? ==> Grantable(actions[i].hash, actions[i].segs, actions[i].kid)
  }

  ghost predicate AllGrantable(minted: seq<Minted>) {
    forall i :: 0 <= i < |minted| ==> Grantable(minted[i].hash, minted[i].segs, minted[i].kid)
  }

  lemma {:induction false} RunGrantable(s: State, actions: seq<Action>)
    requires IssuesGrantable(actions) && AllGrantable(s.minted)
    ensures AllGrantable(Run(s, actions).minted)
    decreases |actions|
  {
    if actions != [] {
      RunGrantable(Step(s, actions[0]), actions[1..]);
    }
  }

  /** Whatever the spacing of the rotations: a live URL is accepted, by both sides with its payload, if and only if
      its key is the current or the previous one, for every MAC under which the keys held by then, unless they are
      its own, give its message another signature; otherwise both refuse the signature. */
  lemma LiveExactlyWithKey(lib: Lib, start: nat, key: Key, actions: seq<Action>, ttl: nat, i: nat)
    requires lib.Sound() && IssuesGrantable(actions) && i < |Run(Start(start, key), actions).minted|
    requires var s := Run(Start(start, key), actions);
             var m := s.minted[i];
             m.kid.Valid() && s.now < ExpiryOf(m.at, ttl) &&
             var message := Canonical(m.hash, ExpiryOf(m.at, ttl), RangeField(m.segs), m.kid);
             forall k: Key :: HasKey(s.keys, k) && k != m.key ==> lib.mac(k, message) != lib.mac(m.key, message)
    ensures var s := Run(Start(start, key), actions);
            var m := s.minted[i];
            var url := Mint(lib, m.key, ttl, m.hash, m.segs, m.kid, m.at);
            var exp := ExpiryOf(m.at, ttl);
            && GoVerify(lib, s.keys, url, s.now) == RustVerify(lib, s.keys, url, s.now)
            && (HasKey(s.keys, m.key) ==> Payload(GoVerify(lib, s.keys, url, s.now), m.hash, exp, m.segs, m.kid))
            && (!HasKey(s.keys, m.key) ==> GoVerify(lib, s.keys, url, s.now) == Err(BadSignature))
  {
    RunGrantable(Start(start, key), actions);
    var s := Run(Start(start, key), actions);
    var m := s.minted[i];
    MintedResults(lib, m.key, ttl, m.hash, m.segs, m.kid, m.at, s.keys, s.now);
  }

  // ----- the spacing is needed

  /** Mint, and rotate twice before the URL has expired. */
  function Hasty(hash: string, kid: Uuid, k1: Key, k2: Key): seq<Action> {
    [Issue(hash, [], kid), Rotate(k1), Rotate(k2)]
  }

  /** Two rotations within one lifetime orphan a live URL, for every MAC that gives the three keys different
      signatures of its message. */
  lemma HastyRotationOrphans(lib: Lib, hash: string, kid: Uuid, k0: Key, k1: Key, k2: Key, ttl: nat, now: nat)
    requires lib.Sound() && Grantable(hash, [], kid) && 0 < ttl && now < ExpiryOf(now, ttl)
    requires var message := Canonical(hash, ExpiryOf(now, ttl), "", kid);
             lib.mac(k0, message) != lib.mac(k1, message) && lib.mac(k0, message) != lib.mac(k2, message)
    ensures var s := Run(Start(now, k0), Hasty(hash, kid, k1, k2));
            var url := Mint(lib, k0, ttl, hash, [], kid, now);
            && s.minted == [Minted(k0, hash, [], kid, now)] && s.now < ExpiryOf(now, ttl)
            && !Spaced(Start(now, k0), Hasty(hash, kid, k1, k2), ttl)
            && GoVerify(lib, s.keys, url, s.now) == RustVerify(lib, s.keys, url, s.now) == Err(BadSignature)
  {
    var s0, a := Start(now, k0), Hasty(hash, kid, k1, k2);
    var s1 := Step(s0, a[0]);
    var s2 := Step(s1, a[1]);
    var s3 := Step(s2, a[2]);
    assert a[1..][0] == a[1] && a[1..][1..] == [a[2]] && [a[2]][1..] == [];
    assert Run(s3, []) == s3 && Run(s2, [a[2]]) == s3 && Run(s1, a[1..]) == s3 && Run(s0, a) == s3;
    assert !Spaced(s2, [a[2]], ttl) && !Spaced(s1, a[1..], ttl);
    MintedResults(lib, k0, ttl, hash, [], kid, now, s3.keys, now);
  }
}
