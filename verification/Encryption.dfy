/**
 * Stream encryption (sia_storage, encryption.rs): the per-shard cipher and the object cipher whose
 * nonce rotates every `MAX_BYTES_PER_NONCE` bytes.  The XChaCha20 keystream itself is a parameter.
 */
module Encryption {
  import opened Prelude
  import Striping

  /** `u32::MAX * 64` */
  const MAX_BYTES_PER_NONCE: nat := 0xFFFF_FFFF * 64

  type Key = seq<Byte>

  /** Keystream byte for a key, a nonce counter and a position in that nonce's keystream. */
  type Block = (Key, nat, nat) -> Byte

  /** XOR of `data` with the keystream of one nonce from position `pos` on. */
  function Xor(block: Block, key: Key, nonce: nat, pos: nat, data: seq<Byte>): (r: seq<Byte>)
    ensures |r| == |data|
  {
    seq(|data|, i requires 0 <= i < |data| => data[i] ^ block(key, nonce, pos + i))
  }

  // ----- the reference keystream, indexed by absolute offset

  function KeystreamAt(block: Block, key: Key, p: nat): Byte {
    block(key, p / MAX_BYTES_PER_NONCE, p % MAX_BYTES_PER_NONCE)
  }

  /** A nonce serves 274,877,906,880 bytes: byte `q` of span `s` is byte `q` of the keystream of nonce `s`. */
  lemma SpanKeystream(block: Block, key: Key, s: nat, q: nat)
    requires q < 274_877_906_880
    ensures KeystreamAt(block, key, s * 274_877_906_880 + q) == block(key, s, q)
  {
    DivModOf(s, q, MAX_BYTES_PER_NONCE);
  }

  function Crypt(block: Block, key: Key, offset: nat, data: seq<Byte>): (r: seq<Byte>)
    ensures |r| == |data|
  {
    seq(|data|, i requires 0 <= i < |data| => data[i] ^ KeystreamAt(block, key, offset + i))
  }

  /** Encrypting twice at the same offset gives the data back. */
  lemma CryptInvolution(block: Block, key: Key, offset: nat, data: seq<Byte>)
    ensures Crypt(block, key, offset, Crypt(block, key, offset, data)) == data
  {
    var twice := Crypt(block, key, offset, Crypt(block, key, offset, data));
    forall i | 0 <= i < |data| ensures twice[i] == data[i] {
      XorCancels(data[i], KeystreamAt(block, key, offset + i));
    }
  }

  /** Any part of a stream can be decrypted on its own by starting at its offset. */
  lemma CryptSplit(block: Block, key: Key, offset: nat, a: seq<Byte>, b: seq<Byte>)
    ensures Crypt(block, key, offset, a + b) == Crypt(block, key, offset, a) + Crypt(block, key, offset + |a|, b)
  {
  }

  lemma CryptSlice(block: Block, key: Key, data: seq<Byte>, from: nat, to: nat)
    requires from <= to <= |data|
    ensures Crypt(block, key, from, Crypt(block, key, 0, data)[from..to]) == data[from..to]
  {
    var part := Crypt(block, key, 0, data)[from..to];
    forall i | 0 <= i < to - from ensures Crypt(block, key, from, part)[i] == data[from + i] {
      XorCancels(data[from + i], KeystreamAt(block, key, from + i));
    }
  }

  // ----- the rotating cipher

  /** `nonce` and `pos` are the state of the inner cipher. */
  datatype CipherState = CipherState(nonce: nat, pos: nat, offset: nat)

  function Seek(offset: nat): CipherState {
    CipherState(offset / MAX_BYTES_PER_NONCE, offset % MAX_BYTES_PER_NONCE, offset)
  }

  function Remaining(offset: nat): (r: nat)
    ensures 0 < r <= MAX_BYTES_PER_NONCE
  {
    MAX_BYTES_PER_NONCE - offset % MAX_BYTES_PER_NONCE
  }

  /** The state after a call on `len` bytes: a call that fits the current nonce never rotates. */
  function After(s: CipherState, len: nat): CipherState {
    var rem := Remaining(s.offset);
    if len <= rem then CipherState(s.nonce, s.pos + len, s.offset + len)
    else CipherState((s.offset + rem) / MAX_BYTES_PER_NONCE, len - rem, s.offset + len)
  }

  function Output(block: Block, key: Key, s: CipherState, data: seq<Byte>): (r: seq<Byte>)
    ensures |r| == |data|
  {
    var rem := Remaining(s.offset);
    if |data| <= rem then Xor(block, key, s.nonce, s.pos, data)
    else Xor(block, key, s.nonce, s.pos, data[..rem])
         + Xor(block, key, (s.offset + rem) / MAX_BYTES_PER_NONCE, 0, data[rem..])
  }

  class Chacha20Cipher {
    const block: Block
    const key: Key
    var nonce: nat
    var pos: nat
    var offset: nat

    function State(): CipherState
      reads this
    {
      CipherState(nonce, pos, offset)
    }

    constructor (block: Block, key: Key, offset: nat)
      ensures this.block == block && this.key == key && State() == Seek(offset)
    {
      this.block := block;
      this.key := key;
      this.nonce := offset / MAX_BYTES_PER_NONCE;
      this.pos := offset % MAX_BYTES_PER_NONCE;
      this.offset := offset;
    }

    /** The inner XChaCha20 cipher: XORs `buf[from..to]` in place and advances its position. */
    method ApplyInner(buf: array<Byte>, from: nat, to: nat)
      requires from <= to <= buf.Length
      modifies this`pos, buf
      ensures pos == old(pos) + (to - from)
      ensures buf[from..to] == Xor(block, key, nonce, old(pos), old(buf[from..to]))
      ensures buf[..from] == old(buf[..from]) && buf[to..] == old(buf[to..])
    {
      var i := from;
      while i < to
        invariant from <= i <= to && pos == old(pos)
        invariant forall j :: 0 <= j < buf.Length && !(from <= j < i) ==> buf[j] == old(buf[j])
        invariant forall j :: from <= j < i ==> buf[j] == old(buf[j]) ^ block(key, nonce, pos + (j - from))
      {
        buf[i] := buf[i] ^ block(key, nonce, pos + (i - from));
        i := i + 1;
      }
      pos := pos + (to - from);
    }

    /** `unchecked_apply_keystream_inout` */
    method ApplyKeystream(buf: array<Byte>)
      modifies this, buf
      ensures State() == After(old(State()), buf.Length)
      ensures buf[..] == Output(block, key, old(State()), old(buf[..]))
    {
      var rem := MAX_BYTES_PER_NONCE - offset % MAX_BYTES_PER_NONCE;
      ghost var data := buf[..];
      if buf.Length <= rem {
        offset := offset + buf.Length;
        ApplyInner(buf, 0, buf.Length);
        assert data[0..buf.Length] == data && buf[0..buf.Length] == buf[..];
        return;
      }
      offset := offset + rem;
      ApplyInner(buf, 0, rem);
      assert data[0..rem] == data[..rem] && buf[0..rem] == buf[..rem] && buf[rem..] == data[rem..];
      nonce := offset / MAX_BYTES_PER_NONCE;
      pos := 0;
      offset := offset + (buf.Length - rem);
      assert buf[rem..buf.Length] == buf[rem..];
      ApplyInner(buf, rem, buf.Length);
      assert buf[..] == buf[..rem] + buf[rem..buf.Length];
    }
  }

  // ----- any sequence of calls

  /** What the cipher outputs for a stream cut into the given pieces, one call a piece. */
  function Run(block: Block, key: Key, s: CipherState, pieces: seq<seq<Byte>>): seq<Byte>
    decreases |pieces|
  {
    if pieces == [] then []
    else Output(block, key, s, pieces[0]) + Run(block, key, After(s, |pieces[0]|), pieces[1..])
  }

  function Lengths(pieces: seq<seq<Byte>>): (r: seq<nat>)
    ensures |r| == |pieces|
  {
    seq(|pieces|, i requires 0 <= i < |pieces| => |pieces[i]|)
  }

  predicate AllEmpty(lens: seq<nat>) {
    forall i :: 0 <= i < |lens| ==> lens[i] == 0
  }

  /** Calls that start at `offset` never cross two nonce boundaries, and only the last non-empty one
      may end exactly on a boundary. */
  predicate Chunking(offset: nat, lens: seq<nat>)
    decreases |lens|
  {
    lens == []
    || (&& lens[0] <= Remaining(offset) + MAX_BYTES_PER_NONCE
        && (lens[0] > 0 && (offset + lens[0]) % MAX_BYTES_PER_NONCE == 0 ==> AllEmpty(lens[1..]))
        && Chunking(offset + lens[0], lens[1..]))
  }

  /** One call from a seeked state. */
  lemma CallExact(block: Block, key: Key, offset: nat, data: seq<Byte>)
    requires |data| <= Remaining(offset) + MAX_BYTES_PER_NONCE
    ensures Output(block, key, Seek(offset), data) == Crypt(block, key, offset, data)
  {
    var out := Output(block, key, Seek(offset), data);
    forall i | 0 <= i < |data| ensures out[i] == Crypt(block, key, offset, data)[i] {
      Position(offset, i);
    }
  }

  /** Where byte `i` of a call that starts at `offset` falls in the nonce spans. */
  lemma Position(offset: nat, i: nat)
    requires i < Remaining(offset) + MAX_BYTES_PER_NONCE
    ensures var rem := Remaining(offset);
            if i < rem then
              (offset + i) / MAX_BYTES_PER_NONCE == offset / MAX_BYTES_PER_NONCE
              && (offset + i) % MAX_BYTES_PER_NONCE == offset % MAX_BYTES_PER_NONCE + i
            else
              (offset + i) / MAX_BYTES_PER_NONCE == (offset + rem) / MAX_BYTES_PER_NONCE
              && (offset + i) % MAX_BYTES_PER_NONCE == i - rem
  {
  }

  /** After a call the cipher is where a fresh seek would be, unless the call ended on a boundary. */
  lemma CallState(offset: nat, len: nat)
    requires len <= Remaining(offset) + MAX_BYTES_PER_NONCE
    ensures len == 0 || (offset + len) % MAX_BYTES_PER_NONCE != 0 ==> After(Seek(offset), len) == Seek(offset + len)
    ensures len > 0 && (offset + len) % MAX_BYTES_PER_NONCE == 0 ==>
      After(Seek(offset), len).pos == MAX_BYTES_PER_NONCE
  {
    if len > 0 {
      Position(offset, len - 1);
      if len < Remaining(offset) + MAX_BYTES_PER_NONCE {
        Position(offset, len);
      }
    }
  }

  lemma RunEmpty(block: Block, key: Key, s: CipherState, pieces: seq<seq<Byte>>)
    requires AllEmpty(Lengths(pieces))
    ensures Run(block, key, s, pieces) == [] == Concat(pieces)
    decreases |pieces|
  {
    if pieces != [] {
      assert |pieces[0]| == Lengths(pieces)[0];
      assert Lengths(pieces)[1..] == Lengths(pieces[1..]);
      RunEmpty(block, key, After(s, 0), pieces[1..]);
    }
  }

  lemma {:induction false} RunExact(block: Block, key: Key, offset: nat, pieces: seq<seq<Byte>>)
    requires Chunking(offset, Lengths(pieces))
    ensures Run(block, key, Seek(offset), pieces) == Crypt(block, key, offset, Concat(pieces))
    decreases |pieces|
  {
    if pieces != [] {
      var first, rest := pieces[0], pieces[1..];
      assert Lengths(pieces)[1..] == Lengths(rest);
      CallExact(block, key, offset, first);
      CallState(offset, |first|);
      CryptSplit(block, key, offset, first, Concat(rest));
      if |first| > 0 && (offset + |first|) % MAX_BYTES_PER_NONCE == 0 {
        RunEmpty(block, key, After(Seek(offset), |first|), rest);
      } else {
        RunExact(block, key, offset + |first|, rest);
      }
    }
  }

  // ----- the condition is exact

  /** A keystream whose bytes are 0 within the span of a nonce and 1 beyond it. */
  function Beyond(key: Key, nonce: nat, pos: nat): Byte {
    if pos < MAX_BYTES_PER_NONCE then 0 else 1
  }

  function Zeros(lens: seq<nat>): (pieces: seq<seq<Byte>>)
    ensures Lengths(pieces) == lens
  {
    seq(|lens|, i requires 0 <= i < |lens| => seq(lens[i], _ => 0))
  }

  lemma EmptyChunking(offset: nat, lens: seq<nat>)
    requires AllEmpty(lens)
    ensures Chunking(offset, lens)
    decreases |lens|
  {
    if lens != [] {
      EmptyChunking(offset, lens[1..]);
    }
  }

  lemma BeyondByte(key: Key, nonce: nat, pos: nat, data: seq<Byte>, i: nat)
    requires i < |data| && data[i] == 0
    ensures Xor(Beyond, key, nonce, pos, data)[i] == if pos + i < MAX_BYTES_PER_NONCE then 0 else 1
  {
    assert Beyond(key, nonce, pos + i) == if pos + i < MAX_BYTES_PER_NONCE then 0 else 1;
    XorZero(Beyond(key, nonce, pos + i));
  }

  lemma XorZero(b: Byte)
    ensures 0 ^ b == b
  {
  }

  /** Once the cipher is past the end of its nonce, the next bytes are not those of the reference. */
  lemma RunPastEnd(key: Key, s: CipherState, lens: seq<nat>)
    requires s.pos >= MAX_BYTES_PER_NONCE && !AllEmpty(lens)
    ensures 1 in Run(Beyond, key, s, Zeros(lens))
    decreases |lens|
  {
    assert Zeros(lens)[1..] == Zeros(lens[1..]);
    if lens[0] > 0 {
      var first := if lens[0] <= Remaining(s.offset) then lens[0] else Remaining(s.offset);
      BeyondByte(key, s.nonce, s.pos, Zeros(lens)[0][..first], 0);
      assert Zeros(lens)[0][..lens[0]] == Zeros(lens)[0];
      assert Output(Beyond, key, s, Zeros(lens)[0])[0] == 1;
    } else {
      var i :| 0 <= i < |lens| && lens[i] != 0;
      assert lens[1..][i - 1] != 0;
      RunPastEnd(key, After(s, 0), lens[1..]);
    }
  }

  lemma RunBeyond(key: Key, s: CipherState, lens: seq<nat>)
    requires s == Seek(s.offset) && !Chunking(s.offset, lens)
    ensures 1 in Run(Beyond, key, s, Zeros(lens))
    decreases |lens|
  {
    assert Zeros(lens)[1..] == Zeros(lens[1..]);
    var rem := Remaining(s.offset);
    if lens[0] > rem + MAX_BYTES_PER_NONCE {
      BeyondByte(key, (s.offset + rem) / MAX_BYTES_PER_NONCE, 0, Zeros(lens)[0][rem..], MAX_BYTES_PER_NONCE);
      assert Output(Beyond, key, s, Zeros(lens)[0])[rem + MAX_BYTES_PER_NONCE] == 1;
    } else {
      CallState(s.offset, lens[0]);
      if AllEmpty(lens[1..]) {
        EmptyChunking(s.offset + lens[0], lens[1..]);
      }
      var next := After(s, lens[0]);
      if next.pos >= MAX_BYTES_PER_NONCE {
        RunPastEnd(key, next, lens[1..]);
      } else {
        RunBeyond(key, next, lens[1..]);
      }
    }
  }

  /** Chunking independence: the output does not depend on how the stream is cut into calls, and is the
      XOR with the keystream at the absolute offset, for exactly those cuts that are a `Chunking`. */
  lemma ChunkingIndependence(offset: nat, lens: seq<nat>)
    ensures Chunking(offset, lens) <==>
            forall block: Block, key: Key, pieces: seq<seq<Byte>> | Lengths(pieces) == lens ::
              Run(block, key, Seek(offset), pieces) == Crypt(block, key, offset, Concat(pieces))
  {
    if Chunking(offset, lens) {
      forall block: Block, key: Key, pieces: seq<seq<Byte>> | Lengths(pieces) == lens
        ensures Run(block, key, Seek(offset), pieces) == Crypt(block, key, offset, Concat(pieces))
      {
        RunExact(block, key, offset, pieces);
      }
    } else {
      NotChunking(offset, lens);
      assert Lengths(Zeros(lens)) == lens;
    }
  }

  lemma NotChunking(offset: nat, lens: seq<nat>)
    requires !Chunking(offset, lens)
    ensures Run(Beyond, [], Seek(offset), Zeros(lens)) != Crypt(Beyond, [], offset, Concat(Zeros(lens)))
  {
    RunBeyond([], Seek(offset), lens);
    ConcatZeros(lens);
    CryptBeyond(offset, Concat(Zeros(lens)));
  }

  /** Within the nonce spans the keystream is 0 everywhere. */
  lemma CryptBeyond(offset: nat, zeros: seq<Byte>)
    requires forall i :: 0 <= i < |zeros| ==> zeros[i] == 0
    ensures 1 !in Crypt(Beyond, [], offset, zeros)
  {
    var plain := Crypt(Beyond, [], offset, zeros);
    forall i | 0 <= i < |plain| ensures plain[i] == 0 {
      var p := offset + i;
      assert KeystreamAt(Beyond, [], p) == Beyond([], p / MAX_BYTES_PER_NONCE, p % MAX_BYTES_PER_NONCE) == 0;
      XorZero(0);
    }
  }

  lemma ConcatZeros(lens: seq<nat>)
    ensures forall i :: 0 <= i < |Concat(Zeros(lens))| ==> Concat(Zeros(lens))[i] == 0
  {
    if lens != [] {
      assert Zeros(lens)[1..] == Zeros(lens[1..]);
      ConcatZeros(lens[1..]);
    }
  }

  /** Streams that end within the first nonce span may be cut anywhere. */
  lemma FirstSpan(offset: nat, lens: seq<nat>, total: nat)
    requires offset + Sum(lens) <= total <= MAX_BYTES_PER_NONCE
    ensures Chunking(offset, lens)
    decreases |lens|
  {
    if lens != [] {
      FirstSpan(offset + lens[0], lens[1..], total);
      if lens[0] > 0 && (offset + lens[0]) % MAX_BYTES_PER_NONCE == 0 {
        SumZero(lens[1..]);
      }
    }
  }

  function Sum(lens: seq<nat>): nat {
    if lens == [] then 0 else lens[0] + Sum(lens[1..])
  }

  lemma SumZero(lens: seq<nat>)
    requires Sum(lens) == 0
    ensures AllEmpty(lens)
  {
    if lens != [] {
      SumZero(lens[1..]);
    }
  }

  // ----- the encrypting reader

  /** Encrypts what it reads from another reader (`CipherReader`). */
  class CipherReader {
    const inner: Striping.Source
    const cipher: Chacha20Cipher

    constructor (inner: Striping.Source, block: Block, key: Key, offset: nat)
      ensures this.inner == inner && fresh(cipher) && cipher.State() == Seek(offset)
      ensures cipher.block == block && cipher.key == key
    {
      this.inner := inner;
      this.cipher := new Chacha20Cipher(block, key, offset);
    }

    method PollRead(max: nat) returns (r: Result<seq<Byte>, ()>)
      requires inner.Valid()
      modifies inner`pos, cipher
      ensures inner.Valid()
      ensures r.Err? ==> inner.pos == old(inner.pos)
      ensures old(inner.pos) <= inner.pos <= old(inner.pos) + max
      ensures cipher.State() == After(old(cipher.State()), inner.pos - old(inner.pos))
      ensures r.Ok? ==>
        r.value == Output(cipher.block, cipher.key, old(cipher.State()), inner.data[old(inner.pos)..inner.pos])
      ensures r.Ok? ==> (r.value == [] <==> max == 0 || old(inner.pos) == |inner.data|)
    {
      var res := inner.Read(max);
      var bytes := if res.Ok? then res.value else [];
      var buf := new Byte[|bytes|](i requires 0 <= i < |bytes| => bytes[i]);
      assert buf[..] == bytes;
      cipher.ApplyKeystream(buf);
      r := if res.Ok? then Ok(buf[..]) else Err(());
    }
  }

  // ----- the shard cipher

  /** `encrypt_shard` on values; the shard index is the first byte of the nonce. */
  function CryptShard(block: Block, key: Key, index: nat, offset: nat, shard: seq<Byte>): (r: seq<Byte>)
    ensures |r| == |shard|
  {
    Xor(block, key, index % 256, offset, shard)
  }

  /** `encrypt_shard` in place. */
  method EncryptShard(block: Block, key: Key, index: nat, offset: nat, shard: array<Byte>)
    modifies shard
    ensures shard[..] == CryptShard(block, key, index, offset, old(shard[..]))
    ensures index < 256 ==>
      forall i :: 0 <= i < shard.Length ==> shard[i] == old(shard[i]) ^ block(key, index, offset + i)
  {
    for i := 0 to shard.Length
      invariant forall j :: i <= j < shard.Length ==> shard[j] == old(shard[j])
      invariant forall j :: 0 <= j < i ==> shard[j] == old(shard[j]) ^ block(key, index % 256, offset + j)
    {
      shard[i] := shard[i] ^ block(key, index % 256, offset + i);
    }
  }

  /** A window of an encrypted shard decrypts at the window's offset. */
  lemma DecryptWindow(block: Block, key: Key, index: nat, shard: seq<Byte>, from: nat, to: nat)
    requires from <= to <= |shard|
    ensures CryptShard(block, key, index, from, CryptShard(block, key, index, 0, shard)[from..to]) == shard[from..to]
  {
    var part := CryptShard(block, key, index, 0, shard)[from..to];
    forall i | 0 <= i < to - from ensures CryptShard(block, key, index, from, part)[i] == shard[from + i] {
      XorCancels(shard[from + i], block(key, index % 256, from + i));
    }
  }

  /** Every shard of a slab has a keystream of its own: two indices encrypt a shard alike under every cipher only
      if they are the same index. */
  lemma ShardKeystreams(key: Key, i: nat, j: nat, offset: nat, shard: seq<Byte>)
    requires i < 256 && j < 256 && shard != []
    ensures i == j <==> forall block: Block ::
      CryptShard(block, key, i, offset, shard) == CryptShard(block, key, j, offset, shard)
  {
    var block: Block := (_, nonce, _) => if nonce == i then 1 else 0;
    if i != j {
      XorOne(shard[0]);
      assert CryptShard(block, key, i, offset, shard)[0] != CryptShard(block, key, j, offset, shard)[0];
    }
  }

  lemma XorOne(b: Byte)
    ensures b ^ 1 != b ^ 0
  {
  }

  /** Only the keystream of the nonce whose first byte is the shard's index touches the shard. */
  lemma OnlyOwnNonce(block: Block, key: Key, index: nat, offset: nat, shard: seq<Byte>)
    requires index < 256 && forall nonce, pos :: nonce != index ==> block(key, nonce, pos) == 0
    ensures forall i: nat :: i < 256 ==>
      CryptShard(block, key, i, offset, shard)
      == if i == index then Xor(block, key, index, offset, shard) else shard
  {
    forall i: nat | i < 256 && i != index ensures CryptShard(block, key, i, offset, shard) == shard {
      forall k | 0 <= k < |shard| ensures CryptShard(block, key, i, offset, shard)[k] == shard[k] {
        XorZero(shard[k]);
      }
    }
  }
}
