/**
 * The hex form of a merkle hash (gateway/merklehash.go): each group of eight octets is printed as one
 * little-endian word.  `decode_hex32` (shard_parse.rs) reads the same digits in plain order.
 */
module MerkleHex {
  import opened Prelude
  import opened SignedUrl

  type Octet = b: nat | b < 256

  // ----- words

  /** `binary.LittleEndian.Uint64`, for any number of octets. */
  function FromLE(bs: seq<Octet>): nat {
    if bs == [] then 0 else bs[0] + 256 * FromLE(bs[1..])
  }

  /** `binary.BigEndian.Uint64` */
  function FromBE(bs: seq<Octet>): nat {
    if bs == [] then 0 else FromBE(bs[..|bs| - 1]) * 256 + bs[|bs| - 1]
  }

  /** `binary.LittleEndian.PutUint64` */
  function ToLE(v: nat, n: nat): (bs: seq<Octet>)
    ensures |bs| == n
  {
    if n == 0 then [] else [v % 256] + ToLE(v / 256, n - 1)
  }

  /** `binary.BigEndian.PutUint64` */
  function ToBE(v: nat, n: nat): (bs: seq<Octet>)
    ensures |bs| == n
  {
    if n == 0 then [] else ToBE(v / 256, n - 1) + [v % 256]
  }

  function Reverse(bs: seq<Octet>): (r: seq<Octet>)
    ensures |r| == |bs|
  {
    seq(|bs|, i requires 0 <= i < |bs| => bs[|bs| - 1 - i])
  }

  lemma {:induction false} LittleToBig(bs: seq<Octet>)
    ensures ToBE(FromLE(bs), |bs|) == Reverse(bs)
  {
    if bs != [] {
      LittleToBig(bs[1..]);
      DivModOf(FromLE(bs[1..]), bs[0], 256);
      assert Reverse(bs) == Reverse(bs[1..]) + [bs[0]];
    }
  }

  lemma {:induction false} BigToLittle(bs: seq<Octet>)
    ensures ToLE(FromBE(bs), |bs|) == Reverse(bs)
  {
    if bs != [] {
      var front, last := bs[..|bs| - 1], bs[|bs| - 1];
      BigToLittle(front);
      DivModOf(FromBE(front), last, 256);
      assert Reverse(bs) == [last] + Reverse(front);
    }
  }

  // ----- digits

  function HexDigit(v: nat): (c: char)
    requires v < 16
    ensures LowerHex(c)
  {
    if v < 10 then '0' + v as char else 'a' + (v - 10) as char
  }

  predicate IsHex(c: char) {
    LowerHex(c) || UpperHex(c)
  }

  /** The value of a hex digit; zero for any other character. */
  function HexValue(c: char): (v: nat)
    ensures v < 16
  {
    if '0' <= c <= '9' then c as nat - '0' as nat
    else if 'a' <= c <= 'f' then c as nat - 'a' as nat + 10
    else if UpperHex(c) then c as nat - 'A' as nat + 10
    else 0
  }

  function LowerChar(c: char): char {
    if UpperHex(c) then (c as int - 'A' as int + 'a' as int) as char else c
  }

  lemma DigitsInvert(c: char, v: nat)
    ensures v < 16 ==> IsHex(HexDigit(v)) && HexValue(HexDigit(v)) == v
    ensures IsHex(c) ==> HexDigit(HexValue(c)) == LowerChar(c)
  {
  }

  function HexPair(b: Octet): string {
    [HexDigit(b / 16), HexDigit(b % 16)]
  }

  /** `hex.Encode` */
  function HexEncode(bs: seq<Octet>): (s: string)
    ensures |s| == 2 * |bs|
  {
    if bs == [] then "" else HexEncode(bs[..|bs| - 1]) + HexPair(bs[|bs| - 1])
  }

  predicate AllHex(s: string) {
    forall i :: 0 <= i < |s| ==> IsHex(s[i])
  }

  function PairValue(hi: char, lo: char): Octet {
    16 * HexValue(hi) + HexValue(lo)
  }

  /** What `hex.Decode` yields for hex digits. */
  function HexBytes(s: string): (bs: seq<Octet>)
    requires |s| % 2 == 0
    ensures |bs| == |s| / 2
  {
    if s == "" then [] else HexBytes(s[..|s| - 2]) + [PairValue(s[|s| - 2], s[|s| - 1])]
  }

  function Lower(s: string): string {
    seq(|s|, i requires 0 <= i < |s| => LowerChar(s[i]))
  }

  lemma PairInverts(b: Octet)
    ensures var p := HexPair(b); IsHex(p[0]) && IsHex(p[1]) && PairValue(p[0], p[1]) == b
  {
    DigitsInvert('0', b / 16);
    DigitsInvert('0', b % 16);
  }

  lemma PairPrints(hi: char, lo: char)
    requires IsHex(hi) && IsHex(lo)
    ensures HexPair(PairValue(hi, lo)) == [LowerChar(hi), LowerChar(lo)]
  {
    DivModOf(HexValue(hi), HexValue(lo), 16);
    DigitsInvert(hi, 0);
    DigitsInvert(lo, 0);
  }

  lemma {:induction false} BytesOfHex(bs: seq<Octet>)
    ensures AllHex(HexEncode(bs)) && HexBytes(HexEncode(bs)) == bs
  {
    if bs != [] {
      var front, last := bs[..|bs| - 1], bs[|bs| - 1];
      BytesOfHex(front);
      PairInverts(last);
      var s := HexEncode(bs);
      assert s[..|s| - 2] == HexEncode(front);
    }
  }

  lemma {:induction false} HexOfBytes(s: string)
    requires AllHex(s) && |s| % 2 == 0
    ensures HexEncode(HexBytes(s)) == Lower(s)
  {
    if s != "" {
      var front, hi, lo := s[..|s| - 2], s[|s| - 2], s[|s| - 1];
      HexOfBytes(front);
      PairPrints(hi, lo);
      EncodeLast(HexBytes(front), PairValue(hi, lo));
      LowerLast(s);
    }
  }

  lemma EncodeLast(front: seq<Octet>, b: Octet)
    ensures HexEncode(front + [b]) == HexEncode(front) + HexPair(b)
  {
    assert (front + [b])[..|front|] == front;
  }

  lemma LowerLast(s: string)
    requires |s| >= 2
    ensures Lower(s) == Lower(s[..|s| - 2]) + [LowerChar(s[|s| - 2]), LowerChar(s[|s| - 1])]
  {
  }

  lemma {:induction false} EncodeConcat(a: seq<Octet>, b: seq<Octet>)
    ensures HexEncode(a + b) == HexEncode(a) + HexEncode(b)
  {
    if b == [] {
      assert a + b == a;
    } else {
      EncodeConcat(a, b[..|b| - 1]);
      assert (a + b)[..|a + b| - 1] == a + b[..|b| - 1];
    }
  }

  lemma {:induction false} BytesConcat(s: string, t: string)
    requires |s| % 2 == 0 && |t| % 2 == 0
    ensures HexBytes(s + t) == HexBytes(s) + HexBytes(t)
  {
    if t == "" {
      assert s + t == s;
    } else {
      BytesConcat(s, t[..|t| - 2]);
      assert (s + t)[..|s + t| - 2] == s + t[..|t| - 2];
    }
  }

  // ----- hashes

  /** Every group of eight octets reversed. */
  function Swap(d: seq<Octet>): (r: seq<Octet>)
    requires |d| == 32
    ensures |r| == 32
  {
    Reverse(d[..8]) + Reverse(d[8..16]) + Reverse(d[16..24]) + Reverse(d[24..])
  }

  function HexOf(d: seq<Octet>): (h: string)
    requires |d| == 32
    ensures |h| == 64
  {
    HexEncode(Swap(d))
  }

  function Parsed(h: string): (r: Option<seq<Octet>>)
    ensures r.Some? ==> |r.value| == 32
  {
    if |h| == 64 && AllHex(h) then Some(Swap(HexBytes(h))) else None
  }

  lemma SwapTwice(d: seq<Octet>)
    requires |d| == 32
    ensures Swap(Swap(d)) == d
  {
    var s := Swap(d);
    assert s[..8] == Reverse(d[..8]) && s[8..16] == Reverse(d[8..16]);
    assert s[16..24] == Reverse(d[16..24]) && s[24..] == Reverse(d[24..]);
    assert d == d[..8] + d[8..16] + d[16..24] + d[24..];
    ReverseTwice(d[..8]);
    ReverseTwice(d[8..16]);
    ReverseTwice(d[16..24]);
    ReverseTwice(d[24..]);
  }

  lemma ReverseTwice(bs: seq<Octet>)
    ensures Reverse(Reverse(bs)) == bs
  {
  }

  /** Parsing the printed form gives the digest back; the printed form is what the URL verifiers accept. */
  lemma PrintThenParse(d: seq<Octet>)
    requires |d| == 32
    ensures Parsed(HexOf(d)) == Some(d) && HashOk(HexOf(d))
  {
    BytesOfHex(Swap(d));
    SwapTwice(d);
    EncodedLower(Swap(d));
  }

  lemma {:induction false} EncodedLower(bs: seq<Octet>)
    ensures forall i :: 0 <= i < |HexEncode(bs)| ==> LowerHex(HexEncode(bs)[i])
  {
    if bs != [] {
      EncodedLower(bs[..|bs| - 1]);
    }
  }

  /** Printing what was parsed gives the lowercase form of the input. */
  lemma ParseThenPrint(h: string)
    requires |h| == 64 && AllHex(h)
    ensures Parsed(h).Some? && HexOf(Parsed(h).value) == Lower(h)
  {
    SwapTwice(HexBytes(h));
    HexOfBytes(h);
  }

  lemma HexDigits(v: nat)
    requires v < 16
    ensures HexDigit(v) == "0123456789abcdef"[v]
  {
  }

  lemma {:induction false} EncodedAt(bs: seq<Octet>, i: nat)
    requires i < |bs|
    ensures HexEncode(bs)[2 * i] == "0123456789abcdef"[bs[i] / 16]
    ensures HexEncode(bs)[2 * i + 1] == "0123456789abcdef"[bs[i] % 16]
  {
    if i < |bs| - 1 {
      EncodedAt(bs[..|bs| - 1], i);
    } else {
      HexDigits(bs[i] / 16);
      HexDigits(bs[i] % 16);
    }
  }

  /** Where each octet of a digest is printed: two digits, in the place of its mirror image within its group. */
  lemma PrintedAt(d: seq<Octet>, g: nat, j: nat)
    requires |d| == 32 && g < 4 && j < 8
    ensures HexOf(d)[16 * g + 2 * j] == "0123456789abcdef"[d[8 * g + 7 - j] / 16]
    ensures HexOf(d)[16 * g + 2 * j + 1] == "0123456789abcdef"[d[8 * g + 7 - j] % 16]
  {
    EncodedAt(Swap(d), 8 * g + j);
    SwapAt(d, g, j);
  }

  lemma SwapAt(d: seq<Octet>, g: nat, j: nat)
    requires |d| == 32 && g < 4 && j < 8
    ensures Swap(d)[8 * g + j] == d[8 * g + 7 - j]
  {
  }

  // ----- group by group

  /** The sixteen characters printed for a group of eight octets. */
  function PrintedWord(group: seq<Octet>): string
    requires |group| == 8
  {
    HexEncode(ToBE(FromLE(group), 8))
  }

  function PrintedGroups(d: seq<Octet>, g: nat): (s: string)
    requires |d| == 32 && g <= 4
    ensures |s| == 16 * g
  {
    if g == 0 then "" else PrintedGroups(d, g - 1) + PrintedWord(d[8 * (g - 1)..8 * g])
  }

  lemma PrintedGroupsAre(d: seq<Octet>)
    requires |d| == 32
    ensures PrintedGroups(d, 4) == HexOf(d)
  {
    var a, b, c, e := d[..8], d[8..16], d[16..24], d[24..];
    assert d[0..8] == a && d[24..32] == e;
    LittleToBig(a);
    LittleToBig(b);
    LittleToBig(c);
    LittleToBig(e);
    EncodeConcat(Reverse(a), Reverse(b));
    EncodeConcat(Reverse(a) + Reverse(b), Reverse(c));
    EncodeConcat(Reverse(a) + Reverse(b) + Reverse(c), Reverse(e));
    assert PrintedGroups(d, 1) == PrintedWord(a);
    assert PrintedGroups(d, 2) == PrintedWord(a) + PrintedWord(b);
  }

  /** The eight octets stored for a group of sixteen digits. */
  function StoredWord(digits: string): (bs: seq<Octet>)
    requires |digits| == 16
    ensures |bs| == 8
  {
    ToLE(FromBE(HexBytes(digits)), 8)
  }

  function StoredGroups(h: string, g: nat): (bs: seq<Octet>)
    requires |h| == 64 && g <= 4
    ensures |bs| == 8 * g
  {
    if g == 0 then [] else StoredGroups(h, g - 1) + StoredWord(h[16 * (g - 1)..16 * g])
  }

  lemma StoredGroupsAre(h: string)
    requires |h| == 64
    ensures StoredGroups(h, 4) == Swap(HexBytes(h))
  {
    var a, b, c, e := h[..16], h[16..32], h[32..48], h[48..];
    assert h[0..16] == a && h[48..64] == e && h == a + b + c + e;
    BytesConcat(a, b);
    BytesConcat(a + b, c);
    BytesConcat(a + b + c, e);
    BigToLittle(HexBytes(a));
    BigToLittle(HexBytes(b));
    BigToLittle(HexBytes(c));
    BigToLittle(HexBytes(e));
    assert StoredGroups(h, 1) == StoredWord(a);
    assert StoredGroups(h, 2) == StoredWord(a) + StoredWord(b);
    Quarters(HexBytes(a), HexBytes(b), HexBytes(c), HexBytes(e));
  }

  lemma Quarters(a: seq<Octet>, b: seq<Octet>, c: seq<Octet>, e: seq<Octet>)
    requires |a| == |b| == |c| == |e| == 8
    ensures Swap(a + b + c + e) == Reverse(a) + Reverse(b) + Reverse(c) + Reverse(e)
  {
    var d := a + b + c + e;
    assert d[..8] == a && d[8..16] == b && d[16..24] == c && d[24..] == e;
  }

  method Store<T>(a: array<T>, at: nat, s: seq<T>)
    requires at + |s| <= a.Length
    modifies a
    ensures a[..at + |s|] == old(a[..at]) + s
  {
    forall k | 0 <= k < |s| {
      a[at + k] := s[k];
    }
  }

  /** `digestToHex`: four words, each printed into its sixteen characters. */
  method DigestToHex(d: seq<Octet>) returns (h: string)
    requires |d| == 32
    ensures h == HexOf(d)
  {
    var out := new char[64];
    for group := 0 to 4
      invariant out[..16 * group] == PrintedGroups(d, group)
    {
      var word := FromLE(d[8 * group..8 * group + 8]);
      var printed := HexEncode(ToBE(word, 8));
      assert printed == PrintedWord(d[8 * group..8 * (group + 1)]);
      Store(out, 16 * group, printed);
    }
    PrintedGroupsAre(d);
    h := out[..64];
  }

  /** `ParseMerkleHashHex`: four groups of digits, each stored as a little-endian word. */
  method ParseMerkleHashHex(h: string) returns (r: Option<seq<Octet>>)
    ensures r == Parsed(h)
  {
    if |h| != 64 {
      return None;
    }
    var out := new Octet[32];
    for group := 0 to 4
      invariant AllHex(h[..16 * group])
      invariant out[..8 * group] == StoredGroups(h, group)
    {
      var digits := h[16 * group..16 * group + 16];
      NextDigits(h, group);
      if !AllHex(digits) {
        return None;
      }
      var word := FromBE(HexBytes(digits));
      Store(out, 8 * group, ToLE(word, 8));
    }
    assert h[..64] == h;
    StoredGroupsAre(h);
    r := Some(out[..32]);
  }

  lemma NextDigits(h: string, g: nat)
    requires |h| == 64 && g < 4 && AllHex(h[..16 * g])
    ensures AllHex(h[16 * g..16 * g + 16]) <==> AllHex(h[..16 * (g + 1)])
    ensures AllHex(h) ==> AllHex(h[16 * g..16 * g + 16])
  {
    assert h[..16 * (g + 1)] == h[..16 * g] + h[16 * g..16 * g + 16];
  }

  /** `decode_hex32` */
  method DecodeHex32(s: string) returns (r: Option<seq<Octet>>)
    ensures r == if |s| == 64 && AllHex(s) then Some(HexBytes(s)) else None
  {
    if |s| != 64 {
      return None;
    }
    var out := new Octet[32];
    for i := 0 to 32
      invariant AllHex(s[..2 * i]) && out[..i] == HexBytes(s[..2 * i])
    {
      if !IsHex(s[2 * i]) || !IsHex(s[2 * i + 1]) {
        return None;
      }
      assert s[..2 * (i + 1)] == s[..2 * i] + [s[2 * i], s[2 * i + 1]];
      assert s[..2 * (i + 1)][..2 * i] == s[..2 * i];
      out[i] := PairValue(s[2 * i], s[2 * i + 1]);
    }
    assert s[..64] == s;
    r := Some(out[..32]);
  }

  /** Read in plain order, the printed form of a hash is its digest with every group reversed. */
  lemma PlainOrder(d: seq<Octet>)
    requires |d| == 32
    ensures AllHex(HexOf(d)) && HexBytes(HexOf(d)) == Swap(d)
  {
    BytesOfHex(Swap(d));
  }
}
