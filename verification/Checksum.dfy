/**
 The Internet checksum as the kernel computes it twice: over little-endian
 words (ip_checksum) and over big-endian words with the TCP pseudo-header
 (tcp_checksum).
 */
module Checksum {
  import Division

  type Byte = b: int | 0 <= b < 256

  newtype uint16 = x: int | 0 <= x < 0x1_0000
  newtype uint32 = x: int | 0 <= x < 0x1_0000_0000

  // ---- ones' complement residues ---------------------------------------------------------

  /** The representative in 0..65535 of n mod 65535, 0 only for 0. */
  function Residue(n: nat): (r: nat)
    ensures r <= 65535
  {
    if n == 0 then 0 else (n - 1) % 65535 + 1
  }

  lemma ResidueIs(n: nat, r: nat, q: int)
    requires n == r + 65535 * q && r <= 65535 && (n == 0 <==> r == 0)
    ensures Residue(n) == r
  {
    if n > 0 {
      assert n - 1 == (r - 1) + 65535 * q;
      Remainder(r - 1, q);
    }
  }

  lemma Remainder(r: int, q: int)
    requires 0 <= r < 65535
    ensures (r + 65535 * q) % 65535 == r
  {
    Division.Unique(r + 65535 * q, 65535, q, r);
  }

  lemma ResidueQuotient(n: nat) returns (q: nat)
    ensures n == Residue(n) + 65535 * q && (n == 0 <==> Residue(n) == 0)
  {
    q := if n == 0 then 0 else (n - 1) / 65535;
  }

  /** Folding the high half into the low one keeps the residue. */
  lemma FoldOnce(n: nat)
    ensures Residue(n % 65536 + n / 65536) == Residue(n)
  {
    var m, h := n % 65536 + n / 65536, n / 65536;
    var q := ResidueQuotient(m);
    assert n == m + 65535 * h;
    hide Residue;
    ResidueIs(n, Residue(m), q + h);
  }

  lemma SmallResidue(n: nat)
    requires n <= 65535
    ensures Residue(n) == n
  {
    ResidueIs(n, n, 0);
  }

  // ---- the two sums ------------------------------------------------------------------------

  /** The 16-bit value of a low and a high byte. */
  function Pair(lo: nat, hi: nat): nat { lo + 256 * hi }

  function LeSum(s: seq<Byte>): nat {
    if |s| == 0 then 0 else if |s| == 1 then Pair(s[0], 0) else Pair(s[0], s[1]) + LeSum(s[2..])
  }

  function BeSum(s: seq<Byte>): nat {
    if |s| == 0 then 0 else if |s| == 1 then Pair(0, s[0]) else Pair(s[1], s[0]) + BeSum(s[2..])
  }

  /** What the checksum has to be for the bytes s, as the 16-bit complement of the folded sum. */
  function LeChecksum(s: seq<Byte>): nat { 65535 - Residue(LeSum(s)) }

  function BeChecksum(s: seq<Byte>): nat { 65535 - Residue(BeSum(s)) }

  /** A 16-bit value in memory order on a little-endian machine. */
  function Stored(v: nat): seq<Byte>
    requires v <= 65535
  {
    [v % 256, v / 256]
  }

  /** htons on a little-endian machine. */
  function Swap(v: nat): nat
    requires v <= 65535
  {
    v % 256 * 256 + v / 256
  }

  // ---- byte order does not matter --------------------------------------------------------------

  /** Rotating every word by a byte is multiplying the sum by 256. */
  lemma {:induction false} SumsAgree(s: seq<Byte>) returns (q: nat)
    ensures 256 * LeSum(s) == BeSum(s) + 65535 * q
    ensures LeSum(s) == 0 <==> BeSum(s) == 0
  {
    if |s| < 2 {
      q := 0;
    } else {
      var rest := SumsAgree(s[2..]);
      q := rest + s[1];
    }
  }

  lemma SwapIsTimes256(v: nat)
    requires v <= 65535
    ensures 256 * v == Swap(v) + 65535 * (v / 256)
    ensures Swap(v) <= 65535 && (Swap(v) == 0 <==> v == 0)
  {
  }

  lemma SwapComplement(v: nat)
    requires v <= 65535
    ensures Swap(65535 - v) == 65535 - Swap(v)
  {
    var lo, hi := v % 256, v / 256;
    assert 65535 - v == (255 - lo) + 256 * (255 - hi);
    assert (65535 - v) % 256 == 255 - lo && (65535 - v) / 256 == 255 - hi;
  }

  lemma ResiduesSwap(s: seq<Byte>)
    ensures Swap(Residue(LeSum(s))) == Residue(BeSum(s))
  {
    var l, b := LeSum(s), BeSum(s);
    var r := Residue(l);
    var q := ResidueQuotient(l);
    var t := SumsAgree(s);
    SwapIsTimes256(r);
    var h := r / 256;
    assert b + 65535 * t == Swap(r) + 65535 * h + 65535 * (256 * q);
    hide Swap, Residue, LeSum, BeSum;
    ResidueIs(b, Swap(r), h + 256 * q - t);
  }

  /** Both forms leave the same two bytes in the packet, for every byte string, odd lengths included. */
  lemma SameStoredBytes(s: seq<Byte>)
    ensures Swap(BeChecksum(s)) <= 65535
    ensures Stored(LeChecksum(s)) == Stored(Swap(BeChecksum(s)))
  {
    hide LeSum, BeSum, Swap;
    ResiduesSwap(s);
    SwapComplement(Residue(LeSum(s)));
    SwapTwice(LeChecksum(s));
  }

  lemma SwapTwice(v: nat)
    requires v <= 65535
    ensures Swap(v) <= 65535 && Swap(Swap(v)) == v
  {
    var lo, hi := v % 256, v / 256;
    assert Swap(v) == hi + 256 * lo;
    assert Swap(v) % 256 == hi && Swap(v) / 256 == lo;
  }

  // ---- the receiver's test -------------------------------------------------------------------------

  /** What a receiver tests: the whole message, checksum included, folds to all ones. */
  predicate Verifies(s: seq<Byte>) { Residue(LeSum(s)) == 65535 }

  /** The bytes with the 16-bit value v stored at offset k. */
  function PutWord(s: seq<Byte>, k: nat, v: nat): seq<Byte>
    requires k + 1 < |s| && v <= 65535
  {
    s[k := v % 256][k + 1 := v / 256]
  }

  function Word(s: seq<Byte>, k: nat): nat
    requires k + 1 < |s|
  {
    Pair(s[k], s[k + 1])
  }

  lemma {:induction false} PutWordSum(s: seq<Byte>, k: nat, v: nat)
    requires k % 2 == 0 && k + 1 < |s| && v <= 65535
    ensures LeSum(PutWord(s, k, v)) == LeSum(s) - Word(s, k) + v
  {
    var t := PutWord(s, k, v);
    if k == 0 {
      assert t[2..] == s[2..];
    } else {
      PutWordSum(s[2..], k - 2, v);
      assert t[2..] == PutWord(s[2..], k - 2, v);
    }
  }

  /**
   A value in the zeroed aligned field makes the message verify exactly when it
   is the checksum, or is 0xFFFF where the checksum is 0.
   */
  lemma VerifiesIff(s: seq<Byte>, k: nat, v: nat)
    requires k % 2 == 0 && k + 1 < |s| && Word(s, k) == 0 && v <= 65535
    ensures Verifies(PutWord(s, k, v)) <==> v == LeChecksum(s) || (LeChecksum(s) == 0 && v == 65535)
  {
    hide LeSum, Residue, PutWord, Word;
    PutWordSum(s, k, v);
    AllOnesIff(LeSum(s), v);
  }

  lemma AllOnesIff(n: nat, v: nat)
    requires v <= 65535
    ensures Residue(n + v) == 65535 <==> v == 65535 - Residue(n) || (Residue(n) == 65535 && v == 65535)
  {
    var r := Residue(n);
    var q := ResidueQuotient(n);
    hide Residue;
    var m := r + v;
    assert n + v == m + 65535 * q;
    if m == 0 { ResidueIs(n + v, 0, 0); }
    else if m <= 65535 { ResidueIs(n + v, m, q); }
    else { ResidueIs(n + v, m - 65535, q + 1); }
  }

  /** In a message that verifies, a change to one aligned word goes unseen only between 0 and 0xFFFF. */
  lemma OneWordChange(s: seq<Byte>, k: nat, v: nat)
    requires k % 2 == 0 && k + 1 < |s| && v <= 65535 && Verifies(s)
    ensures Verifies(PutWord(s, k, v)) <==>
      v == Word(s, k) || (v == 65535 && Word(s, k) == 0) || (v == 0 && Word(s, k) == 65535 && LeSum(s) > 65535)
  {
    hide *;
    var rest := RestOf(s, k, v);
    VerifiesSum(s);
    VerifiesSum(PutWord(s, k, v));
    ReplaceWord(rest, Word(s, k), v);
  }

  lemma VerifiesSum(s: seq<Byte>)
    ensures Verifies(s) <==> Residue(LeSum(s)) == 65535
  {
  }

  lemma RestOf(s: seq<Byte>, k: nat, v: nat) returns (rest: nat)
    requires k % 2 == 0 && k + 1 < |s| && v <= 65535
    ensures LeSum(s) == rest + Word(s, k) && LeSum(PutWord(s, k, v)) == rest + v
    ensures Word(s, k) <= 65535
  {
    PutWordSum(s, k, 0);
    PutWordSum(s, k, v);
    rest := LeSum(PutWord(s, k, 0));
  }

  lemma ReplaceWord(rest: nat, w: nat, v: nat)
    requires v <= 65535 && w <= 65535 && Residue(rest + w) == 65535
    ensures Residue(rest + v) == 65535 <==>
      v == w || (v == 65535 && w == 0) || (v == 0 && w == 65535 && rest != 0)
  {
    AllOnesIff(rest, w);
    AllOnesIff(rest, v);
    var q := ResidueQuotient(rest);
    hide Residue;
  }

  // ---- the two loops -----------------------------------------------------------------------------------

  /** The folding loop, as both checksums end. */
  method Fold(total: uint32) returns (sum: uint32)
    ensures sum as int == Residue(total as int)
  {
    sum := total;
    while sum / 65536 != 0
      decreases sum
      invariant Residue(sum as int) == Residue(total as int)
    {
      FoldOnce(sum as int);
      sum := sum % 65536 + sum / 65536;
    }
    SmallResidue(sum as int);
  }

  lemma {:induction false} LeSumSnoc(s: seq<Byte>, i: nat)
    requires i % 2 == 0 && i < |s|
    ensures i + 1 < |s| ==> LeSum(s[..i + 2]) == LeSum(s[..i]) + Pair(s[i], s[i + 1])
    ensures i + 1 == |s| ==> LeSum(s) == LeSum(s[..i]) + Pair(s[i], 0)
  {
    if i == 0 {
      assert i + 1 == |s| ==> s[..1] == s;
    } else {
      LeSumSnoc(s[2..], i - 2);
      assert s[..i][2..] == s[2..][..i - 2];
      assert i + 1 < |s| ==> s[..i + 2][2..] == s[2..][..i];
    }
  }

  lemma {:induction false} BeSumSnoc(s: seq<Byte>, i: nat)
    requires i % 2 == 0 && i < |s|
    ensures i + 1 < |s| ==> BeSum(s[..i + 2]) == BeSum(s[..i]) + Pair(s[i + 1], s[i])
    ensures i + 1 == |s| ==> BeSum(s) == BeSum(s[..i]) + Pair(0, s[i])
  {
    if i == 0 {
      assert i + 1 == |s| ==> s[..1] == s;
    } else {
      BeSumSnoc(s[2..], i - 2);
      assert s[..i][2..] == s[2..][..i - 2];
      assert i + 1 < |s| ==> s[..i + 2][2..] == s[2..][..i];
    }
  }

  /** The bytes as one number, most significant first. */
  function Number(s: seq<Byte>): nat { if s == [] then 0 else 256 * Number(s[..|s| - 1]) + s[|s| - 1] }

  /** With a zero byte behind an odd message, the sum is that number mod 65535. */
  lemma {:induction false} SumIsNumber(s: seq<Byte>) returns (q: nat)
    ensures Number(if |s| % 2 == 0 then s else s + [0]) == BeSum(s) + 65535 * q
    decreases |s|
  {
    hide Number, BeSum;
    if s == [] {
      q := 0;
      NoBytes();
    } else {
      var i := if |s| % 2 == 0 then |s| - 2 else |s| - 1;
      var rest := SumIsNumber(s[..i]);
      q := rest + Number(s[..i]);
      BeSumSnoc(s, i);
      if |s| % 2 == 0 {
        assert s[..i + 2] == s;
        TwoDigits(s, s[..i], s[i], s[i + 1]);
      } else {
        TwoDigits(s + [0], s[..i], s[i], 0);
      }
    }
  }

  lemma NoBytes()
    ensures Number([]) == BeSum([]) == 0
  {}

  lemma TwoDigits(t: seq<Byte>, s: seq<Byte>, hi: Byte, lo: Byte)
    requires t == s + [hi, lo]
    ensures Number(t) == 65536 * Number(s) + 256 * hi + lo
  {
    assert t[..|t| - 1] == s + [hi];
    assert (s + [hi])[..|s|] == s;
  }

  /** ip_checksum; the data has a 16-bit length, for which the 32-bit sum cannot overflow. */
  method IpChecksum(data: seq<Byte>) returns (r: uint16)
    requires |data| < 0x1_0000
    ensures r as int == LeChecksum(data)
  {
    var sum: uint32, ptr, len := 0, 0, |data|;
    assert data[..0] == [];
    while len > 1
      invariant 0 <= ptr && 0 <= len && ptr % 2 == 0 && ptr + len == |data|
      invariant sum as int == LeSum(data[..ptr]) && sum as int <= 0x8000 * ptr
    {
      LeSumSnoc(data, ptr);
      sum := sum + (data[ptr] as uint32 + 256 * data[ptr + 1] as uint32);
      ptr := ptr + 2;
      len := len - 2;
    }
    if len != 0 {
      LeSumSnoc(data, ptr);
      sum := sum + data[ptr] as uint32;
    } else {
      assert data[..ptr] == data;
    }
    sum := Fold(sum);
    r := (65535 - sum) as uint16;
  }

  /** Source, destination, zero, protocol and segment length, as RFC 793 puts them before the segment. */
  function PseudoHeader(src: seq<Byte>, dst: seq<Byte>, length: nat): seq<Byte>
    requires |src| == 4 && |dst| == 4 && length < 0x1_0000
  {
    src + dst + [0, 6, length / 256, length % 256]
  }

  lemma {:induction false} BeSumConcat(s: seq<Byte>, t: seq<Byte>)
    requires |s| % 2 == 0
    ensures BeSum(s + t) == BeSum(s) + BeSum(t)
  {
    if s == [] {
      assert s + t == t;
    } else {
      BeSumConcat(s[2..], t);
      assert (s + t)[2..] == s[2..] + t;
    }
  }

  lemma PseudoSum(src: seq<Byte>, dst: seq<Byte>, length: nat)
    requires |src| == 4 && |dst| == 4 && length < 0x1_0000
    ensures |PseudoHeader(src, dst, length)| == 12
    ensures BeSum(PseudoHeader(src, dst, length)) ==
      Pair(src[1], src[0]) + Pair(src[3], src[2]) + Pair(dst[1], dst[0]) + Pair(dst[3], dst[2]) + 6 + length
  {
    var tail: seq<Byte> := [0, 6, length / 256, length % 256];
    BeSumConcat(src + dst, tail);
    BeSumConcat(src, dst);
    FourBytes(src);
    FourBytes(dst);
    FourBytes(tail);
  }

  lemma FourBytes(s: seq<Byte>)
    requires |s| == 4
    ensures BeSum(s) == Pair(s[1], s[0]) + Pair(s[3], s[2])
  {
    assert BeSum(s[2..]) == Pair(s[3], s[2]) + BeSum(s[2..][2..]);
  }

  /** tcp_checksum: what it leaves in the header is the Internet checksum of pseudo-header and segment. */
  method TcpChecksum(src: seq<Byte>, dst: seq<Byte>, segment: seq<Byte>) returns (r: uint16)
    requires |src| == 4 && |dst| == 4 && |segment| < 0x1_0000
    ensures Stored(r as int) == Stored(LeChecksum(PseudoHeader(src, dst, |segment|) + segment))
  {
    hide PseudoHeader, BeSum, LeSum, Residue, Swap, Stored, LeChecksum;
    var sum: uint32 := 0;
    sum := sum + (256 * src[0] as uint32 + src[1] as uint32);
    sum := sum + (256 * src[2] as uint32 + src[3] as uint32);
    sum := sum + (256 * dst[0] as uint32 + dst[1] as uint32);
    sum := sum + (256 * dst[2] as uint32 + dst[3] as uint32);
    sum := sum + 6;
    sum := sum + |segment| as uint32;
    PseudoSum(src, dst, |segment|);
    ghost var pseudo := PseudoHeader(src, dst, |segment|);
    sum := AddSegment(sum, segment);
    BeSumConcat(pseudo, segment);
    sum := Fold(sum);
    r := HostToNetwork((65535 - sum) as uint16);
    SameStoredBytes(pseudo + segment);
  }

  method AddSegment(start: uint32, segment: seq<Byte>) returns (sum: uint32)
    requires start < 0x8_0000 && |segment| < 0x1_0000
    ensures sum as int == start as int + BeSum(segment)
  {
    sum := start;
    var i: uint16 := 0;
    assert segment[..0] == [];
    while i as int + 1 < |segment|
      invariant i as int <= |segment| && i % 2 == 0
      invariant sum as int == start as int + BeSum(segment[..i]) && sum as int <= 0x8_0000 + 0x8000 * i as int
      decreases |segment| - i as int
    {
      BeSumSnoc(segment, i as int);
      sum := sum + (256 * segment[i] as uint32 + segment[i + 1] as uint32);
      i := i + 2;
    }
    if |segment| % 2 == 1 {
      BeSumSnoc(segment, |segment| - 1);
      sum := sum + 256 * segment[|segment| - 1] as uint32;
    } else {
      assert segment[..i] == segment;
    }
  }

  method HostToNetwork(v: uint16) returns (r: uint16)
    ensures r as int == Swap(v as int)
  {
    r := v % 256 * 256 + v / 256;
  }

  /** The header field at bytes 16 and 17, zero while summing, makes the segment verify once filled in. */
  lemma SentSegmentVerifies(src: seq<Byte>, dst: seq<Byte>, segment: seq<Byte>)
    requires |src| == 4 && |dst| == 4 && 18 <= |segment| < 0x1_0000 && Word(segment, 16) == 0
    ensures var pseudo := PseudoHeader(src, dst, |segment|);
      Verifies(pseudo + PutWord(segment, 16, LeChecksum(pseudo + segment)))
  {
    var pseudo := PseudoHeader(src, dst, |segment|);
    var v := LeChecksum(pseudo + segment);
    assert PutWord(pseudo + segment, 28, v) == pseudo + PutWord(segment, 16, v);
    VerifiesIff(pseudo + segment, 28, v);
  }
}
