/**
 How aml.c reads a span of AML: package lengths and names, as functions of the
 span and a position. A span is the bytes from the start of a table to the end
 of the scope being read, so a function of the span cannot look beyond it.
 */
module AmlBytes {
  type Byte = b: int | 0 <= b < 256

  /** Up to this length, 2^32 - 2^28, no position plus a package length leaves 32 bits. */
  type Span = s: seq<Byte> | |s| <= 0xF000_0000

  function Min(a: int, b: int): int { if a < b then a else b }

  function Max(a: int, b: int): int { if a < b then b else a }

  /** What is left to read from p on. */
  function Rest(s: seq<Byte>, p: nat): nat { if p < |s| then |s| - p else 0 }

  /** Reading at or past the end gives 0. */
  function At(s: seq<Byte>, p: nat): Byte { if p < |s| then s[p] else 0 }

  // ---- package lengths -------------------------------------------------------------------

  /** How many bytes follow the first one of the package length at p. */
  function PkgExtra(s: seq<Byte>, p: nat): nat
    requires p < |s|
  {
    Min(s[p] / 64, |s| - p - 1)
  }

  /** The length read from the first byte and k more. */
  function PartLength(s: seq<Byte>, p: nat, k: nat): int
    requires p < |s|
  {
    var b0: int, b1: int, b2: int, b3: int := s[p], At(s, p + 1), At(s, p + 2), At(s, p + 3);
    b0 % 16 + (if k >= 1 then b1 * 0x10 else 0) + (if k >= 2 then b2 * 0x1000 else 0)
    + (if k >= 3 then b3 * 0x10_0000 else 0)
  }

  function PkgLength(s: seq<Byte>, p: nat): (n: nat)
    requires p < |s|
    ensures n < 0x1000_0000
  {
    if s[p] / 64 == 0 then s[p] % 64 else PartLength(s, p, PkgExtra(s, p))
  }

  /** Where the package length at p ends. */
  function PkgNext(s: seq<Byte>, p: nat): (r: nat)
    ensures p <= r <= Max(p, |s|)
  {
    if p >= |s| then p else if s[p] / 64 == 0 then p + 1 else p + 1 + PkgExtra(s, p)
  }

  /** Where the package itself ends, in the 32-bit arithmetic of the code. */
  function PkgEnd(s: seq<Byte>, p: nat): nat {
    if p >= |s| then p else (p + PkgLength(s, p)) % 0x1_0000_0000
  }

  /** The package end is at or after its length's own position exactly when the sum fits 32 bits. */
  lemma PkgEndForward(s: seq<Byte>, p: nat)
    requires p < |s| < 0x1_0000_0000
    ensures PkgEnd(s, p) >= p <==> p + PkgLength(s, p) < 0x1_0000_0000
    ensures |s| <= 0xF000_0000 ==> PkgEnd(s, p) == p + PkgLength(s, p)
  {
  }

  /** In a longer span it can point back. */
  lemma PkgEndBackward(s: seq<Byte>)
    requires |s| == 0xFFFF_FFFF && forall i :: 0 <= i < |s| ==> s[i] == 0xFF
    ensures PkgEnd(s, 0xFFFF_FFF0) == 0xFFF_FFEF
  {
    assert s[0xFFFF_FFF0] == 0xFF;
    assert PkgLength(s, 0xFFFF_FFF0) == 0xFFF_FFFF;
  }

  /** Where the code goes to leave a package: its end, or the end of the span. */
  function Jump(s: Span, p: nat): (r: nat)
    ensures Min(p, |s|) <= r <= |s|
  {
    if p < |s| then PkgEndForward(s, p); Min(PkgEnd(s, p), |s|) else |s|
  }

  // ---- names ------------------------------------------------------------------------------

  predicate IsLead(b: int) { 0x41 <= b <= 0x5A || b == 0x5F }

  predicate IsPrefix(b: int) { b == 0x5C || b == 0x5E }

  function PrefixEnd(s: Span, p: nat): (r: nat)
    ensures p <= r <= Max(p, |s|)
    ensures r < |s| ==> !IsPrefix(s[r])
    decreases Rest(s, p)
  {
    if p < |s| && IsPrefix(s[p]) then PrefixEnd(s, p + 1) else p
  }

  /** Past up to count segments of four bytes that fit. */
  function SegmentsEnd(s: Span, p: nat, count: nat): (r: nat)
    ensures p <= r <= Max(p, |s|)
    decreases count
  {
    if count == 0 || p + 4 > |s| then p else SegmentsEnd(s, p + 4, count - 1)
  }

  /** Past the name at p. */
  function NameEnd(s: Span, p: nat): (r: nat)
    ensures p <= r <= Max(p, |s|)
  {
    var q := PrefixEnd(s, p);
    if q >= |s| then q
    else if s[q] == 0x00 then q + 1
    else if s[q] == 0x2E then Min(q + 9, |s|)
    else if s[q] == 0x2F then
      if q + 1 < |s| then SegmentsEnd(s, q + 2, s[q + 1]) else q + 1
    else if IsLead(s[q]) then Min(q + 4, |s|)
    else q
  }

  type Segment = g: seq<Byte> | |g| == 4 witness [0, 0, 0, 0]

  /** Four bytes from p on, with underscores for those past the end. */
  function SegmentAt(s: Span, p: nat): Segment {
    seq(4, i requires 0 <= i < 4 => if p + i < |s| then s[p + i] else 0x5F)
  }

  /** The last of count segments from p on, if all of them fit. */
  function LastSegment(s: Span, p: nat, count: nat): Segment
    decreases count
  {
    if count == 0 || p + 4 > |s| then [0, 0, 0, 0]
    else if count == 1 then SegmentAt(s, p)
    else LastSegment(s, p + 4, count - 1)
  }

  /** The last segment of the name at p. */
  function NameSegment(s: Span, p: nat): Segment {
    var q := PrefixEnd(s, p);
    if q >= |s| then [0, 0, 0, 0]
    else if s[q] == 0x2E then SegmentAt(s, Min(q + 5, |s|))
    else if s[q] == 0x2F && q + 1 < |s| then LastSegment(s, q + 2, s[q + 1])
    else if IsLead(s[q]) then SegmentAt(s, q)
    else [0, 0, 0, 0]
  }
}
