/** sc_skip_term: stepping over one term without evaluating it. */
module AmlSkip {
  import opened AmlBytes

  // ---- opcode classes ---------------------------------------------------------------------

  predicate IsPlain(op: Byte) { op in {0x00, 0x01, 0xFF, 0xA3, 0xA5} || 0x60 <= op <= 0x6D }

  /** Bytes of an integer literal after its opcode, 0 for other opcodes. */
  function Width(op: Byte): nat {
    match op
    case 0x0A => 1
    case 0x0B => 2
    case 0x0C => 4
    case 0x0E => 8
    case _ => 0
  }

  predicate IsBlock(op: Byte) { 0x10 <= op <= 0x14 || 0xA0 <= op <= 0xA2 }

  /** How many terms are taken to follow the opcode. */
  function Operands(op: Byte): nat {
    if op in {0x75, 0x76, 0x80, 0x83, 0x87, 0x92, 0x99, 0xA4} then 1
    else if op == 0x70 then 2
    else if op in {0x72, 0x73, 0x74, 0x77, 0x79, 0x7A, 0x7B, 0x7C, 0x7D, 0x7E, 0x7F, 0x88, 0x90, 0x91, 0x93, 0x94, 0x95} then 3
    else if op == 0x78 then 4
    else 0
  }

  // ---- one term ------------------------------------------------------------------------------

  function StringEnd(s: Span, p: nat): (r: nat)
    ensures p <= r <= Max(p, |s|)
    decreases Rest(s, p)
  {
    if p >= |s| then p else if s[p] == 0 then p + 1 else StringEnd(s, p + 1)
  }

  /** Past the term at p: strictly ahead, and at most 8 bytes past the end. */
  function SkipTerm(s: Span, p: nat): (r: nat)
    ensures p <= r <= Max(p, |s| + 8)
    ensures p < |s| ==> p < r
    decreases Rest(s, p), 0, 0
  {
    if p >= |s| then p
    else
      var op := s[p];
      if IsPlain(op) then p + 1
      else if Width(op) > 0 then p + 1 + Width(op)
      else if op == 0x0D then StringEnd(s, p + 1)
      else if IsBlock(op) then Jump(s, p + 1)
      else if op == 0x08 then SkipTerm(s, NameEnd(s, p + 1))
      else if Operands(op) > 0 then SkipTerms(s, p + 1, Operands(op))
      else if op == 0x5B then SkipExtended(s, p + 1)
      else if IsPrefix(op) then NameEnd(s, p)
      else if IsLead(op) then p + 4
      else p + 1
  }

  function SkipTerms(s: Span, p: nat, count: nat): (r: nat)
    ensures p <= r <= Max(p, |s| + 8)
    decreases Rest(s, p), 1, count
  {
    if count == 0 then p else SkipTerms(s, SkipTerm(s, p), count - 1)
  }

  /** After the prefix 0x5B. */
  function SkipExtended(s: Span, p: nat): (r: nat)
    ensures p <= r <= Max(p, |s| + 8)
    decreases Rest(s, p), 2, 0
  {
    if p >= |s| then p
    else if s[p] == 0x01 then NameEnd(s, p + 1) + 1
    else if s[p] == 0x02 then NameEnd(s, p + 1)
    else if s[p] == 0x80 then SkipTerms(s, NameEnd(s, p + 1) + 1, 2)
    else if 0x81 <= s[p] <= 0x87 then Jump(s, p + 1)
    else p + 1
  }
}
