/** When the scanner and the evaluator of aml.c agree on where a term without subterms ends, on any bytes. */
module AmlExtent {
  import opened Options
  import opened AmlBytes
  import opened AmlSkip
  import opened AmlEval
  import opened AmlMeaning

  /**
   How many terms follow an opcode in the grammar of section 20.2.5 of the ACPI
   specification, targets included; None where there are none, or other things
   between them.
   */
  function GrammarTerms(op: Byte): Option<nat> {
    if op in {0x71, 0x75, 0x76, 0x83, 0x87, 0x8E, 0x92, 0xA4} then Some(1)
    else if op in {0x70, 0x80, 0x81, 0x82, 0x86, 0x90, 0x91, 0x93, 0x94, 0x95, 0x96, 0x97, 0x98, 0x99, 0x9D} then Some(2)
    else if op in {0x72, 0x73, 0x74, 0x77, 0x79, 0x7A, 0x7B, 0x7C, 0x7D, 0x7E, 0x7F, 0x84, 0x85, 0x88, 0x9C} then Some(3)
    else if op in {0x78, 0x9E} then Some(4)
    else None
  }

  /**
   The scanner steps over as many terms as the grammar has exactly for these
   opcodes.  It takes a target too many behind a comparison, LAnd and LOr, one
   too few behind Not and ToInteger, and does not know the rest.
   */
  lemma OperandsIff(op: Byte)
    ensures GrammarTerms(op).None? ==> Operands(op) == 0
    ensures GrammarTerms(op).Some? ==>
      (Operands(op) == GrammarTerms(op).value <==>
       op == 0x70 || 0x72 <= op <= 0x7F || op == 0x83 || op == 0x87 || op == 0x88 || op == 0x92 || op == 0xA4)
    ensures op in {0x90, 0x91, 0x93, 0x94, 0x95} ==> Operands(op) == 3
    ensures op in {0x80, 0x99} ==> Operands(op) == 1
    ensures op in {0x71, 0x81, 0x82, 0x84, 0x85, 0x86, 0x8E, 0x96, 0x97, 0x98, 0x9C, 0x9D, 0x9E} ==> Operands(op) == 0
  {}

  /** The scanner's switch has no case for this opcode. */
  predicate IsUnknown(op: Byte) {
    && !IsPlain(op) && Width(op) == 0 && op != 0x0D && !IsBlock(op) && op != 0x08 && Operands(op) == 0
    && op != 0x5B && !IsPrefix(op) && !IsLead(op)
  }

  /** The scanner takes one byte for the term at p, which is before the end. */
  predicate OneByte(s: Span, p: nat)
    requires p < |s|
  {
    var op := s[p];
    if IsPlain(op) || IsUnknown(op) then true
    else if Width(op) > 0 || IsLead(op) then false
    else if p + 1 == |s| then true
    else if IsBlock(op) then PkgLength(s, p + 1) == 0
    else IsPrefix(op) && !IsPrefix(s[p + 1]) && s[p + 1] !in {0x00, 0x2E, 0x2F} && !IsLead(s[p + 1])
  }

  /** A target at q, if there is one, is as long to the scanner as to the evaluator. */
  predicate TargetAgrees(s: Span, q: nat) {
    if q >= |s| || 0x60 <= s[q] <= 0x6D || IsPrefix(s[q]) then true
    else if s[q] == 0x2E || s[q] == 0x2F then q + 1 == |s|
    else if IsLead(s[q]) then q + 4 <= |s|
    else OneByte(s, q)
  }

  /** By the opening byte of a term: do both end it in the same place? */
  predicate SameEnd(s: Span, p: nat)
    requires p < |s|
  {
    var op := s[p];
    if op == 0x0A then p + 1 < |s|
    else if op in {0x00, 0x01, 0xFF, 0x0B, 0x0C, 0x0E, 0xA1, 0xA2} || 0x60 <= op <= 0x6D || IsPrefix(op) then true
    else if op == 0x75 || op == 0x76 then TargetAgrees(s, p + 1)
    else if op == 0x2E || op == 0x2F then p + 1 == |s|
    else if IsLead(op) then p + 4 <= |s|
    else OneByte(s, p)
  }

  lemma SkipOneByteIff(s: Span, p: nat)
    requires p < |s|
    ensures SkipTerm(s, p) == p + 1 <==> OneByte(s, p)
  {
    var op := s[p];
    if IsBlock(op) {
      BlockOneByte(s, p);
    } else if IsPrefix(op) {
      PrefixOneByte(s, p);
    } else if Operands(op) > 0 {
      OperandsAhead(s, p + 1, Operands(op));
    } else if op == 0x0D || op == 0x08 || op == 0x5B {
      OthersAhead(s, p);
    }
  }

  lemma BlockOneByte(s: Span, p: nat)
    requires p < |s| && IsBlock(s[p])
    ensures Jump(s, p + 1) == p + 1 <==> p + 1 == |s| || PkgLength(s, p + 1) == 0
  {
    if p + 1 < |s| { PkgEndForward(s, p + 1); }
  }

  lemma PrefixOneByte(s: Span, p: nat)
    requires p < |s| && IsPrefix(s[p])
    ensures NameEnd(s, p) == p + 1 <==>
      p + 1 == |s| || (!IsPrefix(s[p + 1]) && s[p + 1] !in {0x00, 0x2E, 0x2F} && !IsLead(s[p + 1]))
  {
    assert PrefixEnd(s, p) == PrefixEnd(s, p + 1);
    if p + 1 < |s| && IsPrefix(s[p + 1]) { assert PrefixEnd(s, p + 1) >= p + 2; }
  }

  lemma OperandsAhead(s: Span, q: nat, count: nat)
    requires count > 0
    ensures q < |s| ==> SkipTerms(s, q, count) > q
    ensures q >= |s| ==> SkipTerms(s, q, count) == q
    decreases count
  {
    hide SkipTerm;
    if q >= |s| {
      NothingToSkip(s, q);
      if count > 1 { OperandsAhead(s, q, count - 1); }
    }
    assert SkipTerms(s, q, count) == SkipTerms(s, SkipTerm(s, q), count - 1);
  }

  lemma NothingToSkip(s: Span, q: nat)
    requires q >= |s|
    ensures SkipTerm(s, q) == q
  {}

  lemma OthersAhead(s: Span, p: nat)
    requires p < |s| && s[p] in {0x0D, 0x08, 0x5B}
    ensures SkipTerm(s, p) == p + 1 <==> p + 1 == |s|
  {
    if s[p] == 0x08 && p + 1 < |s| { assert NameEnd(s, p + 1) < |s| ==> SkipTerm(s, NameEnd(s, p + 1)) > p + 1; }
  }

  lemma TargetAgreesIff(s: Span, q: nat)
    ensures SkipTerm(s, q) == TargetEnd(s, q) <==> TargetAgrees(s, q)
  {
    if q < |s| {
      SkipOneByteIff(s, q);
      if s[q] == 0x2E || s[q] == 0x2F || IsLead(s[q]) { assert PrefixEnd(s, q) == q; }
    }
  }

  /**
   Over every byte string: on a term without subterms, scanner and evaluator
   end at the same place if and only if SameEnd says so.
   */
  lemma SameEndIff(s: Span, m: Machine)
    requires Ready(m) && !m.done && m.pos < |s| && IsSimple(s[m.pos])
    ensures SkipTerm(s, m.pos) == EvalTerm(s, m).next.pos <==> SameEnd(s, m.pos)
  {
    hide EvalTerm, EvalSimple, SkipTerm, SameEnd, TargetEnd, TargetAgrees, IsSimple;
    TermIsSimple(s, m);
    var op := s[m.pos];
    if op == 0x75 || op == 0x76 {
      TargetAgreesIff(s, m.pos + 1);
      BumpEnd(s, m);
      OneOperandSkip(s, m.pos);
    } else {
      SimpleEnd(s, m);
    }
  }

  lemma OneOperandSkip(s: Span, p: nat)
    requires p < |s| && (s[p] == 0x75 || s[p] == 0x76)
    ensures SkipTerm(s, p) == SkipTerm(s, p + 1) && SameEnd(s, p) == TargetAgrees(s, p + 1)
  {
    SkipTermsUnroll(s, p + 1);
  }

  lemma BumpEnd(s: Span, m: Machine)
    requires Ready(m) && m.pos < |s| && (s[m.pos] == 0x75 || s[m.pos] == 0x76)
    ensures EvalSimple(s, m).next.pos == TargetEnd(s, m.pos + 1)
  {}

  lemma SimpleEnd(s: Span, m: Machine)
    requires Ready(m) && m.pos < |s| && IsSimple(s[m.pos]) && s[m.pos] != 0x75 && s[m.pos] != 0x76
    ensures SkipTerm(s, m.pos) == EvalSimple(s, m).next.pos <==> SameEnd(s, m.pos)
  {
    SkipOneByteIff(s, m.pos);
    var op := s[m.pos];
    if op == 0x2E || op == 0x2F { assert PrefixEnd(s, m.pos) == m.pos; }
  }
}
