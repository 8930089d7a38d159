/** The second pass of aml.c: evaluating the terms of a method body. */
module AmlEval {
  import opened AmlBytes
  import opened AmlSkip

  /** An integer is a 64-bit word; anything that is not one counts as 0 where one is needed. */
  datatype Value = Invalid | Integer(n: bv64) | Package(elems: seq<bv64>)

  function Number(v: Value): bv64 { if v.Integer? then v.n else 0 }

  datatype Machine = Machine(pos: nat, locals: seq<bv64>, done: bool)

  datatype Evaluated = Evaluated(value: Value, next: Machine)

  predicate Ready(m: Machine) { |m.locals| == 8 }

  /** A term moves the machine on, by at least a byte unless it had nothing to do. */
  predicate Moves(s: Span, m: Machine, next: Machine) {
    && Ready(next)
    && m.pos <= next.pos <= Max(m.pos, |s| + 8)
    && (m.pos < |s| && !m.done ==> m.pos < next.pos)
    && (m.done ==> next.done)
  }

  // ---- operations ---------------------------------------------------------------------------

  predicate IsArith(op: int) { op in {0x72, 0x74, 0x77, 0x79, 0x7A, 0x7B, 0x7C, 0x7D, 0x7E, 0x7F} }

  /** 64-bit arithmetic; a shift count is taken mod 64, as x86-64 does. */
  function Arith(op: int, a: bv64, b: bv64): bv64 {
    match op
    case 0x72 => Sum(a, b)
    case 0x74 => a - b
    case 0x77 => Product(a, b)
    case 0x79 => a << (b & 63)
    case 0x7A => a >> (b & 63)
    case 0x7B => a & b
    case 0x7D => a | b
    case 0x7F => a ^ b
    case _ => 0
  }

  function Product(a: bv64, b: bv64): bv64 { a * b }

  function Quotient(a: bv64, b: bv64): bv64 { if b == 0 then 0 else a / b }

  /** The value of w bytes at p, low byte first, or 0 when they are not all there. */
  function Literal(s: Span, p: nat, w: nat): bv64 {
    if p + w <= |s| then LittleEndian(s[p..p + w]) else 0
  }

  function LittleEndian(b: seq<Byte>): bv64 {
    if b == [] then 0 else (LittleEndian(b[1..]) << 8) | Word(b[0])
  }

  function Word(b: Byte): bv64 { b as bv64 }

  // ---- targets ----------------------------------------------------------------------------------

  predicate StartsName(b: int) { IsPrefix(b) || b == 0x2E || b == 0x2F || IsLead(b) }

  /** ev_skip_supername. */
  function TargetEnd(s: Span, p: nat): (r: nat)
    ensures p <= r <= Max(p, |s|) && (p < |s| ==> p < r)
  {
    if p >= |s| then p
    else if 0x60 <= s[p] <= 0x6D then p + 1
    else if StartsName(s[p]) then NameEnd(s, p)
    else p + 1
  }

  predicate IsLocal(s: Span, p: nat) { 0x60 <= At(s, p) <= 0x67 }

  /** Put v into the target at the machine's position if that is a local; in any case move past it. */
  function StoreTo(s: Span, m: Machine, v: bv64): (r: Machine)
    requires Ready(m)
    ensures Ready(r) && m.pos <= r.pos <= Max(m.pos, |s|) && r.done == m.done
  {
    if IsLocal(s, m.pos) then
      m.(pos := m.pos + 1, locals := m.locals[s[m.pos] - 0x60 := v])
    else m.(pos := TargetEnd(s, m.pos))
  }

  /** Add delta to the local at the machine's position, if there is one. */
  function Bump(s: Span, m: Machine, delta: bv64): Machine
    requires Ready(m)
  {
    StoreTo(s, m, if IsLocal(s, m.pos) then Sum(m.locals[s[m.pos] - 0x60], delta) else 0)
  }

  function Sum(a: bv64, b: bv64): bv64 { a + b }

  function PastTarget(s: Span, m: Machine): Machine { m.(pos := TargetEnd(s, m.pos)) }

  // ---- terms -----------------------------------------------------------------------------------------

  function EvalTerm(s: Span, m: Machine): (r: Evaluated)
    requires Ready(m)
    ensures Moves(s, m, r.next)
    decreases Rest(s, m.pos), 0, 0
  {
    if m.pos >= |s| || m.done then Evaluated(Invalid, m)
    else
      var op := s[m.pos];
      var m1 := m.(pos := m.pos + 1);
      if op == 0x12 then EvalPackage(s, m1)
      else if op == 0xA4 then
        var r := EvalTerm(s, m1);
        r.(next := r.next.(done := true))
      else if op == 0x70 then
        var r := EvalTerm(s, m1);
        r.(next := StoreTo(s, r.next, Number(r.value)))
      else if IsArith(op) || op == 0x78 then
        var a := EvalTerm(s, m1);
        var b := EvalTerm(s, a.next);
        var m2 := PastTarget(s, b.next);
        Evaluated(Integer(Combine(op, a.value, b.value)), if op == 0x78 then PastTarget(s, m2) else m2)
      else if op == 0xA0 then EvalIf(s, m1)
      else EvalSimple(s, m)
  }

  /** An operation needs two values; with both it uses their numbers. */
  function Combine(op: int, a: Value, b: Value): bv64 {
    if a == Invalid || b == Invalid then 0
    else if op == 0x78 then Quotient(Number(a), Number(b))
    else Arith(op, Number(a), Number(b))
  }

  /** The terms that have no terms inside. */
  function EvalSimple(s: Span, m: Machine): (r: Evaluated)
    requires Ready(m) && m.pos < |s|
    ensures Ready(r.next) && m.pos < r.next.pos <= |s| + 8 && r.next.done == m.done
  {
    var op := s[m.pos];
    var m1 := m.(pos := m.pos + 1);
    if op == 0x00 then Evaluated(Integer(0), m1)
    else if op == 0x01 then Evaluated(Integer(1), m1)
    else if op == 0xFF then Evaluated(Integer(0xFFFF_FFFF_FFFF_FFFF), m1)
    else if op == 0x0A then
      Evaluated(Integer(Word(At(s, m1.pos))), if m1.pos < |s| then m1.(pos := m1.pos + 1) else m1)
    else if Width(op) > 1 then
      Evaluated(Integer(Literal(s, m1.pos, Width(op))), m1.(pos := m1.pos + Width(op)))
    else if 0x60 <= op <= 0x67 then Evaluated(Integer(m.locals[op - 0x60]), m1)
    else if 0x68 <= op <= 0x6D then Evaluated(Integer(0), m1)
    else if op == 0x75 then Evaluated(Invalid, Bump(s, m1, 1))
    else if op == 0x76 then Evaluated(Invalid, Bump(s, m1, -1))
    else if op == 0xA1 || op == 0xA2 then Evaluated(Invalid, m1.(pos := Jump(s, m1.pos)))
    else if IsPrefix(op) || op == 0x2E || op == 0x2F then Evaluated(Integer(0), m.(pos := NameEnd(s, m.pos)))
    else if IsLead(op) then Evaluated(Integer(0), m.(pos := Min(m.pos + 4, |s|)))
    else Evaluated(Invalid, m1)
  }

  /** A condition is evaluated, and neither branch is taken. */
  function EvalIf(s: Span, m: Machine): (r: Evaluated)
    requires Ready(m) && m.pos <= |s|
    ensures Ready(r.next) && m.pos <= r.next.pos <= |s| && (m.done ==> r.next.done)
    decreases Rest(s, m.pos), 2, 0
  {
    var end := Jump(s, m.pos);
    var m1 := EvalTerm(s, m.(pos := PkgNext(s, m.pos))).next.(pos := end);
    var m2 := if end < |s| && s[end] == 0xA1 then m1.(pos := Jump(s, end + 1)) else m1;
    Evaluated(Invalid, m2)
  }

  function EvalPackage(s: Span, m: Machine): (r: Evaluated)
    requires Ready(m) && m.pos <= |s|
    ensures Ready(r.next) && m.pos <= r.next.pos <= |s| && (m.done ==> r.next.done)
    decreases Rest(s, m.pos), 2, 0
  {
    var end := Jump(s, m.pos);
    var p := PkgNext(s, m.pos);
    var m1 := m.(pos := if p < |s| then p + 1 else p);
    var (elems, m2) := EvalElements(s, m1, end, At(s, p), []);
    Evaluated(Package(elems), m2.(pos := end))
  }

  /** At most count elements, up to the package's end, 16 in all. */
  function EvalElements(s: Span, m: Machine, end: nat, count: nat, acc: seq<bv64>): (r: (seq<bv64>, Machine))
    requires Ready(m) && |acc| <= 16
    ensures |r.0| <= 16 && acc <= r.0
    ensures Ready(r.1) && m.pos <= r.1.pos && (m.done ==> r.1.done)
    decreases Rest(s, m.pos), 1, count
  {
    if count == 0 || m.pos >= end || |acc| == 16 then (acc, m)
    else
      var r := EvalTerm(s, m);
      EvalElements(s, r.next, end, count - 1, acc + [Number(r.value)])
  }

  // ---- methods ------------------------------------------------------------------------------------------

  /** Terms until a Return or the end of the body; only a Return gives a value. */
  function RunFrom(s: Span, m: Machine): Value
    requires Ready(m)
    decreases Rest(s, m.pos)
  {
    if m.pos >= |s| || m.done then Invalid
    else
      var r := EvalTerm(s, m);
      if r.next.done then r.value else RunFrom(s, r.next)
  }

  const START := Machine(0, [0, 0, 0, 0, 0, 0, 0, 0], false)

  function RunMethod(s: Span): Value { RunFrom(s, START) }
}
