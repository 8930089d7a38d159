/** The evaluator of aml.c as it runs. */
module AmlEvaluator {
  import opened AmlBytes
  import opened AmlSkip
  import opened AmlEval

  /** eval_ctx. */
  class Evaluator {
    const span: Span
    var pos: nat
    const locals: array<bv64>
    var done: bool

    ghost predicate Valid() { locals.Length == 8 }

    ghost function View(): (m: Machine)
      requires Valid()
      ensures Ready(m)
      reads this, locals
    {
      Machine(pos, locals[..], done)
    }

    constructor (span: Span)
      ensures Valid() && fresh(locals) && this.span == span && View() == START
    {
      this.span, pos, done := span, 0, false;
      locals := new bv64[8](i => 0);
      new;
      assert locals[..] == [0, 0, 0, 0, 0, 0, 0, 0];
    }

    method Peek() returns (b: Byte)
      ensures b == At(span, pos)
    {
      b := if pos < |span| then span[pos] else 0;
    }

    method Read() returns (b: Byte)
      modifies `pos
      ensures b == At(span, old(pos)) && pos == old(pos) + if old(pos) < |span| then 1 else 0
    {
      if pos < |span| {
        b := span[pos];
        pos := pos + 1;
      } else {
        b := 0;
      }
    }

    /** ev_pkglen, cut at the end of the span as every caller does. */
    method BlockEnd() returns (end: nat)
      modifies `pos
      ensures pos == PkgNext(span, old(pos))
      ensures old(pos) <= |span| ==> end == Jump(span, old(pos))
    {
      end := PkgLen();
      end := if end > |span| then |span| else end;
    }

    method PkgLen() returns (end: nat)
      modifies `pos
      ensures end == PkgEnd(span, old(pos)) && pos == PkgNext(span, old(pos))
    {
      if pos >= |span| {
        return pos;
      }
      var start := pos;
      var b0 := Read();
      var n := b0 / 64;
      if n == 0 {
        return (start + b0 % 64) % 0x1_0000_0000;
      }
      var len, i, unit := b0 % 16, 0, 0x10;
      while i < n && pos < |span|
        invariant i <= PkgExtra(span, start) && pos == start + 1 + i
        invariant unit == if i == 0 then 0x10 else if i == 1 then 0x1000 else if i == 2 then 0x10_0000 else 0x1000_0000
        invariant len == PartLength(span, start, i)
      {
        var b := Read();
        len := len + b * unit;
        unit := unit * 0x100;
        i := i + 1;
      }
      end := (start + len) % 0x1_0000_0000;
    }

    /** ev_namestring; the segment only selects a field, and no field is ever recorded. */
    method NameString()
      modifies `pos
      ensures pos == NameEnd(span, old(pos))
    {
      while pos < |span| && IsPrefix(span[pos])
        invariant PrefixEnd(span, pos) == PrefixEnd(span, old(pos))
        decreases Rest(span, pos)
      {
        pos := pos + 1;
      }
      if pos >= |span| {
        return;
      }
      var b := span[pos];
      if b == 0x00 {
        pos := pos + 1;
      } else if b == 0x2E {
        pos := pos + 1;
        ReadUpTo(4);
        ReadUpTo(4);
      } else if b == 0x2F {
        pos := pos + 1;
        var count := Read();
        var i := 0;
        ghost var first := pos;
        while i < count && pos + 4 <= |span|
          invariant i <= count && SegmentsEnd(span, pos, count - i) == SegmentsEnd(span, first, count)
        {
          ReadUpTo(4);
          i := i + 1;
        }
      } else if IsLead(b) {
        ReadUpTo(4);
      }
    }

    method ReadUpTo(count: nat)
      modifies `pos
      ensures pos == Max(old(pos), Min(old(pos) + count, |span|))
    {
      for i := 0 to count
        invariant pos == Max(old(pos), Min(old(pos) + i, |span|))
      {
        var b := Read();
      }
    }

    /** ev_skip_supername. */
    method SkipTarget()
      modifies `pos
      ensures pos == TargetEnd(span, old(pos))
    {
      if pos >= |span| {
        return;
      }
      var b := span[pos];
      if 0x60 <= b <= 0x6D {
        pos := pos + 1;
      } else if StartsName(b) {
        NameString();
      } else {
        pos := pos + 1;
      }
    }

    /** The destination of a Store. */
    method Store(v: bv64)
      requires Valid()
      modifies `pos, locals
      ensures View() == StoreTo(span, old(View()), v)
    {
      var dest := Peek();
      if 0x60 <= dest <= 0x67 {
        pos := pos + 1;
        locals[dest - 0x60] := v;
      } else {
        SkipTarget();
      }
    }

    /** Increment and Decrement. */
    method Adjust(delta: bv64)
      requires Valid()
      modifies `pos, locals
      ensures View() == Bump(span, old(View()), delta)
    {
      hide Sum, StoreTo;
      var dest := Peek();
      var v := if 0x60 <= dest <= 0x67 then Sum(locals[dest - 0x60], delta) else 0;
      Store(v);
    }

    /** An integer of w bytes. */
    method ReadLiteral(w: nat) returns (v: bv64)
      modifies `pos
      ensures v == Literal(span, old(pos), w) && pos == old(pos) + w
    {
      v := 0;
      if pos + w <= |span| {
        v := LittleEndian(span[pos..pos + w]);
      }
      pos := pos + w;
    }

    /** ev_eval_term. */
    method EvalTerm() returns (v: Value)
      requires Valid()
      modifies this, locals
      ensures Evaluated(v, View()) == AmlEval.EvalTerm(span, old(View()))
      decreases Rest(span, pos), 0, 0
    {
      hide Combine, AmlEval.EvalSimple, AmlEval.EvalIf, AmlEval.EvalPackage, StoreTo, TargetEnd;
      if pos >= |span| || done {
        return Invalid;
      }
      var op := span[pos];
      if op == 0x12 {
        pos := pos + 1;
        v := EvalPackage();
      } else if op == 0xA4 {
        pos := pos + 1;
        v := EvalTerm();
        done := true;
      } else if op == 0x70 {
        pos := pos + 1;
        v := EvalTerm();
        Store(Number(v));
      } else if IsArith(op) || op == 0x78 {
        pos := pos + 1;
        var a := EvalTerm();
        var b := EvalTerm();
        SkipTarget();
        if op == 0x78 {
          SkipTarget();
        }
        v := Integer(Combine(op, a, b));
      } else if op == 0xA0 {
        pos := pos + 1;
        EvalIf();
        v := Invalid;
      } else {
        v := EvalSimple();
      }
    }

    method EvalSimple() returns (v: Value)
      requires Valid() && pos < |span|
      modifies `pos, locals
      ensures Evaluated(v, View()) == AmlEval.EvalSimple(span, old(View()))
    {
      hide Bump, NameEnd, PkgNext, Jump, Literal, Word;
      var op := Read();
      v := Invalid;
      if op == 0x00 {
        v := Integer(0);
      } else if op == 0x01 {
        v := Integer(1);
      } else if op == 0xFF {
        v := Integer(0xFFFF_FFFF_FFFF_FFFF);
      } else if op == 0x0A {
        var b := Read();
        v := Integer(Word(b));
      } else if Width(op) > 1 {
        var n := ReadLiteral(Width(op));
        v := Integer(n);
      } else if 0x60 <= op <= 0x67 {
        v := Integer(locals[op - 0x60]);
      } else if 0x68 <= op <= 0x6D {
        v := Integer(0);
      } else if op == 0x75 {
        Adjust(1);
      } else if op == 0x76 {
        Adjust(-1);
      } else if op == 0xA1 || op == 0xA2 {
        var end := BlockEnd();
        pos := end;
      } else if IsPrefix(op) || op == 0x2E || op == 0x2F {
        pos := pos - 1;
        NameString();
        v := Integer(0);
      } else if IsLead(op) {
        ReadUpTo(3);
        v := Integer(0);
      }
    }

    method EvalIf()
      requires Valid() && pos <= |span|
      modifies this, locals
      ensures Evaluated(Invalid, View()) == AmlEval.EvalIf(span, old(View()))
      decreases Rest(span, pos), 2, 0
    {
      hide AmlEval.EvalTerm, Jump, PkgNext;
      var end := BlockEnd();
      var cond := EvalTerm();
      pos := end;
      if pos < |span| && span[pos] == 0xA1 {
        pos := pos + 1;
        end := BlockEnd();
        pos := end;
      }
    }

    /** ev_eval_package, after its opcode. */
    method EvalPackage() returns (v: Value)
      requires Valid() && pos <= |span|
      modifies this, locals
      ensures Evaluated(v, View()) == AmlEval.EvalPackage(span, old(View()))
      decreases Rest(span, pos), 2, 0
    {
      hide AmlEval.EvalTerm, Jump, PkgNext;
      var end := BlockEnd();
      var num := Read();
      var elems: seq<bv64>, i := [], 0;
      ghost var m1 := View();
      while i < num && pos < end && |elems| < 16
        invariant |elems| <= 16 && i <= num && m1.pos <= pos
        invariant EvalElements(span, View(), end, num - i, elems) == EvalElements(span, m1, end, num, [])
      {
        var elem := EvalTerm();
        elems := elems + [Number(elem)];
        i := i + 1;
      }
      pos := end;
      v := Package(elems);
    }
  }

  /** ev_run_method. */
  method RunMethod(aml: Span) returns (result: Value)
    ensures result == AmlEval.RunMethod(aml)
  {
    var e := new Evaluator(aml);
    result := Invalid;
    while e.pos < |e.span| && !e.done
      invariant e.Valid() && e.span == aml && fresh(e) && fresh(e.locals)
      invariant result == Invalid && RunFrom(aml, e.View()) == AmlEval.RunMethod(aml)
      decreases Rest(e.span, e.pos)
    {
      var v := e.EvalTerm();
      if e.done {
        result := v;
        break;
      }
    }
  }
}
