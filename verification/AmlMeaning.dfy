/** What the bytes of a method mean, and that scanner and evaluator get it from the bytes. */
module AmlMeaning {
  import opened AmlBytes
  import opened AmlSkip
  import opened AmlEval
  import opened AmlSyntax

  // ---- interpreting the syntax ----------------------------------------------------------------

  datatype Result = Result(value: bv64, locals: seq<bv64>)

  function Put(locals: seq<bv64>, t: Target, v: bv64): (r: seq<bv64>)
    requires |locals| == 8 && WfTarget(t)
    ensures |r| == 8
  {
    if t.ToLocal? then locals[t.i := v] else locals
  }

  function Interpret(e: Expr, l: seq<bv64>): (r: Result)
    requires Wf(e) && |l| == 8
    ensures |r.locals| == 8
  {
    match e
    case Fixed(op) => Result(if op == 0x00 then 0 else if op == 0x01 then 1 else 0xFFFF_FFFF_FFFF_FFFF, l)
    case Digits(bytes) => Result(LittleEndian(bytes), l)
    case LocalVar(i) => Result(l[i], l)
    case ArgVar(_) => Result(0, l)
    case Named(_) => Result(0, l)
    case Store(src, dst) =>
      var r := Interpret(src, l);
      Result(r.value, Put(r.locals, dst, r.value))
    case Compute(op, a, b, _) =>
      var x := Interpret(a, l);
      var y := Interpret(b, x.locals);
      Result(Arith(op, x.value, y.value), y.locals)
    case Divide(a, b, _, _) =>
      var x := Interpret(a, l);
      var y := Interpret(b, x.locals);
      Result(Quotient(x.value, y.value), y.locals)
  }

  function InterpretList(es: seq<Expr>, l: seq<bv64>): (r: (seq<bv64>, seq<bv64>))
    requires AllWf(es) && |l| == 8
    ensures |r.0| == |es| && |r.1| == 8
  {
    if es == [] then ([], l)
    else
      var x := Interpret(es[0], l);
      var (values, after) := InterpretList(es[1..], x.locals);
      ([x.value] + values, after)
  }

  /** The elements there is room for. */
  function Kept(es: seq<Expr>, room: nat): (r: seq<Expr>)
    ensures AllWf(es) ==> AllWf(r)
  {
    if |es| <= room then es else es[..room]
  }

  datatype Effect = Continue(locals: seq<bv64>) | Returned(value: Value)

  function Perform(t: Stmt, l: seq<bv64>): (r: Effect)
    requires WfStmt(t) && |l| == 8
    ensures r.Continue? ==> |r.locals| == 8
  {
    match t
    case Do(e) => Continue(Interpret(e, l).locals)
    case Increment(i) => Continue(l[i := Sum(l[i], 1)])
    case Decrement(i) => Continue(l[i := Sum(l[i], -1)])
    case Return(e) => Returned(Integer(Interpret(e, l).value))
    case ReturnPackage(elems) => Returned(Package(InterpretList(Kept(elems, 16), l).0))
    case If(cond, _) => Continue(Interpret(cond, l).locals)
    case IfElse(cond, _, _) => Continue(Interpret(cond, l).locals)
    case While(_) => Continue(l)
  }

  predicate WfBody(body: seq<Stmt>) { forall i :: 0 <= i < |body| ==> WfStmt(body[i]) }

  /** The value of the first Return reached, if any. */
  function Meaning(body: seq<Stmt>, l: seq<bv64>): Value
    requires WfBody(body) && |l| == 8
  {
    if body == [] then Invalid
    else
      match Perform(body[0], l)
      case Continue(l1) => Meaning(body[1..], l1)
      case Returned(v) => v
  }

  function BodyBytes(body: seq<Stmt>): seq<Byte>
    requires WfBody(body)
  {
    if body == [] then [] else StmtBytes(body[0]) + BodyBytes(body[1..])
  }

  // ---- targets -----------------------------------------------------------------------------------

  lemma TargetExact(s: Span, p: nat, t: Target)
    requires WfTarget(t) && Has(s, p, TargetBytes(t))
    ensures SkipTerm(s, p) == TargetEnd(s, p) == p + |TargetBytes(t)|
  {
    HasAt(s, p, TargetBytes(t), 0);
  }

  lemma StoreExact(s: Span, m: Machine, t: Target, v: bv64)
    requires Ready(m) && WfTarget(t) && Has(s, m.pos, TargetBytes(t))
    ensures StoreTo(s, m, v) == m.(pos := m.pos + |TargetBytes(t)|, locals := Put(m.locals, t, v))
  {
    HasAt(s, m.pos, TargetBytes(t), 0);
    TargetExact(s, m.pos, t);
  }

  // ---- skipping an expression --------------------------------------------------------------------

  lemma SkipTermsUnroll(s: Span, p: nat)
    ensures SkipTerms(s, p, 1) == SkipTerm(s, p)
    ensures SkipTerms(s, p, 2) == SkipTerm(s, SkipTerm(s, p))
    ensures SkipTerms(s, p, 3) == SkipTerm(s, SkipTerm(s, SkipTerm(s, p)))
    ensures SkipTerms(s, p, 4) == SkipTerm(s, SkipTerm(s, SkipTerm(s, SkipTerm(s, p))))
  {
    hide SkipTerm;
    var q := SkipTerm(s, p);
    var r := SkipTerm(s, q);
    var t := SkipTerm(s, r);
    assert SkipTerms(s, SkipTerm(s, t), 0) == SkipTerm(s, t);
    assert SkipTerms(s, t, 1) == SkipTerm(s, t);
    assert SkipTerms(s, r, 2) == SkipTerm(s, t);
    assert SkipTerms(s, r, 1) == t;
    assert SkipTerms(s, q, 1) == r;
    assert SkipTerms(s, q, 2) == t;
    assert SkipTerms(s, q, 3) == SkipTerm(s, t);
    assert SkipTerms(s, p, 1) == q;
  }

  /** Where the parts of an encoding start. */
  lemma StoreParts(s: Span, p: nat, src: Expr, dst: Target)
    requires Wf(Store(src, dst)) && Has(s, p, Bytes(Store(src, dst)))
    ensures Wf(src) && WfTarget(dst)
    ensures p < |s| && s[p] == 0x70 && Has(s, p + 1, Bytes(src)) && Has(s, p + 1 + |Bytes(src)|, TargetBytes(dst))
    ensures |Bytes(Store(src, dst))| == 1 + |Bytes(src)| + |TargetBytes(dst)|
  {
    hide Has, TargetBytes;
    HasThree(s, p, [0x70], Bytes(src), TargetBytes(dst));
    HasAt(s, p, [0x70], 0);
  }

  lemma ComputeParts(s: Span, p: nat, op: Byte, a: Expr, b: Expr, dst: Target)
    requires Wf(Compute(op, a, b, dst)) && Has(s, p, Bytes(Compute(op, a, b, dst)))
    ensures Wf(a) && Wf(b) && WfTarget(dst) && IsArith(op) && op != 0x78
    ensures p < |s| && s[p] == op && Has(s, p + 1, Bytes(a)) && Has(s, p + 1 + |Bytes(a)|, Bytes(b))
    ensures Has(s, p + 1 + |Bytes(a)| + |Bytes(b)|, TargetBytes(dst))
    ensures |Bytes(Compute(op, a, b, dst))| == 1 + |Bytes(a)| + |Bytes(b)| + |TargetBytes(dst)|
  {
    hide Has, TargetBytes;
    assert op != 0x78;
    HasFour(s, p, [op], Bytes(a), Bytes(b), TargetBytes(dst));
    HasAt(s, p, [op], 0);
  }

  lemma DivideParts(s: Span, p: nat, a: Expr, b: Expr, rem: Target, quot: Target)
    requires Wf(Divide(a, b, rem, quot)) && Has(s, p, Bytes(Divide(a, b, rem, quot)))
    ensures Wf(a) && Wf(b) && WfTarget(rem) && WfTarget(quot)
    ensures p < |s| && s[p] == 0x78 && Has(s, p + 1, Bytes(a)) && Has(s, p + 1 + |Bytes(a)|, Bytes(b))
    ensures Has(s, p + 1 + |Bytes(a)| + |Bytes(b)|, TargetBytes(rem))
    ensures Has(s, p + 1 + |Bytes(a)| + |Bytes(b)| + |TargetBytes(rem)|, TargetBytes(quot))
    ensures |Bytes(Divide(a, b, rem, quot))| == 1 + |Bytes(a)| + |Bytes(b)| + |TargetBytes(rem)| + |TargetBytes(quot)|
  {
    hide Has, TargetBytes;
    HasParts(s, p, [0x78] + Bytes(a) + Bytes(b) + TargetBytes(rem), TargetBytes(quot));
    HasFour(s, p, [0x78], Bytes(a), Bytes(b), TargetBytes(rem));
    HasAt(s, p, [0x78], 0);
  }

  lemma SkipOperation(s: Span, p: nat)
    requires p < |s| && Operands(s[p]) > 0
    ensures SkipTerm(s, p) == SkipTerms(s, p + 1, Operands(s[p]))
  {
  }

  predicate IsLeaf(e: Expr) { !e.Store? && !e.Compute? && !e.Divide? }

  lemma SkipLeaf(s: Span, p: nat, e: Expr)
    requires Wf(e) && IsLeaf(e) && Has(s, p, Bytes(e))
    ensures SkipTerm(s, p) == p + |Bytes(e)|
  {
    HasAt(s, p, Bytes(e), 0);
  }

  lemma SkipStore(s: Span, p: nat, src: Expr, dst: Target)
    requires Wf(Store(src, dst)) && Has(s, p, Bytes(Store(src, dst)))
    requires SkipTerm(s, p + 1) == p + 1 + |Bytes(src)|
    ensures SkipTerm(s, p) == p + |Bytes(Store(src, dst))|
  {
    hide SkipTerm, SkipTerms, Bytes, TargetBytes, Has, Wf;
    StoreParts(s, p, src, dst);
    SkipOperation(s, p);
    SkipTermsUnroll(s, p + 1);
    TargetExact(s, p + 1 + |Bytes(src)|, dst);
  }

  lemma ArithOperands(op: Byte)
    requires IsArith(op)
    ensures Operands(op) == 3 && Operands(0x78) == 4
  {
  }

  lemma SkipCompute(s: Span, p: nat, op: Byte, a: Expr, b: Expr, dst: Target)
    requires Wf(Compute(op, a, b, dst)) && Has(s, p, Bytes(Compute(op, a, b, dst)))
    requires SkipTerm(s, p + 1) == p + 1 + |Bytes(a)|
    requires SkipTerm(s, p + 1 + |Bytes(a)|) == p + 1 + |Bytes(a)| + |Bytes(b)|
    ensures SkipTerm(s, p) == p + |Bytes(Compute(op, a, b, dst))|
  {
    hide SkipTerm, SkipTerms, Bytes, TargetBytes, TargetEnd, Has, Operands, Wf, IsArith;
    ComputeParts(s, p, op, a, b, dst);
    ArithOperands(op);
    SkipOperation(s, p);
    SkipTermsUnroll(s, p + 1);
    TargetExact(s, p + 1 + |Bytes(a)| + |Bytes(b)|, dst);
  }

  lemma SkipDivide(s: Span, p: nat, a: Expr, b: Expr, rem: Target, quot: Target)
    requires Wf(Divide(a, b, rem, quot)) && Has(s, p, Bytes(Divide(a, b, rem, quot)))
    requires SkipTerm(s, p + 1) == p + 1 + |Bytes(a)|
    requires SkipTerm(s, p + 1 + |Bytes(a)|) == p + 1 + |Bytes(a)| + |Bytes(b)|
    ensures SkipTerm(s, p) == p + |Bytes(Divide(a, b, rem, quot))|
  {
    hide SkipTerm, SkipTerms, Bytes, TargetBytes, TargetEnd, Has, Wf, Operands, IsArith;
    DivideParts(s, p, a, b, rem, quot);
    ArithOperands(0x72);
    SkipOperation(s, p);
    SkipTermsUnroll(s, p + 1);
    TargetExact(s, p + 1 + |Bytes(a)| + |Bytes(b)|, rem);
    TargetExact(s, p + 1 + |Bytes(a)| + |Bytes(b)| + |TargetBytes(rem)|, quot);
  }

  /** The scanner steps over exactly the bytes of an expression. */
  lemma {:induction false} SkipExact(s: Span, p: nat, e: Expr)
    requires Wf(e) && Has(s, p, Bytes(e))
    ensures SkipTerm(s, p) == p + |Bytes(e)|
    decreases e
  {
    hide SkipTerm, Bytes, TargetBytes, Has, Wf;
    match e
    case Store(src, dst) =>
      StoreParts(s, p, src, dst);
      SkipExact(s, p + 1, src);
      SkipStore(s, p, src, dst);
    case Compute(op, a, b, dst) =>
      ComputeParts(s, p, op, a, b, dst);
      SkipExact(s, p + 1, a);
      SkipExact(s, p + 1 + |Bytes(a)|, b);
      SkipCompute(s, p, op, a, b, dst);
    case Divide(a, b, rem, quot) =>
      DivideParts(s, p, a, b, rem, quot);
      SkipExact(s, p + 1, a);
      SkipExact(s, p + 1 + |Bytes(a)|, b);
      SkipDivide(s, p, a, b, rem, quot);
    case _ =>
      SkipLeaf(s, p, e);
  }

  // ---- evaluating an expression -------------------------------------------------------------------

  lemma OneDigit(b: Byte)
    ensures LittleEndian([b]) == Word(b)
  {
    assert [b][1..] == [];
    assert LittleEndian([b]) == (LittleEndian([]) << 8) | Word(b);
    hide Word;
  }

  predicate IsSimple(op: Byte) { op != 0x12 && op != 0xA4 && op != 0x70 && !IsArith(op) && op != 0x78 && op != 0xA0 }

  lemma TermIsSimple(s: Span, m: Machine)
    requires Ready(m) && !m.done && m.pos < |s| && IsSimple(s[m.pos])
    ensures EvalTerm(s, m) == EvalSimple(s, m)
  {
    hide EvalSimple;
  }

  lemma LongDigits(s: Span, m: Machine, bytes: seq<Byte>)
    requires Ready(m) && |bytes| in {2, 4, 8} && m.pos < |s| && s[m.pos] == DigitsOp(|bytes|)
    requires Has(s, m.pos + 1, bytes)
    ensures EvalSimple(s, m) == Evaluated(Integer(LittleEndian(bytes)), m.(pos := m.pos + 1 + |bytes|))
  {
    hide LittleEndian;
  }

  lemma ShortDigits(s: Span, m: Machine, b: Byte)
    requires Ready(m) && m.pos < |s| && s[m.pos] == 0x0A && Has(s, m.pos + 1, [b])
    ensures EvalSimple(s, m) == Evaluated(Integer(LittleEndian([b])), m.(pos := m.pos + 2))
  {
    HasAt(s, m.pos + 1, [b], 0);
    OneDigit(b);
    hide LittleEndian, Word;
  }

  lemma DigitsExact(s: Span, m: Machine, bytes: seq<Byte>)
    requires Ready(m) && Wf(Digits(bytes)) && Has(s, m.pos, Bytes(Digits(bytes)))
    ensures EvalSimple(s, m) == Evaluated(Integer(LittleEndian(bytes)), m.(pos := m.pos + 1 + |bytes|))
  {
    hide EvalSimple, LittleEndian, Has, DigitsOp;
    DigitsParts(s, m.pos, bytes);
    if |bytes| == 1 {
      assert bytes == [bytes[0]];
      ShortDigits(s, m, bytes[0]);
    } else {
      LongDigits(s, m, bytes);
    }
  }

  lemma DigitsParts(s: Span, p: nat, bytes: seq<Byte>)
    requires Wf(Digits(bytes)) && Has(s, p, Bytes(Digits(bytes)))
    ensures p < |s| && s[p] == DigitsOp(|bytes|) && Has(s, p + 1, bytes)
    ensures |bytes| == 1 ==> s[p] == 0x0A
  {
    hide Has;
    HasParts(s, p, [DigitsOp(|bytes|)], bytes);
    HasAt(s, p, [DigitsOp(|bytes|)], 0);
  }

  lemma LeafExact(s: Span, m: Machine, e: Expr)
    requires Ready(m) && !m.done && Wf(e) && IsLeaf(e) && Has(s, m.pos, Bytes(e))
    ensures var r := Interpret(e, m.locals);
      EvalTerm(s, m) == Evaluated(Integer(r.value), Machine(m.pos + |Bytes(e)|, r.locals, false))
  {
    hide EvalTerm, EvalSimple, LittleEndian, IsSimple;
    LeafIsSimple(s, m.pos, e);
    TermIsSimple(s, m);
    if e.Digits? { DigitsExact(s, m, e.bytes); } else { PlainLeafExact(s, m, e); }
  }

  lemma LeafIsSimple(s: Span, p: nat, e: Expr)
    requires Wf(e) && IsLeaf(e) && Has(s, p, Bytes(e))
    ensures p < |s| && IsSimple(s[p])
  {
    HasAt(s, p, Bytes(e), 0);
  }

  lemma PlainLeafExact(s: Span, m: Machine, e: Expr)
    requires Ready(m) && !m.done && Wf(e) && IsLeaf(e) && !e.Digits? && Has(s, m.pos, Bytes(e)) && m.pos < |s|
    ensures var r := Interpret(e, m.locals);
      EvalSimple(s, m) == Evaluated(Integer(r.value), Machine(m.pos + |Bytes(e)|, r.locals, false))
  {
    hide LittleEndian, Literal;
    HasAt(s, m.pos, Bytes(e), 0);
  }

  /** The evaluator has read exactly the encoding and got the value and locals of the interpretation. */
  predicate Exact(s: Span, m: Machine, e: Expr)
    requires Ready(m) && Wf(e)
  {
    var r := Interpret(e, m.locals);
    EvalTerm(s, m) == Evaluated(Integer(r.value), Machine(m.pos + |Bytes(e)|, r.locals, false))
  }

  function After(m: Machine, e: Expr): Machine
    requires Ready(m) && Wf(e)
  {
    Machine(m.pos + |Bytes(e)|, Interpret(e, m.locals).locals, false)
  }

  function Step(m: Machine): Machine { m.(pos := m.pos + 1) }

  lemma InterpretStore(src: Expr, dst: Target, l: seq<bv64>)
    requires Wf(Store(src, dst)) && |l| == 8
    ensures var r := Interpret(src, l);
      Interpret(Store(src, dst), l) == Result(r.value, Put(r.locals, dst, r.value))
  {
    hide Put;
  }

  lemma InterpretCompute(op: Byte, a: Expr, b: Expr, dst: Target, l: seq<bv64>)
    requires Wf(Compute(op, a, b, dst)) && |l| == 8
    ensures var x := Interpret(a, l);
      var y := Interpret(b, x.locals);
      Interpret(Compute(op, a, b, dst), l) == Result(Arith(op, x.value, y.value), y.locals)
  {
    hide Arith, IsArith;
  }

  lemma InterpretDivide(a: Expr, b: Expr, rem: Target, quot: Target, l: seq<bv64>)
    requires Wf(Divide(a, b, rem, quot)) && |l| == 8
    ensures var x := Interpret(a, l);
      var y := Interpret(b, x.locals);
      Interpret(Divide(a, b, rem, quot), l) == Result(Quotient(x.value, y.value), y.locals)
  {
    hide Quotient;
  }

  lemma OneOperand(s: Span, m: Machine)
    requires Ready(m) && !m.done && m.pos < |s| && s[m.pos] == 0x70
    ensures var r := EvalTerm(s, Step(m));
      EvalTerm(s, m) == r.(next := StoreTo(s, r.next, Number(r.value)))
  {
    hide StoreTo, Number;
  }

  lemma EvalStore(s: Span, m: Machine, src: Expr, dst: Target)
    requires Ready(m) && !m.done && Wf(Store(src, dst)) && Has(s, m.pos, Bytes(Store(src, dst)))
    requires Exact(s, Step(m), src)
    ensures Exact(s, m, Store(src, dst))
  {
    hide EvalTerm, Has, Bytes, TargetBytes, StoreTo, Put, Interpret, Wf;
    InterpretStore(src, dst, m.locals);
    StoreParts(s, m.pos, src, dst);
    OneOperand(s, m);
    StoreExact(s, After(Step(m), src), dst, Interpret(src, m.locals).value);
  }

  lemma TwoOperands(s: Span, m: Machine)
    requires Ready(m) && !m.done && m.pos < |s| && (IsArith(s[m.pos]) || s[m.pos] == 0x78)
    ensures var a := EvalTerm(s, Step(m));
      var b := EvalTerm(s, a.next);
      var v := Integer(Combine(s[m.pos], a.value, b.value));
      var m2 := PastTarget(s, b.next);
      EvalTerm(s, m) == Evaluated(v, if s[m.pos] == 0x78 then PastTarget(s, m2) else m2)
  {
    hide Combine, PastTarget;
  }

  lemma EvalCompute(s: Span, m: Machine, op: Byte, a: Expr, b: Expr, dst: Target)
    requires Ready(m) && !m.done && Wf(Compute(op, a, b, dst)) && Has(s, m.pos, Bytes(Compute(op, a, b, dst)))
    requires Exact(s, Step(m), a) && Exact(s, After(Step(m), a), b)
    ensures Exact(s, m, Compute(op, a, b, dst))
  {
    hide EvalTerm, Has, Bytes, TargetBytes, TargetEnd, Arith, Interpret, Wf, IsArith;
    InterpretCompute(op, a, b, dst, m.locals);
    ComputeParts(s, m.pos, op, a, b, dst);
    TwoOperands(s, m);
    TargetExact(s, m.pos + 1 + |Bytes(a)| + |Bytes(b)|, dst);
  }

  lemma EvalDivide(s: Span, m: Machine, a: Expr, b: Expr, rem: Target, quot: Target)
    requires Ready(m) && !m.done && Wf(Divide(a, b, rem, quot)) && Has(s, m.pos, Bytes(Divide(a, b, rem, quot)))
    requires Exact(s, Step(m), a) && Exact(s, After(Step(m), a), b)
    ensures Exact(s, m, Divide(a, b, rem, quot))
  {
    hide EvalTerm, Has, Bytes, TargetBytes, TargetEnd, Quotient, Interpret, Wf, IsArith;
    InterpretDivide(a, b, rem, quot, m.locals);
    DivideParts(s, m.pos, a, b, rem, quot);
    TwoOperands(s, m);
    TargetExact(s, m.pos + 1 + |Bytes(a)| + |Bytes(b)|, rem);
    TargetExact(s, m.pos + 1 + |Bytes(a)| + |Bytes(b)| + |TargetBytes(rem)|, quot);
  }

  /** The evaluator computes the interpretation of an expression, and reads exactly its bytes. */
  lemma {:induction false} EvalExact(s: Span, m: Machine, e: Expr)
    requires Ready(m) && !m.done && Wf(e) && Has(s, m.pos, Bytes(e))
    ensures Exact(s, m, e)
    decreases e
  {
    hide EvalTerm, Bytes, TargetBytes, Has, Wf, Interpret;
    match e
    case Store(src, dst) =>
      StoreParts(s, m.pos, src, dst);
      EvalExact(s, Step(m), src);
      EvalStore(s, m, src, dst);
    case Compute(op, a, b, dst) =>
      ComputeParts(s, m.pos, op, a, b, dst);
      EvalExact(s, Step(m), a);
      EvalExact(s, After(Step(m), a), b);
      EvalCompute(s, m, op, a, b, dst);
    case Divide(a, b, rem, quot) =>
      DivideParts(s, m.pos, a, b, rem, quot);
      EvalExact(s, Step(m), a);
      EvalExact(s, After(Step(m), a), b);
      EvalDivide(s, m, a, b, rem, quot);
    case _ =>
      LeafExact(s, m, e);
  }

  /** Scanner and evaluator agree on where an expression ends. */
  lemma SameExtent(s: Span, m: Machine, e: Expr)
    requires Ready(m) && !m.done && Wf(e) && Has(s, m.pos, Bytes(e))
    ensures SkipTerm(s, m.pos) == EvalTerm(s, m).next.pos
  {
    hide SkipTerm, EvalTerm, Bytes, Has, Interpret, Wf;
    SkipExact(s, m.pos, e);
    EvalExact(s, m, e);
  }

  /** On a name of two segments without a prefix they do not: the scanner takes one byte for it, the evaluator nine. */
  lemma DualNameDiffers(s: Span, m: Machine)
    requires Ready(m) && !m.done && m.pos + 9 <= |s| && s[m.pos] == 0x2E
    ensures SkipTerm(s, m.pos) == m.pos + 1 && EvalTerm(s, m).next.pos == m.pos + 9
  {
    TermIsSimple(s, m);
    assert PrefixEnd(s, m.pos) == m.pos;
  }

  predicate IsLogical(op: int) { op in {0x90, 0x91, 0x93, 0x94, 0x95} }

  lemma LogicalOperands(op: Byte)
    requires IsLogical(op)
    ensures Operands(op) == 3 && IsSimple(op)
  {
  }

  /**
   A logical operator has two operands and no target.  The scanner steps over
   the expression after them as well, the evaluator over none of them.
   */
  lemma LogicalDiffers(s: Span, m: Machine, op: Byte, a: Expr, b: Expr, c: Expr)
    requires Ready(m) && !m.done && IsLogical(op) && Wf(a) && Wf(b) && Wf(c)
    requires Has(s, m.pos, [op] + Bytes(a) + Bytes(b) + Bytes(c))
    ensures SkipTerm(s, m.pos) == m.pos + 1 + |Bytes(a)| + |Bytes(b)| + |Bytes(c)|
    ensures EvalTerm(s, m) == Evaluated(Invalid, Step(m))
  {
    hide SkipTerm, EvalTerm, EvalSimple, Bytes, Has, Wf, Operands, IsSimple, IsLogical;
    LogicalSkips(s, m.pos, op, a, b, c);
    LogicalOperands(op);
    TermIsSimple(s, m);
    LogicalIsUnknown(s, m);
  }

  lemma LogicalSkips(s: Span, p: nat, op: Byte, a: Expr, b: Expr, c: Expr)
    requires IsLogical(op) && Wf(a) && Wf(b) && Wf(c) && Has(s, p, [op] + Bytes(a) + Bytes(b) + Bytes(c))
    ensures p < |s| && s[p] == op && SkipTerm(s, p) == p + 1 + |Bytes(a)| + |Bytes(b)| + |Bytes(c)|
  {
    hide SkipTerm, SkipTerms, Bytes, Has, Wf, Operands, IsLogical;
    LogicalOperands(op);
    HasFour(s, p, [op], Bytes(a), Bytes(b), Bytes(c));
    HasAt(s, p, [op], 0);
    SkipOperation(s, p);
    var x := p + 1 + |Bytes(a)|;
    var y := x + |Bytes(b)|;
    SkipExact(s, p + 1, a);
    SkipExact(s, x, b);
    SkipExact(s, y, c);
    ThreeSkipped(s, p + 1, x, y, y + |Bytes(c)|);
  }

  lemma ThreeSkipped(s: Span, p: nat, x: nat, y: nat, z: nat)
    requires SkipTerm(s, p) == x && SkipTerm(s, x) == y && SkipTerm(s, y) == z
    ensures SkipTerms(s, p, 3) == z
  {
    hide SkipTerm, SkipTerms;
    SkipTermsUnroll(s, p);
  }

  lemma LogicalIsUnknown(s: Span, m: Machine)
    requires Ready(m) && m.pos < |s| && IsLogical(s[m.pos])
    ensures EvalSimple(s, m) == Evaluated(Invalid, Step(m))
  {
  }

  // ---- packages ----------------------------------------------------------------------------------------

  lemma ElementStep(s: Span, m: Machine, end: nat, count: nat, acc: seq<bv64>)
    requires Ready(m) && |acc| < 16 && count > 0 && m.pos < end
    ensures var r := EvalTerm(s, m);
      EvalElements(s, m, end, count, acc) == EvalElements(s, r.next, end, count - 1, acc + [Number(r.value)])
  {
    hide EvalTerm, Number;
  }

  lemma KeptStep(es: seq<Expr>, l: seq<bv64>, room: nat)
    requires AllWf(es) && |l| == 8 && es != [] && room > 0
    ensures var x := Interpret(es[0], l);
      InterpretList(Kept(es, room), l).0 == [x.value] + InterpretList(Kept(es[1..], room - 1), x.locals).0
  {
    assert Kept(es, room)[1..] == Kept(es[1..], room - 1);
    hide Interpret;
  }

  lemma {:induction false} ElementsExact(s: Span, m: Machine, end: nat, es: seq<Expr>, acc: seq<bv64>)
    requires Ready(m) && !m.done && AllWf(es) && |acc| <= 16
    requires Has(s, m.pos, ListBytes(es)) && m.pos + |ListBytes(es)| <= end
    ensures ElementsAre(s, m, end, es, acc)
    decreases |es|
  {
    hide ElementsAre, EvalElements, EvalTerm, InterpretList, Interpret, Kept, Exact, After, Has, Bytes;
    if es == [] || |acc| == 16 {
      NoElement(s, m, end, es, acc);
    } else {
      ListParts(s, m.pos, es);
      EvalExact(s, m, es[0]);
      ExactOutcome(s, m, es[0]);
      ElementsExact(s, After(m, es[0]), end, es[1..], acc + [Interpret(es[0], m.locals).value]);
      MoreElements(s, m, end, es, acc);
    }
  }

  predicate ElementsAre(s: Span, m: Machine, end: nat, es: seq<Expr>, acc: seq<bv64>)
    requires Ready(m) && AllWf(es) && |acc| <= 16
  {
    EvalElements(s, m, end, |es|, acc).0 == acc + InterpretList(Kept(es, 16 - |acc|), m.locals).0
  }

  lemma MoreElements(s: Span, m: Machine, end: nat, es: seq<Expr>, acc: seq<bv64>)
    requires Ready(m) && AllWf(es) && |acc| < 16 && es != [] && m.pos < end && Exact(s, m, es[0])
    requires ElementsAre(s, After(m, es[0]), end, es[1..], acc + [Interpret(es[0], m.locals).value])
    ensures ElementsAre(s, m, end, es, acc)
  {
    hide EvalElements, EvalTerm, InterpretList, Interpret, Kept, Exact, After;
    var v, l := Interpret(es[0], m.locals).value, Interpret(es[0], m.locals).locals;
    ExactOutcome(s, m, es[0]);
    ElementStep(s, m, end, |es|, acc);
    KeptStep(es, m.locals, 16 - |acc|);
    Associative(acc, [v], InterpretList(Kept(es[1..], 16 - |acc| - 1), l).0);
  }

  lemma Associative(a: seq<bv64>, b: seq<bv64>, c: seq<bv64>)
    ensures a + b + c == a + (b + c)
  {
  }

  lemma NoElement(s: Span, m: Machine, end: nat, es: seq<Expr>, acc: seq<bv64>)
    requires Ready(m) && AllWf(es) && (es == [] || |acc| == 16) && |acc| <= 16
    ensures ElementsAre(s, m, end, es, acc)
  {
    assert Kept(es, 16 - |acc|) == [];
    assert acc + [] == acc;
  }

  lemma ListParts(s: Span, p: nat, es: seq<Expr>)
    requires AllWf(es) && es != [] && Has(s, p, ListBytes(es))
    ensures Wf(es[0]) && AllWf(es[1..])
    ensures |ListBytes(es)| == |Bytes(es[0])| + |ListBytes(es[1..])|
    ensures Has(s, p, Bytes(es[0])) && Has(s, p + |Bytes(es[0])|, ListBytes(es[1..]))
  {
    HasParts(s, p, Bytes(es[0]), ListBytes(es[1..]));
  }

  lemma ExactOutcome(s: Span, m: Machine, e: Expr)
    requires Ready(m) && Wf(e) && Exact(s, m, e)
    ensures EvalTerm(s, m).next == After(m, e) && Number(EvalTerm(s, m).value) == Interpret(e, m.locals).value
    ensures Ready(After(m, e)) && !After(m, e).done && After(m, e).pos == m.pos + |Bytes(e)|
    ensures After(m, e).locals == Interpret(e, m.locals).locals
  {
    hide EvalTerm, Bytes, Interpret;
  }

  lemma HasLength(s: Span, p: nat, bytes: seq<Byte>)
    requires Has(s, p, bytes)
    ensures p + |bytes| <= |s|
  {
  }

  lemma PackageParts(s: Span, p: nat, elems: seq<Expr>)
    requires |elems| < 256 && AllWf(elems) && Fits(|ListBytes(elems)| + 1) && Has(s, p, PackageBytes(elems))
    ensures p < |s| && s[p] == 0x12 && Jump(s, p + 1) == p + |PackageBytes(elems)|
    ensures var q := PkgNext(s, p + 1);
      q < |s| && s[q] == |elems| && Has(s, q + 1, ListBytes(elems)) && q + 1 + |ListBytes(elems)| == p + |PackageBytes(elems)|
  {
    hide ListBytes, LengthField, Has, Jump, PkgNext, AllWf;
    var f := LengthField(|ListBytes(elems)| + 1);
    HasFour(s, p, [0x12], f, [|elems|], ListBytes(elems));
    hide PackageBytes;
    HasLength(s, p + 1 + |f| + 1, ListBytes(elems));
    LengthFieldReads(s, p + 1, |ListBytes(elems)| + 1);
    HasAt(s, p, [0x12], 0);
    HasAt(s, p + 1 + |f|, [|elems|], 0);
  }

  lemma PackageExact(s: Span, m: Machine, elems: seq<Expr>)
    requires Ready(m) && !m.done
    requires |elems| < 256 && AllWf(elems) && Fits(|ListBytes(elems)| + 1) && Has(s, m.pos, PackageBytes(elems))
    ensures var r := EvalTerm(s, m);
      && r.value == Package(InterpretList(Kept(elems, 16), m.locals).0)
      && r.next.pos == m.pos + |PackageBytes(elems)|
  {
    hide EvalTerm, EvalElements, InterpretList, ElementsAre, ListBytes, PackageBytes, Jump, PkgNext, Has, AllWf;
    PackageParts(s, m.pos, elems);
    PackageStep(s, m);
    var q := PkgNext(s, m.pos + 1);
    ElementsExact(s, m.(pos := q + 1), m.pos + |PackageBytes(elems)|, elems, []);
    AllElements(s, m.(pos := q + 1), m.pos + |PackageBytes(elems)|, elems);
  }

  lemma AllElements(s: Span, m: Machine, end: nat, es: seq<Expr>)
    requires Ready(m) && AllWf(es) && ElementsAre(s, m, end, es, [])
    ensures EvalElements(s, m, end, |es|, []).0 == InterpretList(Kept(es, 16), m.locals).0
  {
    hide EvalElements, InterpretList, Kept;
    var values := InterpretList(Kept(es, 16), m.locals).0;
    assert [] + values == values;
  }

  lemma PackageStep(s: Span, m: Machine)
    requires Ready(m) && !m.done && m.pos < |s| && s[m.pos] == 0x12 && PkgNext(s, m.pos + 1) < |s|
    ensures var q, end := PkgNext(s, m.pos + 1), Jump(s, m.pos + 1);
      var r := EvalElements(s, m.(pos := q + 1), end, s[q], []);
      EvalTerm(s, m) == Evaluated(Package(r.0), r.1.(pos := end))
  {
    hide EvalElements, Jump, PkgNext;
  }

  // ---- statements and bodies ------------------------------------------------------------------------------

  /** No Else stands at p. */
  predicate NoElse(s: Span, p: nat) { p < |s| ==> s[p] != 0xA1 }

  lemma BlockParts(s: Span, p: nat, op: Byte, content: seq<Byte>)
    requires Fits(|content|) && Has(s, p, [op] + BlockBytes(content))
    ensures p < |s| && s[p] == op && Jump(s, p + 1) == p + |[op] + BlockBytes(content)|
    ensures Has(s, PkgNext(s, p + 1), content)
  {
    hide BlockBytes, Has, Jump, PkgNext;
    HasParts(s, p, [op], BlockBytes(content));
    HasAt(s, p, [op], 0);
    BlockReads(s, p + 1, content);
  }

  lemma IfStep(s: Span, m: Machine)
    requires Ready(m) && !m.done && m.pos < |s| && s[m.pos] == 0xA0
    ensures var end := Jump(s, m.pos + 1);
      EvalTerm(s, m).next == EvalTerm(s, m.(pos := PkgNext(s, m.pos + 1))).next.(
        pos := if NoElse(s, end) || end >= |s| then end else Jump(s, end + 1))
  {
    hide Jump, PkgNext;
  }

  /** A condition is evaluated; the bytes behind it, and those of an Else, are passed over. */
  lemma IfExact(s: Span, m: Machine, cond: Expr, yes: seq<Byte>)
    requires Ready(m) && !m.done && Wf(cond) && Fits(|Bytes(cond) + yes|)
    requires Has(s, m.pos, [0xA0] + BlockBytes(Bytes(cond) + yes))
    ensures var end := m.pos + |[0xA0] + BlockBytes(Bytes(cond) + yes)|;
      EvalTerm(s, m).next == Machine(if NoElse(s, end) || end >= |s| then end else Jump(s, end + 1),
                                     Interpret(cond, m.locals).locals, false)
  {
    hide EvalTerm, Interpret, Bytes, BlockBytes, Has, Jump, PkgNext, NoElse;
    BlockParts(s, m.pos, 0xA0, Bytes(cond) + yes);
    IfStep(s, m);
    var q := PkgNext(s, m.pos + 1);
    HasParts(s, q, Bytes(cond), yes);
    EvalExact(s, m.(pos := q), cond);
  }

  lemma IfElseExact(s: Span, m: Machine, cond: Expr, yes: seq<Byte>, no: seq<Byte>)
    requires Ready(m) && !m.done && Wf(cond) && Fits(|Bytes(cond) + yes|) && Fits(|no|)
    requires Has(s, m.pos, [0xA0] + BlockBytes(Bytes(cond) + yes) + ([0xA1] + BlockBytes(no)))
    ensures EvalTerm(s, m).next
         == Machine(m.pos + |[0xA0] + BlockBytes(Bytes(cond) + yes) + ([0xA1] + BlockBytes(no))|, Interpret(cond, m.locals).locals, false)
  {
    hide EvalTerm, Interpret, Bytes, BlockBytes, Has, Jump, PkgNext;
    HasParts(s, m.pos, [0xA0] + BlockBytes(Bytes(cond) + yes), [0xA1] + BlockBytes(no));
    IfExact(s, m, cond, yes);
    BlockParts(s, m.pos + |[0xA0] + BlockBytes(Bytes(cond) + yes)|, 0xA1, no);
  }

  lemma WhileExact(s: Span, m: Machine, content: seq<Byte>)
    requires Ready(m) && !m.done && Fits(|content|) && Has(s, m.pos, [0xA2] + BlockBytes(content))
    ensures EvalTerm(s, m).next == m.(pos := m.pos + |[0xA2] + BlockBytes(content)|)
  {
    hide EvalTerm, BlockBytes, Has, Jump, PkgNext;
    BlockParts(s, m.pos, 0xA2, content);
    TermIsSimple(s, m);
  }

  lemma ExprHead(e: Expr)
    requires Wf(e)
    ensures Bytes(e)[0] != 0xA1
  {}

  lemma StmtHead(t: Stmt)
    requires WfStmt(t)
    ensures StmtBytes(t)[0] != 0xA1
  {
    hide Bytes, PackageBytes, LengthField, ListBytes, Wf;
    match t
    case Do(e) => ExprHead(e);
    case _ =>
  }

  /** No statement begins with an Else, so none follows a statement. */
  lemma BodyHead(s: Span, p: nat, body: seq<Stmt>)
    requires WfBody(body) && Has(s, p, BodyBytes(body)) && p + |BodyBytes(body)| == |s|
    ensures NoElse(s, p)
  {
    hide StmtBytes, WfStmt, Has;
    if body != [] {
      StmtHead(body[0]);
      HasParts(s, p, StmtBytes(body[0]), BodyBytes(body[1..]));
      HasAt(s, p, StmtBytes(body[0]), 0);
    }
  }

  lemma StmtExact(s: Span, m: Machine, t: Stmt)
    requires Ready(m) && !m.done && WfStmt(t) && Has(s, m.pos, StmtBytes(t)) && NoElse(s, m.pos + |StmtBytes(t)|)
    ensures var r := EvalTerm(s, m);
      match Perform(t, m.locals)
      case Continue(l) => r.next == Machine(m.pos + |StmtBytes(t)|, l, false)
      case Returned(v) => r.next.done && r.value == v
  {
    hide EvalTerm, Interpret, InterpretList, Bytes, PackageBytes, BlockBytes, Has;
    match t
    case Do(e) =>
      EvalExact(s, m, e);
    case Increment(i) =>
      BumpExact(s, m, i, 0x75, 1);
    case Decrement(i) =>
      BumpExact(s, m, i, 0x76, -1);
    case Return(e) =>
      HasParts(s, m.pos, [0xA4], Bytes(e));
      ReturnStep(s, m);
      EvalExact(s, Step(m), e);
    case ReturnPackage(elems) =>
      HasParts(s, m.pos, [0xA4], PackageBytes(elems));
      ReturnStep(s, m);
      PackageExact(s, Step(m), elems);
    case If(cond, yes) =>
      IfExact(s, m, cond, yes);
    case IfElse(cond, yes, no) =>
      IfElseExact(s, m, cond, yes, no);
    case While(content) =>
      WhileExact(s, m, content);
  }

  lemma ReturnStep(s: Span, m: Machine)
    requires Ready(m) && !m.done && Has(s, m.pos, [0xA4])
    ensures var r := EvalTerm(s, Step(m));
      EvalTerm(s, m) == r.(next := r.next.(done := true))
  {
    HasAt(s, m.pos, [0xA4], 0);
  }

  lemma BumpExact(s: Span, m: Machine, i: nat, op: Byte, delta: bv64)
    requires Ready(m) && !m.done && i < 8 && Has(s, m.pos, [op, 0x60 + i])
    requires (op == 0x75 && delta == 1) || (op == 0x76 && delta == -1)
    ensures EvalTerm(s, m).next == Machine(m.pos + 2, m.locals[i := Sum(m.locals[i], delta)], false)
  {
    HasAt(s, m.pos, [op, 0x60 + i], 0);
    HasAt(s, m.pos, [op, 0x60 + i], 1);
    TermIsSimple(s, m);
    hide EvalTerm, Sum, Has;
  }

  lemma {:induction false} RunExact(s: Span, m: Machine, body: seq<Stmt>)
    requires Ready(m) && !m.done && WfBody(body) && Has(s, m.pos, BodyBytes(body))
    requires m.pos + |BodyBytes(body)| == |s|
    ensures RunFrom(s, m) == Meaning(body, m.locals)
    decreases |body|
  {
    hide EvalTerm, StmtBytes, BodyBytes, Perform, Has, RunFrom, Meaning, WfBody, WfStmt, NoElse;
    if body == [] {
      NoBody(s, m);
    } else {
      BodyParts(s, m.pos, body);
      BodyHead(s, m.pos + |StmtBytes(body[0])|, body[1..]);
      StmtExact(s, m, body[0]);
      RunStep(s, m);
      MeaningStep(body, m.locals);
      match Perform(body[0], m.locals)
      case Continue(l) =>
        RunExact(s, EvalTerm(s, m).next, body[1..]);
      case Returned(v) =>
    }
  }

  lemma MeaningStep(body: seq<Stmt>, l: seq<bv64>)
    requires WfBody(body) && |l| == 8 && body != []
    ensures var r := Perform(body[0], l);
      Meaning(body, l) == if r.Continue? then Meaning(body[1..], r.locals) else r.value
  {
    hide Perform;
  }

  lemma NoBody(s: Span, m: Machine)
    requires Ready(m) && m.pos + |BodyBytes([])| == |s|
    ensures RunFrom(s, m) == Invalid == Meaning([], m.locals)
  {
  }

  lemma RunStep(s: Span, m: Machine)
    requires Ready(m) && !m.done && m.pos < |s|
    ensures var r := EvalTerm(s, m);
      RunFrom(s, m) == if r.next.done then r.value else RunFrom(s, r.next)
  {
    hide EvalTerm;
  }

  lemma BodyParts(s: Span, p: nat, body: seq<Stmt>)
    requires WfBody(body) && body != [] && Has(s, p, BodyBytes(body))
    ensures WfStmt(body[0]) && WfBody(body[1..])
    ensures |BodyBytes(body)| == |StmtBytes(body[0])| + |BodyBytes(body[1..])|
    ensures p < |s| && Has(s, p, StmtBytes(body[0])) && Has(s, p + |StmtBytes(body[0])|, BodyBytes(body[1..]))
  {
    hide Has, StmtBytes, WfStmt;
    HasParts(s, p, StmtBytes(body[0]), BodyBytes(body[1..]));
    HasLength(s, p, StmtBytes(body[0]));
  }

  /** Running the bytes of a method gives what the method means. */
  lemma MethodMeaning(body: seq<Stmt>)
    requires WfBody(body) && |BodyBytes(body)| <= 0xF000_0000
    ensures RunMethod(BodyBytes(body)) == Meaning(body, START.locals)
  {
    var s := BodyBytes(body);
    assert s[0..|s|] == s;
    RunExact(s, START, body);
  }
}
