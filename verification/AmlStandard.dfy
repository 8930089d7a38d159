/**
 The evaluator against the ACPI specification.  There a name has the value of
 its object and an argument what the caller passed; Add and its kin store their
 result in the target operand, Divide stores remainder and quotient and fails
 on 0; NAnd and NOr are complements; and a shift by 64 or more gives 0.
 Integers are 64 bits wide, as in tables of revision 2 and later.
 */
module AmlStandard {
  import opened AmlBytes
  import opened AmlEval
  import opened AmlSyntax
  import opened AmlMeaning

  /** What a term can read and change; `failed` is a fatal error. */
  datatype World = World(locals: seq<bv64>, args: seq<bv64>, names: map<Segment, bv64>, failed: bool)

  predicate Ok(w: World) { |w.locals| == 8 && |w.args| == 6 }

  datatype Answer = Answer(value: bv64, world: World)

  // ---- the specified operations -------------------------------------------------------------

  /** Add, Subtract, Multiply, ShiftLeft, ShiftRight, And, NAnd, Or, NOr and Xor. */
  function StandardArith(op: int, a: bv64, b: bv64): bv64 {
    match op
    case 0x72 => a + b
    case 0x74 => a - b
    case 0x77 => StandardProduct(a, b)
    case 0x79 => if b >= 64 then 0 else a << b
    case 0x7A => if b >= 64 then 0 else a >> b
    case 0x7B => a & b
    case 0x7C => !(a & b)
    case 0x7D => a | b
    case 0x7E => !(a | b)
    case 0x7F => a ^ b
    case _ => 0
  }

  function StandardProduct(a: bv64, b: bv64): bv64 { a * b }

  function StandardQuotient(a: bv64, b: bv64): bv64 { if b == 0 then 0 else a / b }

  /** The value of 1, 2, 4 or 8 bytes written out, low byte first. */
  function Number(b: seq<Byte>): bv64 {
    if |b| == 1 then Word(b[0])
    else if |b| == 2 then Word(b[0]) | (Word(b[1]) << 8)
    else if |b| == 4 then Word(b[0]) | (Word(b[1]) << 8) | (Word(b[2]) << 16) | (Word(b[3]) << 24)
    else if |b| == 8 then
      Word(b[0]) | (Word(b[1]) << 8) | (Word(b[2]) << 16) | (Word(b[3]) << 24)
      | (Word(b[4]) << 32) | (Word(b[5]) << 40) | (Word(b[6]) << 48) | (Word(b[7]) << 56)
    else 0
  }

  lemma ArithAgrees(op: int, a: bv64, b: bv64)
    requires IsArith(op) && op != 0x7C && op != 0x7E && (op == 0x79 || op == 0x7A ==> b < 64)
    ensures Arith(op, a, b) == StandardArith(op, a, b)
  {
    hide Arith, StandardArith;
    if op == 0x79 {
      ShiftLeftAgrees(a, b);
    } else if op == 0x7A {
      ShiftRightAgrees(a, b);
    } else if op == 0x77 {
      MultiplyAgrees(a, b);
    } else {
      PlainAgrees(op, a, b);
    }
  }

  lemma ShiftLeftAgrees(a: bv64, b: bv64)
    requires b < 64
    ensures Arith(0x79, a, b) == StandardArith(0x79, a, b)
  {
    hide Product, StandardProduct;
    SameLeft(a, b);
  }

  lemma ShiftRightAgrees(a: bv64, b: bv64)
    requires b < 64
    ensures Arith(0x7A, a, b) == StandardArith(0x7A, a, b)
  {
    hide Product, StandardProduct;
    SameRight(a, b);
  }

  lemma SameLeft(a: bv64, b: bv64)
    requires b < 64
    ensures a << (b & 63) == a << b
  {
    assert b & 63 == b;
  }

  lemma SameRight(a: bv64, b: bv64)
    requires b < 64
    ensures a >> (b & 63) == a >> b
  {
    assert b & 63 == b;
  }

  lemma MultiplyAgrees(a: bv64, b: bv64)
    ensures Arith(0x77, a, b) == StandardArith(0x77, a, b)
  {
    assert Product(a, b) == StandardProduct(a, b);
    hide Product, StandardProduct;
  }

  lemma PlainAgrees(op: int, a: bv64, b: bv64)
    requires op in {0x72, 0x74, 0x7B, 0x7D, 0x7F}
    ensures Arith(op, a, b) == StandardArith(op, a, b)
  {
    hide Product, StandardProduct;
  }

  lemma QuotientAgrees(a: bv64, b: bv64)
    ensures Quotient(a, b) == StandardQuotient(a, b)
  {}

  lemma DigitStep(b: seq<Byte>, i: nat)
    requires i <= |b|
    ensures LittleEndian(b[i..]) == if i == |b| then 0 else (LittleEndian(b[i + 1..]) << 8) | Word(b[i])
  {
    if i < |b| { assert b[i..][1..] == b[i + 1..] && b[i..][0] == b[i]; }
  }

  lemma LastDigit(b: seq<Byte>, i: nat)
    requires i + 1 == |b|
    ensures LittleEndian(b[i..]) == Word(b[i])
  {
    hide LittleEndian, Word;
    DigitStep(b, i);
    DigitStep(b, i + 1);
    NothingAbove(Word(b[i]));
  }

  lemma NothingAbove(a: bv64)
    ensures (0 << 8) | a == a
  {}

  lemma JoinTwo(a: bv64, b: bv64)
    ensures (b << 8) | a == a | (b << 8)
  {}

  lemma JoinFour(a: bv64, b: bv64, c: bv64, d: bv64)
    ensures (((((d << 8) | c) << 8) | b) << 8) | a == a | (b << 8) | (c << 16) | (d << 24)
  {}

  lemma JoinEight(a: bv64, b: bv64, c: bv64, d: bv64, e: bv64, f: bv64, g: bv64, h: bv64)
    ensures (((((((((((((h << 8) | g) << 8) | f) << 8) | e) << 8) | d) << 8) | c) << 8) | b) << 8) | a
         == a | (b << 8) | (c << 16) | (d << 24) | (e << 32) | (f << 40) | (g << 48) | (h << 56)
  {}

  lemma NumberIs(b: seq<Byte>)
    requires |b| in {1, 2, 4, 8}
    ensures LittleEndian(b) == Number(b)
  {
    hide LittleEndian, Number;
    if |b| == 1 { OneIs(b); } else if |b| == 2 { TwoIs(b); } else if |b| == 4 { FourIs(b); } else { EightIs(b); }
  }

  lemma OneIs(b: seq<Byte>)
    requires |b| == 1
    ensures LittleEndian(b) == Number(b)
  {
    hide LittleEndian, Word;
    assert b[0..] == b;
    LastDigit(b, 0);
  }

  lemma TwoIs(b: seq<Byte>)
    requires |b| == 2
    ensures LittleEndian(b) == Number(b)
  {
    hide LittleEndian, Word;
    assert b[0..] == b;
    LastDigit(b, 1);
    DigitStep(b, 0);
    JoinTwo(Word(b[0]), Word(b[1]));
  }

  lemma FourIs(b: seq<Byte>)
    requires |b| == 4
    ensures LittleEndian(b) == Number(b)
  {
    hide LittleEndian, Word;
    assert b[0..] == b;
    LastDigit(b, 3);
    DigitStep(b, 0);
    DigitStep(b, 1);
    DigitStep(b, 2);
    JoinFour(Word(b[0]), Word(b[1]), Word(b[2]), Word(b[3]));
  }

  lemma EightIs(b: seq<Byte>)
    requires |b| == 8
    ensures LittleEndian(b) == Number(b)
  {
    hide LittleEndian, Word;
    assert b[0..] == b;
    LastDigit(b, 7);
    DigitStep(b, 0);
    DigitStep(b, 1);
    DigitStep(b, 2);
    DigitStep(b, 3);
    DigitStep(b, 4);
    DigitStep(b, 5);
    DigitStep(b, 6);
    JoinEight(Word(b[0]), Word(b[1]), Word(b[2]), Word(b[3]), Word(b[4]), Word(b[5]), Word(b[6]), Word(b[7]));
  }

  function Remainder(a: bv64, b: bv64): bv64 { if b == 0 then 0 else a % b }

  function NameValue(w: World, seg: Segment): bv64 { if seg in w.names then w.names[seg] else 0 }

  function PutInto(w: World, t: Target, v: bv64): (r: World)
    requires Ok(w) && WfTarget(t)
    ensures Ok(r)
  {
    match t
    case Nowhere => w
    case ToLocal(i) => w.(locals := w.locals[i := v])
    case ToArg(i) => w.(args := w.args[i := v])
    case ToName(seg) => w.(names := w.names[seg := v])
  }

  /** One operation of the specification on the values x and y of its operands. */
  function Specified(e: Expr, x: bv64, y: bv64, w: World): (r: Answer)
    requires Wf(e) && Ok(w)
    ensures Ok(r.world)
  {
    match e
    case ArgVar(i) => Answer(w.args[i], w)
    case Named(seg) => Answer(NameValue(w, seg), w)
    case Store(_, dst) => Answer(x, PutInto(w, dst, x))
    case Compute(op, _, _, dst) => Answer(StandardArith(op, x, y), PutInto(w, dst, StandardArith(op, x, y)))
    case Divide(_, _, rem, quot) =>
      var v := StandardQuotient(x, y);
      Answer(v, PutInto(PutInto(w, rem, Remainder(x, y)), quot, v).(failed := w.failed || y == 0))
    case LocalVar(i) => Answer(w.locals[i], w)
    case _ => Answer(LiteralValue(e), w)
  }

  /** The same operation as the evaluator does it. */
  function Done(e: Expr, x: bv64, y: bv64, w: World): (r: Answer)
    requires Wf(e) && Ok(w)
    ensures Ok(r.world)
  {
    match e
    case ArgVar(_) => Answer(0, w)
    case Named(_) => Answer(0, w)
    case Store(_, dst) => Answer(x, w.(locals := Put(w.locals, dst, x)))
    case Compute(op, _, _, _) => Answer(Arith(op, x, y), w)
    case Divide(_, _, _, _) => Answer(Quotient(x, y), w)
    case LocalVar(i) => Answer(w.locals[i], w)
    case Fixed(op) => Answer(if op == 0x00 then 0 else if op == 0x01 then 1 else 0xFFFF_FFFF_FFFF_FFFF, w)
    case Digits(bytes) => Answer(LittleEndian(bytes), w)
  }

  predicate IsLiteral(e: Expr) { e.Fixed? || e.Digits? }

  /** Zero, One, Ones, and constants. */
  function LiteralValue(e: Expr): bv64 {
    match e
    case Fixed(op) => if op == 0x00 then 0 else if op == 0x01 then 1 else 0xFFFF_FFFF_FFFF_FFFF
    case Digits(bytes) => Number(bytes)
    case _ => 0
  }

  // ---- which operations are done as specified --------------------------------------------------

  predicate IsShift(op: int) { op == 0x79 || op == 0x7A }

  /** A count or divisor that is written out has its own value; any other operand can have any. */
  predicate CanBe(e: Expr, y: bv64) {
    match e
    case Compute(op, _, b, _) => IsShift(op) && IsLiteral(b) ==> y == LiteralValue(b)
    case Divide(_, b, _, _) => IsLiteral(b) ==> y == LiteralValue(b)
    case _ => true
  }

  /** For all operand values, locals, arguments and names. */
  ghost predicate AsSpecified(e: Expr)
    requires Wf(e)
  {
    forall x: bv64, y: bv64, w: World :: Ok(w) && CanBe(e, y) ==> Done(e, x, y, w) == Specified(e, x, y, w)
  }

  /** On the syntax alone. */
  predicate FaithfulOp(e: Expr) {
    match e
    case ArgVar(_) => false
    case Named(_) => false
    case Store(_, dst) => dst.Nowhere? || dst.ToLocal?
    case Compute(op, _, b, dst) =>
      dst.Nowhere? && op != 0x7C && op != 0x7E && (IsShift(op) ==> IsLiteral(b) && LiteralValue(b) < 64)
    case Divide(_, b, rem, quot) => rem.Nowhere? && quot.Nowhere? && IsLiteral(b) && LiteralValue(b) != 0
    case _ => true
  }

  lemma FaithfulIsSpecified(e: Expr, x: bv64, y: bv64, w: World)
    requires Wf(e) && FaithfulOp(e) && Ok(w) && CanBe(e, y)
    ensures Done(e, x, y, w) == Specified(e, x, y, w)
  {
    hide Arith, StandardArith, Quotient, StandardQuotient, LittleEndian, Number, IsArith, Remainder;
    match e
    case Compute(op, _, b, _) => ArithAgrees(op, x, y);
    case Divide(_, _, _, _) => QuotientAgrees(x, y);
    case Digits(bytes) => NumberIs(bytes);
    case _ =>
  }

  function Filled(v: bv64): World { World([v, v, v, v, v, v, v, v], [v, v, v, v, v, v], map[], false) }

  /** An operand pair and a world in which an operation that is not faithful goes wrong. */
  lemma Witness(e: Expr) returns (x: bv64, y: bv64, w: World)
    requires Wf(e) && !FaithfulOp(e)
    ensures Ok(w) && CanBe(e, y) && Done(e, x, y, w) != Specified(e, x, y, w)
  {
    match e
    case ArgVar(i) =>
      x, y, w := 0, 0, Filled(1);
    case Named(seg) =>
      x, y, w := 0, 0, Filled(0).(names := map[seg := 1]);
    case Store(_, dst) =>
      x, y, w := 1, 0, Filled(0);
      StoreDiffers(w, dst, x);
    case Compute(op, _, b, dst) => x, y, w := ComputeWitness(op, b, dst, e);
    case Divide(_, b, rem, quot) => x, y, w := DivideWitness(b, rem, quot, e);
  }

  lemma StoreDiffers(w: World, t: Target, v: bv64)
    requires Ok(w) && WfTarget(t) && !t.Nowhere? && !t.ToLocal?
    requires w.names == map[] && forall i :: 0 <= i < 6 ==> w.args[i] != v
    ensures PutInto(w, t, v).args != w.args || PutInto(w, t, v).names != w.names
  {
    match t
    case ToArg(i) => assert PutInto(w, t, v).args[i] == v;
    case ToName(seg) => assert seg in PutInto(w, t, v).names;
    case _ =>
  }

  /** Putting a value that is nowhere yet changes the world. */
  lemma PutDiffers(u: bv64, t: Target, v: bv64)
    requires WfTarget(t) && !t.Nowhere? && u != v
    ensures PutInto(Filled(u), t, v) != Filled(u)
  {
    match t
    case ToLocal(i) => assert PutInto(Filled(u), t, v).locals[i] == v;
    case ToArg(i) => assert PutInto(Filled(u), t, v).args[i] == v;
    case ToName(seg) => assert seg in PutInto(Filled(u), t, v).names;
  }

  lemma Other(v: bv64) returns (u: bv64)
    ensures u != v
  {
    u := if v == 0 then 1 else 0;
  }

  lemma ComputeWitness(op: Byte, b: Expr, dst: Target, e: Expr) returns (x: bv64, y: bv64, w: World)
    requires e.Compute? && e.op == op && e.b == b && e.dst == dst && Wf(e) && !FaithfulOp(e)
    ensures Ok(w) && CanBe(e, y) && Done(e, x, y, w) != Specified(e, x, y, w)
  {
    x, y := ComputeOperands(op, b);
    var u := Other(StandardArith(op, x, y));
    w := Filled(u);
    if !dst.Nowhere? {
      PutDiffers(u, dst, StandardArith(op, x, y));
    }
    hide Arith, StandardArith, LittleEndian, IsArith;
  }

  /** Operand values for which the operation itself is wrong, where that can happen. */
  lemma ComputeOperands(op: Byte, b: Expr) returns (x: bv64, y: bv64)
    requires IsArith(op)
    ensures IsShift(op) && IsLiteral(b) ==> y == LiteralValue(b)
    ensures op == 0x7C || op == 0x7E || (IsShift(op) && !(IsLiteral(b) && LiteralValue(b) < 64)) ==>
      Arith(op, x, y) != StandardArith(op, x, y)
  {
    if IsShift(op) {
      x, y := 0xFFFF_FFFF_FFFF_FFFF, if IsLiteral(b) then LiteralValue(b) else 64;
      ShiftKeepsOnes(y);
    } else {
      x, y := 0, 0;
    }
    hide LittleEndian, LiteralValue;
  }

  lemma ShiftKeepsOnes(y: bv64)
    ensures Arith(0x79, 0xFFFF_FFFF_FFFF_FFFF, y) != 0 && Arith(0x7A, 0xFFFF_FFFF_FFFF_FFFF, y) != 0
  {}

  lemma DivideWitness(b: Expr, rem: Target, quot: Target, e: Expr) returns (x: bv64, y: bv64, w: World)
    requires e.Divide? && e.b == b && e.rem == rem && e.quot == quot && Wf(e) && !FaithfulOp(e)
    ensures Ok(w) && CanBe(e, y) && Done(e, x, y, w) != Specified(e, x, y, w)
  {
    hide LiteralValue, Quotient, StandardQuotient, Remainder;
    x, y := 0, if IsLiteral(b) then LiteralValue(b) else 0;
    w := Filled(1);
    ZeroDividend(y);
    if y != 0 {
      DivideWrites(rem, quot);
    }
  }

  lemma ZeroDividend(y: bv64)
    ensures Quotient(0, y) == 0 && StandardQuotient(0, y) == 0 && Remainder(0, y) == 0
  {}

  lemma DivideWrites(rem: Target, quot: Target)
    requires WfTarget(rem) && WfTarget(quot) && !(rem.Nowhere? && quot.Nowhere?)
    ensures PutInto(PutInto(Filled(1), rem, 0), quot, 0) != Filled(1)
  {
    var w, w1 := Filled(1), PutInto(Filled(1), rem, 0);
    if !quot.Nowhere? {
      match quot
      case ToLocal(i) => assert PutInto(w1, quot, 0).locals[i] == 0;
      case ToArg(i) => assert PutInto(w1, quot, 0).args[i] == 0;
      case ToName(seg) => assert seg in PutInto(w1, quot, 0).names;
    } else {
      PutDiffers(1, rem, 0);
    }
  }

  /** One operation is done as specified, whatever it is given, if and only if its syntax says so. */
  lemma OperationIff(e: Expr)
    requires Wf(e)
    ensures AsSpecified(e) <==> FaithfulOp(e)
  {
    hide Done, Specified, CanBe, Ok;
    if FaithfulOp(e) {
      forall x: bv64, y: bv64, w: World | Ok(w) && CanBe(e, y) ensures Done(e, x, y, w) == Specified(e, x, y, w) {
        FaithfulIsSpecified(e, x, y, w);
      }
    } else {
      var x, y, w := Witness(e);
    }
  }

  // ---- expressions ----------------------------------------------------------------------------------

  predicate Faithful(e: Expr) {
    && FaithfulOp(e)
    && match e
       case Store(src, _) => Faithful(src)
       case Compute(_, a, b, _) => Faithful(a) && Faithful(b)
       case Divide(a, b, _, _) => Faithful(a) && Faithful(b)
       case _ => true
  }

  ghost predicate AllAsSpecified(e: Expr)
    requires Wf(e)
  {
    && AsSpecified(e)
    && match e
       case Store(src, _) => AllAsSpecified(src)
       case Compute(_, a, b, _) => AllAsSpecified(a) && AllAsSpecified(b)
       case Divide(a, b, _, _) => AllAsSpecified(a) && AllAsSpecified(b)
       case _ => true
  }

  /**
   Every operation of an expression is done as specified, for all operand
   values, locals, arguments and names, if and only if the expression is
   faithful: it reads no name or argument, stores only into locals, lets
   arithmetic store nowhere, uses neither NAnd nor NOr, and writes out its shift
   counts, below 64, and its divisors, not 0.
   */
  lemma {:induction false} FaithfulIff(e: Expr)
    requires Wf(e)
    ensures AllAsSpecified(e) <==> Faithful(e)
  {
    hide AsSpecified, FaithfulOp, IsArith;
    OperationIff(e);
    match e
    case Store(src, _) => FaithfulIff(src);
    case Compute(_, a, b, _) => FaithfulIff(a); FaithfulIff(b);
    case Divide(a, b, _, _) => FaithfulIff(a); FaithfulIff(b);
    case _ =>
  }

  /** The specified value of an expression, its operands evaluated in order. */
  function Standard(e: Expr, w: World): (r: Answer)
    requires Wf(e) && Ok(w)
    ensures Ok(r.world)
  {
    match e
    case Store(src, _) =>
      var x := Standard(src, w);
      Specified(e, x.value, 0, x.world)
    case Compute(_, a, b, _) =>
      var x := Standard(a, w);
      var y := Standard(b, x.world);
      Specified(e, x.value, y.value, y.world)
    case Divide(a, b, _, _) =>
      var x := Standard(a, w);
      var y := Standard(b, x.world);
      Specified(e, x.value, y.value, y.world)
    case _ => Specified(e, 0, 0, w)
  }

  /** The same with each operation as the evaluator does it. */
  function Evaluated(e: Expr, w: World): (r: Answer)
    requires Wf(e) && Ok(w)
    ensures Ok(r.world)
  {
    match e
    case Store(src, _) =>
      var x := Evaluated(src, w);
      Done(e, x.value, 0, x.world)
    case Compute(_, a, b, _) =>
      var x := Evaluated(a, w);
      var y := Evaluated(b, x.world);
      Done(e, x.value, y.value, y.world)
    case Divide(a, b, _, _) =>
      var x := Evaluated(a, w);
      var y := Evaluated(b, x.world);
      Done(e, x.value, y.value, y.world)
    case _ => Done(e, 0, 0, w)
  }

  /** Those are the evaluator's operations: together they are the interpretation its bytes run to. */
  lemma {:induction false} InterpretIsDone(e: Expr, w: World)
    requires Wf(e) && Ok(w)
    ensures var r := Interpret(e, w.locals); Evaluated(e, w) == Answer(r.value, w.(locals := r.locals))
  {
    hide Interpret, Arith, Quotient, IsArith, LittleEndian;
    match e
    case Store(src, dst) =>
      InterpretIsDone(src, w);
      InterpretStore(src, dst, w.locals);
    case Compute(op, a, b, dst) =>
      InterpretIsDone(a, w);
      InterpretIsDone(b, w.(locals := Interpret(a, w.locals).locals));
      InterpretCompute(op, a, b, dst, w.locals);
    case Divide(a, b, rem, quot) =>
      InterpretIsDone(a, w);
      InterpretIsDone(b, w.(locals := Interpret(a, w.locals).locals));
      InterpretDivide(a, b, rem, quot, w.locals);
    case _ => LeafIsDone(e, w);
  }

  lemma LeafIsDone(e: Expr, w: World)
    requires Wf(e) && IsLeaf(e) && Ok(w)
    ensures var r := Interpret(e, w.locals); Done(e, 0, 0, w) == Answer(r.value, w.(locals := r.locals))
  {
    hide LittleEndian;
  }

  /** The evaluator gives the specified value, and leaves the world as specified. */
  predicate Agrees(e: Expr, w: World)
    requires Wf(e) && Ok(w)
  {
    var r := Interpret(e, w.locals);
    Standard(e, w) == Answer(r.value, w.(locals := r.locals))
  }

  lemma LiteralIs(e: Expr, w: World)
    requires Wf(e) && Ok(w) && IsLiteral(e)
    ensures Standard(e, w).value == LiteralValue(e)
  {}

  lemma LeafAgrees(e: Expr, w: World)
    requires Wf(e) && IsLeaf(e) && FaithfulOp(e) && Ok(w)
    ensures Agrees(e, w)
  {
    hide LittleEndian, Number;
    if e.Digits? { NumberIs(e.bytes); }
  }

  lemma StoreAgrees(e: Expr, w: World)
    requires e.Store? && Wf(e) && FaithfulOp(e) && Ok(w) && Agrees(e.src, w)
    ensures Agrees(e, w)
  {
    InterpretStore(e.src, e.dst, w.locals);
    hide Interpret;
  }

  lemma ComputeAgrees(e: Expr, w: World)
    requires e.Compute? && Wf(e) && FaithfulOp(e) && Ok(w) && Agrees(e.a, w)
    requires var l := Interpret(e.a, w.locals).locals; Agrees(e.b, w.(locals := l))
    ensures Agrees(e, w)
  {
    hide Interpret, Arith, StandardArith, Specified, IsArith, LittleEndian, LiteralValue;
    InterpretCompute(e.op, e.a, e.b, e.dst, w.locals);
    var x := Standard(e.a, w);
    var y := Standard(e.b, x.world);
    if IsLiteral(e.b) { LiteralIs(e.b, x.world); }
    FaithfulIsSpecified(e, x.value, y.value, y.world);
  }

  lemma DivideAgrees(e: Expr, w: World)
    requires e.Divide? && Wf(e) && FaithfulOp(e) && Ok(w) && Agrees(e.a, w)
    requires var l := Interpret(e.a, w.locals).locals; Agrees(e.b, w.(locals := l))
    ensures Agrees(e, w)
  {
    hide Interpret, Quotient, Specified, LittleEndian, LiteralValue;
    InterpretDivide(e.a, e.b, e.rem, e.quot, w.locals);
    var x := Standard(e.a, w);
    var y := Standard(e.b, x.world);
    if IsLiteral(e.b) { LiteralIs(e.b, x.world); }
    FaithfulIsSpecified(e, x.value, y.value, y.world);
  }

  /** A faithful expression is evaluated as specified in every world. */
  lemma {:induction false} FaithfulExpr(e: Expr, w: World)
    requires Wf(e) && Faithful(e) && Ok(w)
    ensures Agrees(e, w)
  {
    hide Agrees, FaithfulOp, Interpret, IsArith;
    match e
    case Store(src, _) =>
      FaithfulExpr(src, w);
      StoreAgrees(e, w);
    case Compute(_, a, b, _) =>
      FaithfulExpr(a, w);
      FaithfulExpr(b, w.(locals := Interpret(a, w.locals).locals));
      ComputeAgrees(e, w);
    case Divide(a, b, _, _) =>
      FaithfulExpr(a, w);
      FaithfulExpr(b, w.(locals := Interpret(a, w.locals).locals));
      DivideAgrees(e, w);
    case _ => LeafAgrees(e, w);
  }

  /** A value can come out right although an operation under it is wrong: And(name, 0) is 0 in every world. */
  lemma MaskedName(seg: Segment, w: World)
    requires IsLead(seg[0]) && Ok(w)
    ensures var e := Compute(0x7B, Named(seg), Fixed(0x00), Nowhere);
      Wf(e) && !Faithful(e) && Agrees(e, w)
  {}

  // ---- method bodies ----------------------------------------------------------------------

  function StandardList(es: seq<Expr>, w: World): (r: (seq<bv64>, World))
    requires AllWf(es) && Ok(w)
    ensures Ok(r.1)
  {
    if es == [] then ([], w)
    else
      var x := Standard(es[0], w);
      var (values, after) := StandardList(es[1..], x.world);
      ([x.value] + values, after)
  }

  /** What a statement does, and the value if it returns. */
  datatype Course = Onward(world: World) | Ended(value: Value, world: World)

  /** The statements without blocks inside. */
  predicate Straight(t: Stmt) { !t.If? && !t.IfElse? && !t.While? }

  predicate AllStraight(body: seq<Stmt>) { forall i :: 0 <= i < |body| ==> Straight(body[i]) }

  function StandardStmt(t: Stmt, w: World): (r: Course)
    requires WfStmt(t) && Straight(t) && Ok(w)
    ensures Ok(r.world)
  {
    match t
    case Do(e) => Onward(Standard(e, w).world)
    case Increment(i) => Onward(w.(locals := w.locals[i := w.locals[i] + 1]))
    case Decrement(i) => Onward(w.(locals := w.locals[i := w.locals[i] - 1]))
    case Return(e) =>
      var r := Standard(e, w);
      Ended(Integer(r.value), r.world)
    case ReturnPackage(elems) =>
      var r := StandardList(elems, w);
      Ended(Package(r.0), r.1)
  }

  function StandardRun(body: seq<Stmt>, w: World): Course
    requires WfBody(body) && AllStraight(body) && Ok(w)
  {
    if body == [] then Ended(Invalid, w)
    else
      match StandardStmt(body[0], w)
      case Onward(w1) => StandardRun(body[1..], w1)
      case Ended(v, w1) => Ended(v, w1)
  }

  predicate FaithfulList(es: seq<Expr>) { forall i :: 0 <= i < |es| ==> Faithful(es[i]) }

  predicate FaithfulStmt(t: Stmt) {
    match t
    case Do(e) => Faithful(e)
    case Return(e) => Faithful(e)
    case ReturnPackage(elems) => FaithfulList(elems) && |elems| <= 16
    case _ => Straight(t)
  }

  predicate FaithfulBody(body: seq<Stmt>) { forall i :: 0 <= i < |body| ==> FaithfulStmt(body[i]) && Straight(body[i]) }

  /** Two worlds that differ in their locals only. */
  predicate SameOutside(w: World, v: World) { w.args == v.args && w.names == v.names && w.failed == v.failed }

  lemma {:induction false} FaithfulElements(es: seq<Expr>, w: World)
    requires AllWf(es) && FaithfulList(es) && Ok(w)
    ensures var r := InterpretList(es, w.locals); StandardList(es, w) == (r.0, w.(locals := r.1))
  {
    hide Interpret, Standard, Wf, Faithful;
    if es != [] {
      FaithfulExpr(es[0], w);
      FaithfulElements(es[1..], w.(locals := Interpret(es[0], w.locals).locals));
    }
  }

  lemma FaithfulStep(t: Stmt, w: World)
    requires WfStmt(t) && FaithfulStmt(t) && Ok(w)
    ensures SameOutside(StandardStmt(t, w).world, w)
    ensures match Perform(t, w.locals)
      case Continue(l) => StandardStmt(t, w) == Onward(w.(locals := l))
      case Returned(v) => StandardStmt(t, w).Ended? && StandardStmt(t, w).value == v
  {
    hide Interpret, Standard, Wf, Faithful, InterpretList, StandardList, ListBytes;
    match t
    case Do(e) => FaithfulExpr(e, w);
    case Return(e) => FaithfulExpr(e, w);
    case ReturnPackage(elems) => FaithfulElements(elems, w);
    case _ =>
  }

  lemma {:induction false} FaithfulRun(body: seq<Stmt>, w: World)
    requires WfBody(body) && FaithfulBody(body) && Ok(w)
    ensures StandardRun(body, w).Ended? && StandardRun(body, w).value == Meaning(body, w.locals)
    ensures SameOutside(StandardRun(body, w).world, w)
    decreases |body|
  {
    hide Perform, StandardStmt, WfStmt, FaithfulStmt, Straight;
    if body != [] {
      FaithfulStep(body[0], w);
      var r := StandardStmt(body[0], w);
      if r.Onward? { FaithfulRun(body[1..], r.world); }
    }
  }

  /**
   A method written without what the evaluator ignores runs, from its bytes, to
   the value the specification gives it, whatever arguments and names there are;
   and the specification has it change none of them.
   */
  lemma StandardMethod(body: seq<Stmt>, w: World)
    requires WfBody(body) && FaithfulBody(body) && |BodyBytes(body)| <= 0xF000_0000 && Ok(w) && w.locals == START.locals
    ensures StandardRun(body, w).Ended? && RunMethod(BodyBytes(body)) == StandardRun(body, w).value
    ensures SameOutside(StandardRun(body, w).world, w)
  {
    hide RunMethod, StandardRun, Meaning, BodyBytes;
    MethodMeaning(body);
    FaithfulRun(body, w);
  }

  // ---- conditionals and loops ---------------------------------------------------------------

  /** A method with each conditional cut down to its condition and each loop left out. */
  function Stripped(body: seq<Stmt>): (r: seq<Stmt>)
    requires WfBody(body)
    ensures WfBody(r) && AllStraight(r)
  {
    if body == [] then []
    else
      var rest := Stripped(body[1..]);
      match body[0]
      case If(cond, _) => [Do(cond)] + rest
      case IfElse(cond, _, _) => [Do(cond)] + rest
      case While(_) => rest
      case t => [t] + rest
  }

  lemma {:induction false} StrippedMeans(body: seq<Stmt>, l: seq<bv64>)
    requires WfBody(body) && |l| == 8
    ensures Meaning(body, l) == Meaning(Stripped(body), l)
    decreases |body|
  {
    hide Interpret, InterpretList, Wf, Bytes, ListBytes;
    if body != [] {
      var rest := Stripped(body[1..]);
      var r := Perform(body[0], l);
      if r.Continue? { StrippedMeans(body[1..], r.locals); }
      var t := match body[0]
        case If(cond, _) => Do(cond)
        case IfElse(cond, _, _) => Do(cond)
        case t => t;
      assert ([t] + rest)[0] == t && ([t] + rest)[1..] == rest;
    }
  }

  /**
   Any method whatever its branches and loops hold: from its bytes it runs to
   the value the specification gives to the method with the branches and loops
   taken away, if what is left is faithful.
   */
  lemma StrippedMethod(body: seq<Stmt>, w: World)
    requires WfBody(body) && |BodyBytes(body)| <= 0xF000_0000 && Ok(w) && w.locals == START.locals
    requires FaithfulBody(Stripped(body))
    ensures StandardRun(Stripped(body), w).Ended?
    ensures RunMethod(BodyBytes(body)) == StandardRun(Stripped(body), w).value
  {
    hide RunMethod, StandardRun, Meaning, BodyBytes, Stripped;
    MethodMeaning(body);
    StrippedMeans(body, w.locals);
    FaithfulRun(Stripped(body), w);
  }

  /** If (One) { Return (One) } returns nothing; the specification returns 1. */
  lemma BranchIgnored(w: World)
    requires Ok(w) && w.locals == START.locals
    ensures var inner := [Return(Fixed(0x01))];
      var body := [If(Fixed(0x01), BodyBytes(inner))];
      && WfBody(body) && RunMethod(BodyBytes(body)) == Invalid
      && StandardRun(inner, w) == Ended(Integer(1), w)
  {
    var inner := [Return(Fixed(0x01))];
    assert inner[1..] == [];
    assert BodyBytes(inner) == [0xA4, 0x01];
    var body := [If(Fixed(0x01), BodyBytes(inner))];
    assert body[1..] == [];
    assert BodyBytes(body) == StmtBytes(body[0]);
    MethodMeaning(body);
  }

  // ---- what goes wrong ----------------------------------------------------------------------

  /** Add(1, 1, Local0) leaves Local0 alone; the specification stores 2. */
  lemma AddTargetIgnored(w: World)
    requires Ok(w) && w.locals[0] == 0
    ensures var e := Compute(0x72, Fixed(0x01), Fixed(0x01), ToLocal(0));
      Wf(e) && Interpret(e, w.locals).locals[0] == 0 && Standard(e, w).world.locals[0] == 2
  {
    var one: bv64 := 1;
    assert Sum(one, one) == 2;
  }

  /** A _BST that returns the values of names reports zeros, whatever the names hold. */
  lemma NamesReportZero(seg: Segment, n: nat, l: seq<bv64>)
    requires IsLead(seg[0]) && |l| == 8
    ensures AllWf(seq(n, i => Named(seg)))
    ensures InterpretList(seq(n, i => Named(seg)), l).0 == seq(n, i => 0 as bv64)
  {
    var es := seq(n, i => Named(seg));
    if n > 0 {
      NamesReportZero(seg, n - 1, l);
      assert es[1..] == seq(n - 1, i => Named(seg));
      assert seq(n, i => 0 as bv64) == [0] + seq(n - 1, i => 0 as bv64);
    }
  }
}
