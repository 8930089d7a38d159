/**
 The part of the AML grammar a battery method is written in, and its byte
 encoding: what the scanner has to step over and the evaluator to evaluate.
 */
module AmlSyntax {
  import opened AmlBytes
  import opened AmlEval
  import Division

  datatype Target = Nowhere | ToLocal(i: nat) | ToArg(i: nat) | ToName(seg: Segment)

  datatype Expr =
    | Fixed(op: Byte)
    | Digits(bytes: seq<Byte>)
    | LocalVar(i: nat)
    | ArgVar(i: nat)
    | Named(seg: Segment)
    | Store(src: Expr, dst: Target)
    | Compute(op: Byte, a: Expr, b: Expr, dst: Target)
    | Divide(a: Expr, b: Expr, rem: Target, quot: Target)

  /** Branches and loops hold any bytes: the evaluator does not look at them. */
  datatype Stmt =
    | Do(e: Expr)
    | Increment(i: nat)
    | Decrement(i: nat)
    | Return(e: Expr)
    | ReturnPackage(elems: seq<Expr>)
    | If(cond: Expr, yes: seq<Byte>)
    | IfElse(cond: Expr, yes: seq<Byte>, no: seq<Byte>)
    | While(content: seq<Byte>)

  // ---- well-formed syntax and its bytes -------------------------------------------------------

  predicate WfTarget(t: Target) {
    match t
    case Nowhere => true
    case ToLocal(i) => i < 8
    case ToArg(i) => i < 6
    case ToName(seg) => IsLead(seg[0])
  }

  predicate Wf(e: Expr) {
    match e
    case Fixed(op) => op in {0x00, 0x01, 0xFF}
    case Digits(bytes) => |bytes| in {1, 2, 4, 8}
    case LocalVar(i) => i < 8
    case ArgVar(i) => i < 6
    case Named(seg) => IsLead(seg[0])
    case Store(src, dst) => Wf(src) && WfTarget(dst)
    case Compute(op, a, b, dst) => IsArith(op) && Wf(a) && Wf(b) && WfTarget(dst)
    case Divide(a, b, rem, quot) => Wf(a) && Wf(b) && WfTarget(rem) && WfTarget(quot)
  }

  function TargetBytes(t: Target): (r: seq<Byte>)
    requires WfTarget(t)
    ensures r != []
  {
    match t
    case Nowhere => [0x00]
    case ToLocal(i) => [0x60 + i]
    case ToArg(i) => [0x68 + i]
    case ToName(seg) => seg
  }

  function DigitsOp(w: nat): Byte
    requires w in {1, 2, 4, 8}
  {
    if w == 1 then 0x0A else if w == 2 then 0x0B else if w == 4 then 0x0C else 0x0E
  }

  function Bytes(e: Expr): (r: seq<Byte>)
    requires Wf(e)
    ensures r != []
  {
    match e
    case Fixed(op) => [op]
    case Digits(bytes) => [DigitsOp(|bytes|)] + bytes
    case LocalVar(i) => [0x60 + i]
    case ArgVar(i) => [0x68 + i]
    case Named(seg) => seg
    case Store(src, dst) => [0x70] + Bytes(src) + TargetBytes(dst)
    case Compute(op, a, b, dst) => [op] + Bytes(a) + Bytes(b) + TargetBytes(dst)
    case Divide(a, b, rem, quot) => [0x78] + Bytes(a) + Bytes(b) + TargetBytes(rem) + TargetBytes(quot)
  }

  predicate AllWf(es: seq<Expr>) { forall i :: 0 <= i < |es| ==> Wf(es[i]) }

  function ListBytes(es: seq<Expr>): seq<Byte>
    requires AllWf(es)
  {
    if es == [] then [] else Bytes(es[0]) + ListBytes(es[1..])
  }

  predicate Fits(n: nat) { n + 4 < 0x1000_0000 }

  /** The length field of a package with n bytes of content; the length counts the field too. */
  function LengthField(n: nat): (r: seq<Byte>)
    requires Fits(n)
    ensures 1 <= |r| <= 4
  {
    if n + 1 < 0x40 then [n + 1]
    else if n + 2 < 0x1000 then [0x40 + (n + 2) % 0x10, (n + 2) / 0x10]
    else if n + 3 < 0x10_0000 then [0x80 + (n + 3) % 0x10, (n + 3) / 0x10 % 0x100, (n + 3) / 0x1000]
    else [0xC0 + (n + 4) % 0x10, (n + 4) / 0x10 % 0x100, (n + 4) / 0x1000 % 0x100, (n + 4) / 0x10_0000]
  }

  function BlockBytes(content: seq<Byte>): seq<Byte>
    requires Fits(|content|)
  {
    LengthField(|content|) + content
  }

  predicate WfStmt(t: Stmt) {
    match t
    case Do(e) => Wf(e)
    case Increment(i) => i < 8
    case Decrement(i) => i < 8
    case Return(e) => Wf(e)
    case ReturnPackage(elems) => |elems| < 256 && AllWf(elems) && Fits(|ListBytes(elems)| + 1)
    case If(cond, yes) => Wf(cond) && Fits(|Bytes(cond) + yes|)
    case IfElse(cond, yes, no) => Wf(cond) && Fits(|Bytes(cond) + yes|) && Fits(|no|)
    case While(content) => Fits(|content|)
  }

  function PackageBytes(elems: seq<Expr>): seq<Byte>
    requires |elems| < 256 && AllWf(elems) && Fits(|ListBytes(elems)| + 1)
  {
    [0x12] + LengthField(|ListBytes(elems)| + 1) + [|elems|] + ListBytes(elems)
  }

  function StmtBytes(t: Stmt): (r: seq<Byte>)
    requires WfStmt(t)
    ensures r != []
  {
    match t
    case Do(e) => Bytes(e)
    case Increment(i) => [0x75, 0x60 + i]
    case Decrement(i) => [0x76, 0x60 + i]
    case Return(e) => [0xA4] + Bytes(e)
    case ReturnPackage(elems) => [0xA4] + PackageBytes(elems)
    case If(cond, yes) => [0xA0] + BlockBytes(Bytes(cond) + yes)
    case IfElse(cond, yes, no) => [0xA0] + BlockBytes(Bytes(cond) + yes) + ([0xA1] + BlockBytes(no))
    case While(content) => [0xA2] + BlockBytes(content)
  }

  // ---- finding an encoding in a span --------------------------------------------------------------

  /** The bytes stand in the span from p on. */
  predicate Has(s: Span, p: nat, bytes: seq<Byte>) { p + |bytes| <= |s| && s[p..p + |bytes|] == bytes }

  lemma HasParts(s: Span, p: nat, a: seq<Byte>, b: seq<Byte>)
    requires Has(s, p, a + b)
    ensures Has(s, p, a) && Has(s, p + |a|, b)
  {
    var whole := s[p..p + |a + b|];
    assert whole[..|a|] == a && whole[|a|..] == b;
    assert s[p..p + |a|] == whole[..|a|];
    assert s[p + |a|..p + |a| + |b|] == whole[|a|..];
  }

  lemma HasThree(s: Span, p: nat, a: seq<Byte>, b: seq<Byte>, c: seq<Byte>)
    requires Has(s, p, a + b + c)
    ensures Has(s, p, a) && Has(s, p + |a|, b) && Has(s, p + |a| + |b|, c)
  {
    HasParts(s, p, a + b, c);
    hide Has;
    HasParts(s, p, a, b);
  }

  lemma HasFour(s: Span, p: nat, a: seq<Byte>, b: seq<Byte>, c: seq<Byte>, d: seq<Byte>)
    requires Has(s, p, a + b + c + d)
    ensures Has(s, p, a) && Has(s, p + |a|, b) && Has(s, p + |a| + |b|, c) && Has(s, p + |a| + |b| + |c|, d)
  {
    HasParts(s, p, a + b + c, d);
    hide Has;
    HasThree(s, p, a, b, c);
  }

  lemma HasAt(s: Span, p: nat, bytes: seq<Byte>, i: nat)
    requires Has(s, p, bytes) && i < |bytes|
    ensures p + i < |s| && s[p + i] == bytes[i]
  {
    assert s[p..p + |bytes|][i] == s[p + i];
  }

  /** The length field read back: it ends where it should, and so does the package. */
  lemma LengthFieldReads(s: Span, p: nat, n: nat)
    requires Fits(n) && Has(s, p, LengthField(n)) && p + |LengthField(n)| + n <= |s|
    ensures PkgNext(s, p) == p + |LengthField(n)|
    ensures Jump(s, p) == p + |LengthField(n)| + n
  {
    var f := LengthField(n);
    HasAt(s, p, f, 0);
    if |f| == 1 {
    } else if |f| == 2 {
      HasAt(s, p, f, 1);
      TwoByteField(s, p, n + 2);
    } else if |f| == 3 {
      HasAt(s, p, f, 1);
      HasAt(s, p, f, 2);
      ThreeByteField(s, p, n + 3);
    } else {
      HasAt(s, p, f, 1);
      HasAt(s, p, f, 2);
      HasAt(s, p, f, 3);
      FourByteField(s, p, n + 4);
    }
    hide LengthField, PkgLength, PkgNext;
    PkgEndForward(s, p);
  }

  lemma BlockReads(s: Span, p: nat, content: seq<Byte>)
    requires Fits(|content|) && Has(s, p, BlockBytes(content))
    ensures Jump(s, p) == p + |BlockBytes(content)| == PkgNext(s, p) + |content|
    ensures Has(s, PkgNext(s, p), content)
    ensures p < |s| && p + |BlockBytes(content)| <= |s|
  {
    hide LengthField, Jump, PkgNext;
    HasParts(s, p, LengthField(|content|), content);
    LengthFieldReads(s, p, |content|);
  }

  /** A first byte with the count k in its top two bits and a nibble below. */
  lemma FirstByte(b: Byte, k: nat, low: nat)
    requires b == k * 0x40 + low && low < 0x10 && k < 4
    ensures b / 64 == k && b % 16 == low
  {
  }

  lemma TwoByteField(s: Span, p: nat, len: nat)
    requires p + 1 < |s| && len < 0x1000 && s[p] == 0x40 + len % 0x10 && s[p + 1] == len / 0x10
    ensures PkgLength(s, p) == len && PkgNext(s, p) == p + 2
  {
    FirstByte(s[p], 1, len % 0x10);
  }

  lemma ThreeByteField(s: Span, p: nat, len: nat)
    requires p + 2 < |s| && len < 0x10_0000 && s[p] == 0x80 + len % 0x10
    requires s[p + 1] == len / 0x10 % 0x100 && s[p + 2] == len / 0x1000
    ensures PkgLength(s, p) == len && PkgNext(s, p) == p + 3
  {
    FirstByte(s[p], 2, len % 0x10);
    FieldDigits(len);
  }

  lemma FourByteField(s: Span, p: nat, len: nat)
    requires p + 3 < |s| && len < 0x1000_0000 && s[p] == 0xC0 + len % 0x10
    requires s[p + 1] == len / 0x10 % 0x100 && s[p + 2] == len / 0x1000 % 0x100 && s[p + 3] == len / 0x10_0000
    ensures PkgLength(s, p) == len && PkgNext(s, p) == p + 4
  {
    FirstByte(s[p], 3, len % 0x10);
    FieldDigits(len);
  }

  lemma FieldDigits(len: nat)
    requires len < 0x1000_0000
    ensures len == len % 0x10 + len / 0x10 % 0x100 * 0x10 + len / 0x1000 % 0x100 * 0x1000 + len / 0x10_0000 * 0x10_0000
    ensures len < 0x10_0000 ==> len / 0x1000 % 0x100 == len / 0x1000 && len / 0x10_0000 == 0
  {
    var q := len / 0x10;
    var r := q / 0x100;
    Division.Unique(len, 0x1000, r, q % 0x100 * 0x10 + len % 0x10);
    Division.Unique(len, 0x10_0000, r / 0x100, r % 0x100 * 0x1000 + len % 0x1000);
  }
}
