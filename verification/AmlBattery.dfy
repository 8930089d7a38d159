/** What aml.c reports of a battery, from the bytes of a table to the numbers of _BST and _BIF. */
module AmlBattery {
  import opened Options
  import opened AmlBytes
  import opened AmlScan
  import opened AmlEval
  import opened AmlSyntax
  import opened AmlMeaning
  import opened AmlTree
  import opened AmlTreeScan
  import AmlEvaluator
  import AmlStandard

  // ---- recorded code -----------------------------------------------------------------------

  predicate Inside(table: Span, code: Code) { code.start + code.length <= |table| }

  /** A recorded body lies in its table exactly when its name and flags end before its package does. */
  lemma RecordedInsideIff(s: Span, q: nat, table: nat)
    requires q < |s|
    ensures var code := MethodCode(s, q, table).1;
      Inside(s, code) <==> code.start <= Jump(s, q)
  {
    hide NameEnd, NameSegment, PkgNext, Jump;
    var start := NameEnd(s, PkgNext(s, q)) + 1;
    WrappedDifference(Jump(s, q), start);
  }

  lemma WrappedDifference(end: nat, start: nat)
    requires end < 0x1_0000_0000 && start < 0x1_0000_0000
    ensures (end - start) % 0x1_0000_0000 == if start <= end then end - start else end - start + 0x1_0000_0000
  {
  }

  /** A method whose package length is 0: the recorded length is close to 2^32. */
  lemma ShortPackage()
    ensures var s: Span := [0x14, 0x00, 0x5F, 0x42, 0x53, 0x54, 0x00];
      var (g, code) := MethodCode(s, 1, 0);
      IsBst(g) && code.start == 7 && code.length == 0xFFFF_FFFA && !Inside(s, code)
  {
    var s: Span := [0x14, 0x00, 0x5F, 0x42, 0x53, 0x54, 0x00];
    NameReads(s, 2, [0x5F, 0x42, 0x53, 0x54]);
    WrappedDifference(1, 7);
  }

  // ---- hardware ids ----------------------------------------------------------------------------

  /** The four bytes of an EISA id of three letters and two bytes of product number. */
  function EisaId(a: int, b: int, c: int, high: Byte, low: Byte): seq<int> {
    var x, y, z := a - 0x40, b - 0x40, c - 0x40;
    [x * 4 + y / 8, y % 8 * 32 + z, high, low]
  }

  /** The EISA id of PNP0C0A is not the number the scanner looks for. */
  lemma EisaIdNotMatched(s: Span, v: nat)
    requires Has(s, v, [0x0C, 0x41, 0xD0, 0x0C, 0x0A])
    ensures EisaId(0x50, 0x4E, 0x50, 0x0C, 0x0A) == [0x41, 0xD0, 0x0C, 0x0A]
    ensures !BatteryId(s, v)
  {
    HasAt(s, v, [0x0C, 0x41, 0xD0, 0x0C, 0x0A], 0);
    HasAt(s, v, [0x0C, 0x41, 0xD0, 0x0C, 0x0A], 2);
    assert v + 5 <= |s| && s[v + 1..v + 5][1] == s[v + 2];
  }

  // ---- reports -----------------------------------------------------------------------------------

  /** aml_bst */
  datatype Bst = Bst(state: bv64, rate: bv64, remaining: bv64, voltage: bv64)

  /** aml_bif */
  datatype Bif = Bif(powerUnit: bv64, designCapacity: bv64, fullCapacity: bv64, designVoltage: bv64)

  /** The low 32 bits. */
  function Low(v: bv64): bv64 { v & 0xFFFF_FFFF }

  function BstReport(v: Value): Option<Bst> {
    if v.Package? && |v.elems| >= 4 then Some(Bst(Low(v.elems[0]), Low(v.elems[1]), Low(v.elems[2]), Low(v.elems[3])))
    else None
  }

  function BifReport(v: Value): Option<Bif> {
    if v.Package? && |v.elems| >= 5 then Some(Bif(Low(v.elems[0]), Low(v.elems[1]), Low(v.elems[2]), Low(v.elems[4])))
    else None
  }

  /** r is what _BST says in v: state, rate, remaining capacity and voltage, in this order. */
  predicate TellsBst(r: Option<Bst>, v: Value) {
    && (r.Some? <==> v.Package? && |v.elems| >= 4)
    && (r.Some? ==>
          && r.value.state == v.elems[0] & 0xFFFF_FFFF && r.value.rate == v.elems[1] & 0xFFFF_FFFF
          && r.value.remaining == v.elems[2] & 0xFFFF_FFFF && r.value.voltage == v.elems[3] & 0xFFFF_FFFF)
  }

  /** r is what _BIF says in v: the technology, in between, is passed over. */
  predicate TellsBif(r: Option<Bif>, v: Value) {
    && (r.Some? <==> v.Package? && |v.elems| >= 5)
    && (r.Some? ==>
          && r.value.powerUnit == v.elems[0] & 0xFFFF_FFFF && r.value.designCapacity == v.elems[1] & 0xFFFF_FFFF
          && r.value.fullCapacity == v.elems[2] & 0xFFFF_FFFF && r.value.designVoltage == v.elems[4] & 0xFFFF_FFFF)
  }

  /** The bytes a recorded body points to. */
  function Extract(table: Span, code: Code): Span
    requires Inside(table, code)
  {
    table[code.start..code.start + code.length]
  }

  /** All bodies recorded from the table lie in it. */
  predicate AllInside(table: Span, bats: Batteries) {
    forall i :: 0 <= i < |bats.slots| ==> SlotInside(table, bats.slots[i])
  }

  predicate SlotInside(table: Span, slot: Slot<Code>) {
    (slot.bst.Some? ==> Inside(table, slot.bst.value)) && (slot.bif.Some? ==> Inside(table, slot.bif.value))
  }

  /** aml_eval_bst. */
  method EvalBst(table: Span, bats: Batteries, idx: nat) returns (r: Option<Bst>)
    requires Inv(bats) && AllInside(table, bats)
    ensures idx >= bats.count || bats.slots[idx].bst == None ==> r == None
    ensures idx < bats.count && bats.slots[idx].bst.Some? ==>
      Inside(table, bats.slots[idx].bst.value) && TellsBst(r, RunMethod(Extract(table, bats.slots[idx].bst.value)))
  {
    if idx >= bats.count || bats.slots[idx].bst.None? {
      return None;
    }
    assert SlotInside(table, bats.slots[idx]);
    var v := AmlEvaluator.RunMethod(Extract(table, bats.slots[idx].bst.value));
    r := BstReport(v);
  }

  /** aml_eval_bif. */
  method EvalBif(table: Span, bats: Batteries, idx: nat) returns (r: Option<Bif>)
    requires Inv(bats) && AllInside(table, bats)
    ensures idx >= bats.count || bats.slots[idx].bif == None ==> r == None
    ensures idx < bats.count && bats.slots[idx].bif.Some? ==>
      Inside(table, bats.slots[idx].bif.value) && TellsBif(r, RunMethod(Extract(table, bats.slots[idx].bif.value)))
  {
    if idx >= bats.count || bats.slots[idx].bif.None? {
      return None;
    }
    assert SlotInside(table, bats.slots[idx]);
    var v := AmlEvaluator.RunMethod(Extract(table, bats.slots[idx].bif.value));
    r := BifReport(v);
  }

  const HID: Segment := [0x5F, 0x48, 0x49, 0x44]

  const BST: Segment := [0x5F, 0x42, 0x53, 0x54]

  /** The objects of one battery: its hardware id as text, then its _BST. */
  function Battery(body: seq<Byte>, rest: Nodes): Nodes {
    Cons(NameOf(HID, Text(PNP0C0A)), Cons(Method(BST, 0, body), rest))
  }

  lemma HidCounts(f: Findings)
    requires Inv(f) && f.count < 4 && (f.count > 0 ==> f.slots[f.count - 1].bst != None)
    ensures Visit(NameOf(HID, Text(PNP0C0A)), f) == f.(count := f.count + 1)
  {
    hide VisitAll, Attach;
    assert IsHid(HID) && IsBatteryId(Text(PNP0C0A));
  }

  lemma BstAttaches(body: seq<Byte>, f: Findings)
    requires Inv(f) && f.count > 0 && f.slots[f.count - 1].bst == None
    ensures var k := f.count - 1;
      Visit(Method(BST, 0, body), f) == if f.count < 4 then f.(slots := f.slots[k := f.slots[k].(bst := Some(body))]) else f
  {
    hide VisitAll, Found, IsBif;
    assert IsBst(BST);
  }

  lemma VisitedInTurn(a: Node, b: Node, rest: Nodes, f: Findings)
    requires Inv(f)
    ensures VisitAll(Cons(a, Cons(b, rest)), f) == VisitAll(rest, Visit(b, Visit(a, f)))
  {
    hide Visit, Inv, Attach, Found;
  }

  /** Next in order, a battery is counted, and its _BST kept exactly if it is not the fourth. */
  lemma NextBattery(body: seq<Byte>, rest: Nodes, f: Findings)
    requires Inv(f) && f.count < 4 && f.slots[f.count].bst == None
    requires f.count > 0 ==> f.slots[f.count - 1].bst != None
    ensures var slots := if f.count < 3 then f.slots[f.count := f.slots[f.count].(bst := Some(body))] else f.slots;
      VisitAll(Battery(body, rest), f) == VisitAll(rest, Table(f.count + 1, slots))
  {
    hide Visit, VisitAll, Attach, Found;
    HidCounts(f);
    BstAttaches(body, f.(count := f.count + 1));
    VisitedInTurn(NameOf(HID, Text(PNP0C0A)), Method(BST, 0, body), rest, f);
  }

  /** Of four batteries all are counted, and the last has no _BST. */
  lemma FourthBatterySilent(body: seq<Byte>)
    ensures var f := VisitAll(Battery(body, Battery(body, Battery(body, Battery(body, Nil)))), NoneFound());
      f.count == 4 && f.slots[2].bst == Some(body) && f.slots[3].bst == None
  {
    hide VisitAll;
    var one := NoneFound<seq<Byte>>().slots[0].(bst := Some(body));
    NextBattery(body, Battery(body, Battery(body, Battery(body, Nil))), NoneFound());
    var f1 := Table(1, NoneFound<seq<Byte>>().slots[0 := one]);
    NextBattery(body, Battery(body, Battery(body, Nil)), f1);
    var f2 := Table(2, f1.slots[1 := one]);
    NextBattery(body, Battery(body, Nil), f2);
    var f3 := Table(3, f2.slots[2 := one]);
    NextBattery(body, Nil, f3);
    NothingMore(Table(4, f3.slots));
  }

  lemma NothingMore(f: Findings)
    requires Inv(f)
    ensures VisitAll(Nil, f) == f
  {
  }

  lemma MatchesInside(table: Span, bats: Batteries, f: Findings)
    requires Matches(table, bats, f)
    ensures AllInside(table, bats)
  {
    forall i | 0 <= i < |bats.slots| ensures SlotInside(table, bats.slots[i]) {
      assert SlotMatches(table, bats.slots[i], f.slots[i]);
    }
  }

  /**
   From bytes to numbers: of an encoded namespace, the scan records only bodies
   inside the table, and the report of a battery is what its _BST means.
   */
  lemma BatteryReport(ns: Nodes, idx: nat, body: seq<Stmt>)
    requires WfNodes(ns) && |NodesBytes(ns)| <= 0xF000_0000 && WfBody(body)
    requires idx < VisitAll(ns, NoneFound()).count && VisitAll(ns, NoneFound()).slots[idx].bst == Some(BodyBytes(body))
    ensures var table: Span := NodesBytes(ns);
      var bats := ScanTerms(table, 0, NoneFound(), 0).bats;
      && idx < bats.count && AllInside(table, bats) && bats.slots[idx].bst.Some?
      && Inside(table, bats.slots[idx].bst.value)
      && BstReport(RunMethod(Extract(table, bats.slots[idx].bst.value))) == BstReport(Meaning(body, START.locals))
  {
    hide RunMethod, Meaning, VisitAll, NodesBytes, BodyBytes, ScanTerms, WfNodes, WfBody;
    var table: Span := NodesBytes(ns);
    var bats, f := ScanTerms(table, 0, NoneFound(), 0).bats, VisitAll(ns, NoneFound());
    ScanFinds(ns);
    MatchesInside(table, bats, f);
    assert SlotMatches(table, bats.slots[idx], f.slots[idx]);
    assert Extract(table, bats.slots[idx].bst.value) == BodyBytes(body);
    MethodMeaning(body);
  }

  // ---- what is kept of a namespace ---------------------------------------------------------------

  /** A method changes at most one field of the current battery, and that only if it was empty. */
  lemma AttachFields(f: Findings, seg: Segment, body: seq<Byte>, i: nat)
    requires Inv(f) && i < 4
    ensures var r := Attach(f, seg, body);
      var here := f.count < 4 && i == (if f.count == 0 then 0 else f.count - 1);
      && r.count == f.count
      && r.slots[i].bst == (if here && seg == [0x5F, 0x42, 0x53, 0x54] && f.slots[i].bst == None then Some(body) else f.slots[i].bst)
      && r.slots[i].bif == (if here && (seg == [0x5F, 0x42, 0x49, 0x46] || seg == [0x5F, 0x42, 0x49, 0x58]) && f.slots[i].bif == None
                            then Some(body) else f.slots[i].bif)
  {
    BifNames(seg);
    hide IsBif;
  }

  lemma BifNames(seg: Segment)
    ensures IsBif(seg) <==> seg == [0x5F, 0x42, 0x49, 0x46] || seg == [0x5F, 0x42, 0x49, 0x58]
  {
    assert seg == seg[..3] + [seg[3]];
    assert [0x5F, 0x42, 0x49, 0x46][..3] == [0x5F, 0x42, 0x49];
    assert [0x5F, 0x42, 0x49, 0x58][..3] == [0x5F, 0x42, 0x49];
  }

  /** What slots keep from f to r: the methods there are, and the count does not fall. */
  ghost predicate Keeps(f: Findings, r: Findings)
    requires Inv(f) && Inv(r)
  {
    && f.count <= r.count
    && forall i :: 0 <= i < 4 ==>
         (f.slots[i].bst.Some? ==> r.slots[i].bst == f.slots[i].bst) && (f.slots[i].bif.Some? ==> r.slots[i].bif == f.slots[i].bif)
  }

  /** The first method of each kind is the one kept, whatever else the namespace holds. */
  lemma {:induction false} FirstKept(ns: Nodes, f: Findings)
    requires Inv(f)
    ensures Keeps(f, VisitAll(ns, f))
    decreases ns, 1
  {
    hide Attach, Found, Visit;
    if ns.Cons? {
      FirstKeptNode(ns.head, f);
      FirstKept(ns.tail, Visit(ns.head, f));
    }
  }

  lemma {:induction false} FirstKeptNode(n: Node, f: Findings)
    requires Inv(f)
    ensures Keeps(f, Visit(n, f))
    decreases n, 0
  {
    hide VisitAll, IsBif, IsBst;
    match n
    case Scope(_, kids) => FirstKept(kids, f);
    case Device(_, kids) => FirstKept(kids, f);
    case _ =>
  }

  // ---- a package of constants ----------------------------------------------------------------------

  lemma {:induction false} ConstantList(es: seq<Expr>, l: seq<bv64>, i: nat)
    requires AllWf(es) && |l| == 8 && i < |es| && forall k :: 0 <= k < |es| ==> AmlStandard.IsLiteral(es[k])
    ensures InterpretList(es, l).0[i] == AmlStandard.LiteralValue(es[i])
    decreases |es|
  {
    hide AmlStandard.LiteralValue, LittleEndian;
    Constant(es[0], l);
    if i > 0 { ConstantList(es[1..], l, i - 1); }
  }

  lemma Constant(e: Expr, l: seq<bv64>)
    requires Wf(e) && |l| == 8 && AmlStandard.IsLiteral(e)
    ensures Interpret(e, l) == Result(AmlStandard.LiteralValue(e), l)
  {
    hide LittleEndian, AmlStandard.Number;
    if e.Digits? { AmlStandard.NumberIs(e.bytes); }
  }

  /** A _BST that returns a package of constants reports the first four of them, in its own order. */
  lemma ConstantReport(es: seq<Expr>)
    requires AllWf(es) && 4 <= |es| <= 16 && forall k :: 0 <= k < |es| ==> AmlStandard.IsLiteral(es[k])
    requires WfBody([ReturnPackage(es)])
    ensures var r := BstReport(Meaning([ReturnPackage(es)], START.locals));
      r == Some(Bst(Low(AmlStandard.LiteralValue(es[0])), Low(AmlStandard.LiteralValue(es[1])),
                    Low(AmlStandard.LiteralValue(es[2])), Low(AmlStandard.LiteralValue(es[3]))))
  {
    hide AmlStandard.LiteralValue, AmlStandard.IsLiteral, Low, InterpretList;
    ConstantList(es, START.locals, 0);
    ConstantList(es, START.locals, 1);
    ConstantList(es, START.locals, 2);
    ConstantList(es, START.locals, 3);
  }
}
