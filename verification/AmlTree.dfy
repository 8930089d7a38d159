/**
 Namespaces: the objects of a table, their encoding, and what the scanner
 should find in them, said without positions. The main result is that it finds
 exactly that in the bytes.
 */
module AmlTree {
  import opened Options
  import opened AmlBytes
  import opened AmlSkip
  import opened AmlScan
  import opened AmlSyntax
  import opened AmlMeaning

  datatype Data = Text(t: seq<Byte>) | Plain(e: Expr)

  datatype Node =
    | Scope(seg: Segment, kids: Nodes)
    | Device(seg: Segment, kids: Nodes)
    | Method(seg: Segment, flags: Byte, body: seq<Byte>)
    | NameOf(seg: Segment, data: Data)
    | Region(seg: Segment, space: Byte, offset: Expr, length: Expr)
    | Mutex(seg: Segment, level: Byte)
    | Opaque(op: Byte, content: seq<Byte>)
    | Loose(e: Expr)

  datatype Nodes = Nil | Cons(head: Node, tail: Nodes)

  // ---- encoding -----------------------------------------------------------------------------

  predicate WfData(d: Data) {
    match d
    case Text(t) => forall i :: 0 <= i < |t| ==> t[i] != 0
    case Plain(e) => Wf(e)
  }

  predicate WfNode(n: Node)
    decreases n, 0
  {
    match n
    case Scope(seg, kids) => IsLead(seg[0]) && WfNodes(kids) && Fits(4 + |NodesBytes(kids)|)
    case Device(seg, kids) => IsLead(seg[0]) && WfNodes(kids) && Fits(4 + |NodesBytes(kids)|)
    case Method(seg, _, body) => IsLead(seg[0]) && Fits(5 + |body|)
    case NameOf(seg, data) => IsLead(seg[0]) && WfData(data)
    case Region(seg, _, offset, length) => IsLead(seg[0]) && Wf(offset) && Wf(length)
    case Mutex(seg, _) => IsLead(seg[0])
    case Opaque(op, content) => 0x81 <= op <= 0x87 && op != 0x82 && Fits(|content|)
    case Loose(e) => Wf(e)
  }

  predicate WfNodes(ns: Nodes)
    decreases ns, 0
  {
    ns.Cons? ==> WfNode(ns.head) && WfNodes(ns.tail)
  }

  function DataBytes(d: Data): seq<Byte>
    requires WfData(d)
  {
    match d
    case Text(t) => [0x0D] + t + [0x00]
    case Plain(e) => Bytes(e)
  }

  function NodeBytes(n: Node): (r: seq<Byte>)
    requires WfNode(n)
    decreases n, 1
  {
    match n
    case Scope(seg, kids) => [0x10] + BlockBytes(seg + NodesBytes(kids))
    case Device(seg, kids) => [0x5B, 0x82] + BlockBytes(seg + NodesBytes(kids))
    case Method(seg, flags, body) => [0x14] + BlockBytes(seg + [flags] + body)
    case NameOf(seg, data) => [0x08] + seg + DataBytes(data)
    case Region(seg, space, offset, length) => [0x5B, 0x80] + seg + [space] + (Bytes(offset) + Bytes(length))
    case Mutex(seg, level) => [0x5B, 0x01] + seg + [level]
    case Opaque(op, content) => [0x5B, op] + BlockBytes(content)
    case Loose(e) => Bytes(e)
  }

  function NodesBytes(ns: Nodes): seq<Byte>
    requires WfNodes(ns)
    decreases ns, 1
  {
    if ns.Nil? then [] else NodeBytes(ns.head) + NodesBytes(ns.tail)
  }

  // ---- what there is to find --------------------------------------------------------------------

  /** The bodies found for each battery. */
  type Findings = Table<seq<Byte>>

  predicate IsBatteryId(d: Data) {
    match d
    case Text(t) => |t| >= 7 && t[..7] == PNP0C0A
    case Plain(e) => e.Digits? && e.bytes == [0x41, 0x0D, 0xC8, 0x0A]
  }

  /** The objects in order, scopes and devices entered where they stand. */
  function Visit(n: Node, f: Findings): (r: Findings)
    requires Inv(f)
    ensures Inv(r)
    decreases n
  {
    match n
    case Scope(_, kids) => VisitAll(kids, f)
    case Device(_, kids) => VisitAll(kids, f)
    case Method(seg, _, body) => Attach(f, seg, body)
    case NameOf(seg, data) => if IsHid(seg) && IsBatteryId(data) then Found(f) else f
    case _ => f
  }

  function VisitAll(ns: Nodes, f: Findings): (r: Findings)
    requires Inv(f)
    ensures Inv(r)
    decreases ns
  {
    if ns.Nil? then f else VisitAll(ns.tail, Visit(ns.head, f))
  }

  // ---- the table recorded against what there is ----------------------------------------------------

  predicate CodeMatches(table: Span, c: Option<Code>, b: Option<seq<Byte>>) {
    && c.None? == b.None?
    && (c.Some? ==> Has(table, c.value.start, b.value) && c.value.length == |b.value|)
  }

  predicate SlotMatches(table: Span, c: Slot<Code>, f: Slot<seq<Byte>>) {
    CodeMatches(table, c.bst, f.bst) && CodeMatches(table, c.bif, f.bif)
  }

  predicate Matches(table: Span, bats: Batteries, f: Findings) {
    && Inv(bats) && Inv(f) && f.count == bats.count
    && forall i :: 0 <= i < 4 ==> SlotMatches(table, bats.slots[i], f.slots[i])
  }

  lemma AttachMatches(table: Span, bats: Batteries, f: Findings, seg: Segment, code: Code, body: seq<Byte>)
    requires Matches(table, bats, f) && CodeMatches(table, Some(code), Some(body))
    ensures Matches(table, Attach(bats, seg, code), Attach(f, seg, body))
  {
    hide Has;
    var k := Current(bats);
    assert SlotMatches(table, bats.slots[k], f.slots[k]);
  }

  lemma FoundMatches(table: Span, bats: Batteries, f: Findings)
    requires Matches(table, bats, f)
    ensures Matches(table, Found(bats), Found(f))
  {
    hide Has;
    if bats.count > 0 { assert SlotMatches(table, bats.slots[bats.count - 1], f.slots[bats.count - 1]); }
  }

  // ---- reading the pieces ------------------------------------------------------------------------------

  lemma NameReads(s: Span, q: nat, seg: Segment)
    requires IsLead(seg[0]) && Has(s, q, seg)
    ensures NameEnd(s, q) == q + 4 && NameSegment(s, q) == seg
  {
    HasAt(s, q, seg, 0);
    HasAt(s, q, seg, 1);
    HasAt(s, q, seg, 2);
    HasAt(s, q, seg, 3);
    assert SegmentAt(s, q) == seg;
  }

  /** A cut of a span keeps what lies before the cut. */
  lemma HasPrefix(s: Span, end: nat, p: nat, bytes: seq<Byte>)
    requires end <= |s| && Has(s, p, bytes) && p + |bytes| <= end
    ensures Has(s[..end], p, bytes)
  {
    assert s[..end][p..p + |bytes|] == s[p..p + |bytes|];
  }

  /** What a prefix of the table has, the table has. */
  lemma HasInTable(table: Span, s: Span, p: nat, bytes: seq<Byte>)
    requires s <= table && Has(s, p, bytes)
    ensures Has(table, p, bytes)
  {
    assert table[p..p + |bytes|] == s[p..p + |bytes|];
  }

  lemma {:induction false} StringReads(s: Span, p: nat, t: seq<Byte>)
    requires (forall i :: 0 <= i < |t| ==> t[i] != 0) && Has(s, p, t + [0x00])
    ensures StringEnd(s, p) == p + |t| + 1
    decreases |t|
  {
    HasAt(s, p, t + [0x00], 0);
    if t != [] {
      assert t + [0x00] == [t[0]] + (t[1..] + [0x00]);
      HasParts(s, p, [t[0]], t[1..] + [0x00]);
      StringReads(s, p + 1, t[1..]);
    }
  }

  lemma DataSkips(s: Span, p: nat, d: Data)
    requires WfData(d) && Has(s, p, DataBytes(d))
    ensures SkipTerm(s, p) == p + |DataBytes(d)|
  {
    match d
    case Text(t) =>
      assert [0x0D] + t + [0x00] == [0x0D] + (t + [0x00]);
      HasParts(s, p, [0x0D], t + [0x00]);
      HasAt(s, p, [0x0D], 0);
      StringReads(s, p + 1, t);
    case Plain(e) =>
      SkipExact(s, p, e);
  }

  lemma DataIdentifies(s: Span, v: nat, d: Data)
    requires WfData(d) && Has(s, v, DataBytes(d))
    ensures BatteryId(s, v) <==> IsBatteryId(d)
  {
    match d
    case Text(t) => TextIdentifies(s, v, t);
    case Plain(e) => PlainIdentifies(s, v, e);
  }

  lemma TextIdentifies(s: Span, v: nat, t: seq<Byte>)
    requires WfData(Text(t)) && Has(s, v, [0x0D] + t + [0x00])
    ensures BatteryId(s, v) <==> |t| >= 7 && t[..7] == PNP0C0A
  {
    HasThree(s, v, [0x0D], t, [0x00]);
    HasAt(s, v, [0x0D], 0);
    HasAt(s, v + 1 + |t|, [0x00], 0);
    if |t| >= 7 {
      assert s[v + 1..v + 8] == s[v + 1..v + 1 + |t|][..7];
    } else if v + 8 <= |s| {
      assert s[v + 1..v + 8][|t|] == 0 != PNP0C0A[|t|];
    }
  }

  lemma PlainIdentifies(s: Span, v: nat, e: Expr)
    requires Wf(e) && Has(s, v, Bytes(e))
    ensures BatteryId(s, v) <==> e.Digits? && e.bytes == [0x41, 0x0D, 0xC8, 0x0A]
  {
    HasAt(s, v, Bytes(e), 0);
    if e.Digits? && |e.bytes| == 4 {
      HasParts(s, v, [0x0C], e.bytes);
    }
  }
}
