/** The scanner finds in an encoded namespace what there is to find, and what it found evaluates. */
module AmlTreeScan {
  import opened AmlBytes
  import opened AmlSkip
  import opened AmlScan
  import opened AmlSyntax
  import opened AmlMeaning
  import opened AmlTree

  /** One object scanned: past its bytes, with the table matching what a visit of it finds. */
  predicate Scanned(table: Span, s: Span, p: nat, n: Node, bats: Batteries, f: Findings)
    requires WfNode(n) && Matches(table, bats, f)
  {
    var r := ScanTerm(s, p, bats, 0);
    r.pos == p + |NodeBytes(n)| && Matches(table, r.bats, Visit(n, f))
  }

  // ---- objects that are stepped over ------------------------------------------------------------

  lemma RegionSkips(s: Span, p: nat, seg: Segment, space: Byte, offset: Expr, length: Expr)
    requires WfNode(Region(seg, space, offset, length)) && Has(s, p, NodeBytes(Region(seg, space, offset, length)))
    ensures p + 1 < |s| && s[p] == 0x5B && s[p + 1] == 0x80
    ensures SkipTerm(s, p) == p + |NodeBytes(Region(seg, space, offset, length))|
  {
    hide Has, Bytes, Wf, SkipTerm, SkipTerms, NameEnd;
    HasFour(s, p, [0x5B, 0x80], seg, [space], Bytes(offset) + Bytes(length));
    HasParts(s, p + 7, Bytes(offset), Bytes(length));
    HasAt(s, p, [0x5B, 0x80], 0);
    HasAt(s, p, [0x5B, 0x80], 1);
    NameReads(s, p + 2, seg);
    SkipExact(s, p + 7, offset);
    SkipExact(s, p + 7 + |Bytes(offset)|, length);
    RegionOperands(s, p);
  }

  lemma RegionOperands(s: Span, p: nat)
    requires p + 1 < |s| && s[p] == 0x5B && s[p + 1] == 0x80
    ensures SkipTerm(s, p) == SkipTerm(s, SkipTerm(s, NameEnd(s, p + 2) + 1))
  {
    hide SkipTerms, NameEnd;
    SkipTermsUnroll(s, NameEnd(s, p + 2) + 1);
  }

  lemma MutexSkips(s: Span, p: nat, seg: Segment, level: Byte)
    requires WfNode(Mutex(seg, level)) && Has(s, p, NodeBytes(Mutex(seg, level)))
    ensures p + 1 < |s| && s[p] == 0x5B && s[p + 1] == 0x01
    ensures SkipTerm(s, p) == p + 7
  {
    HasThree(s, p, [0x5B, 0x01], seg, [level]);
    HasAt(s, p, [0x5B, 0x01], 0);
    HasAt(s, p, [0x5B, 0x01], 1);
    NameReads(s, p + 2, seg);
  }

  lemma OpaqueSkips(s: Span, p: nat, op: Byte, content: seq<Byte>)
    requires WfNode(Opaque(op, content)) && Has(s, p, NodeBytes(Opaque(op, content)))
    ensures p + 1 < |s| && s[p] == 0x5B && s[p + 1] == op
    ensures SkipTerm(s, p) == p + |NodeBytes(Opaque(op, content))|
  {
    hide Jump, Has, BlockBytes;
    HasParts(s, p, [0x5B, op], BlockBytes(content));
    HasAt(s, p, [0x5B, op], 0);
    HasAt(s, p, [0x5B, op], 1);
    BlockReads(s, p + 2, content);
  }

  lemma LooseSkips(s: Span, p: nat, e: Expr)
    requires Wf(e) && Has(s, p, Bytes(e))
    ensures p < |s| && s[p] !in {0x10, 0x5B, 0x14, 0x08}
    ensures SkipTerm(s, p) == p + |Bytes(e)|
  {
    HasAt(s, p, Bytes(e), 0);
    SkipExact(s, p, e);
  }

  predicate IsSkipped(n: Node) { n.Region? || n.Mutex? || n.Opaque? || n.Loose? }

  lemma ScanSkipped(table: Span, s: Span, p: nat, n: Node, bats: Batteries, f: Findings)
    requires WfNode(n) && IsSkipped(n) && Has(s, p, NodeBytes(n)) && Matches(table, bats, f)
    ensures Scanned(table, s, p, n, bats, f)
  {
    hide SkipTerm, Has, Matches, Wf, Bytes, BlockBytes;
    match n
    case Region(seg, space, offset, length) => RegionSkips(s, p, seg, space, offset, length);
    case Mutex(seg, level) => MutexSkips(s, p, seg, level);
    case Opaque(op, content) => OpaqueSkips(s, p, op, content);
    case Loose(e) => LooseSkips(s, p, e);
  }

  // ---- methods and names -----------------------------------------------------------------------------

  lemma MethodReads(s: Span, p: nat, seg: Segment, flags: Byte, body: seq<Byte>)
    requires WfNode(Method(seg, flags, body)) && Has(s, p, NodeBytes(Method(seg, flags, body)))
    ensures p < |s| && s[p] == 0x14 && Jump(s, p + 1) == p + |NodeBytes(Method(seg, flags, body))|
    ensures var (g, code) := MethodCode(s, p + 1, 0);
      g == seg && code.length == |body| && Has(s, code.start, body)
  {
    hide Jump, PkgNext, Has, BlockBytes, NameEnd, NameSegment;
    var content := seg + [flags] + body;
    HasParts(s, p, [0x14], BlockBytes(content));
    HasAt(s, p, [0x14], 0);
    BlockReads(s, p + 1, content);
    var q := PkgNext(s, p + 1);
    HasThree(s, q, seg, [flags], body);
    NameReads(s, q, seg);
  }

  lemma ScanMethod(table: Span, s: Span, p: nat, seg: Segment, flags: Byte, body: seq<Byte>, bats: Batteries, f: Findings)
    requires WfNode(Method(seg, flags, body)) && Has(s, p, NodeBytes(Method(seg, flags, body)))
    requires s <= table && Matches(table, bats, f)
    ensures Scanned(table, s, p, Method(seg, flags, body), bats, f)
  {
    hide Jump, Has, NodeBytes, MethodCode, Matches, Attach;
    MethodReads(s, p, seg, flags, body);
    var code := MethodCode(s, p + 1, 0).1;
    HasInTable(table, s, code.start, body);
    AttachMatches(table, bats, f, seg, code, body);
  }

  lemma ScanName(table: Span, s: Span, p: nat, seg: Segment, data: Data, bats: Batteries, f: Findings)
    requires WfNode(NameOf(seg, data)) && Has(s, p, NodeBytes(NameOf(seg, data))) && Matches(table, bats, f)
    ensures Scanned(table, s, p, NameOf(seg, data), bats, f)
  {
    hide SkipTerm, Has, DataBytes, WfData, Matches, Found, NameEnd, NameSegment, BatteryId, IsBatteryId;
    HasThree(s, p, [0x08], seg, DataBytes(data));
    HasAt(s, p, [0x08], 0);
    NameReads(s, p + 1, seg);
    DataSkips(s, p + 5, data);
    DataIdentifies(s, p + 5, data);
    FoundMatches(table, bats, f);
  }

  // ---- scopes and devices ---------------------------------------------------------------------------------

  /** The body of a scope or device whose package length is at q, as ScanBlock reads it. */
  lemma BodyReads(s: Span, q: nat, seg: Segment, kids: Nodes)
    requires IsLead(seg[0]) && WfNodes(kids) && Fits(4 + |NodesBytes(kids)|)
    requires Has(s, q, BlockBytes(seg + NodesBytes(kids)))
    ensures var end := Jump(s, q);
      var first := NameEnd(s, PkgNext(s, q));
      && q < |s| && end == q + |BlockBytes(seg + NodesBytes(kids))| == first + |NodesBytes(kids)|
      && Has(s[..end], first, NodesBytes(kids))
  {
    hide Jump, PkgNext, Has, BlockBytes, NameEnd, NodesBytes, WfNodes;
    BlockReads(s, q, seg + NodesBytes(kids));
    var name := PkgNext(s, q);
    HasParts(s, name, seg, NodesBytes(kids));
    NameReads(s, name, seg);
    HasPrefix(s, Jump(s, q), name + 4, NodesBytes(kids));
  }

  /** Where the body's objects were all scanned, the object was. */
  lemma ScanParent(table: Span, s: Span, p: nat, n: Node, bats: Batteries, f: Findings)
    requires WfNode(n) && (n.Scope? || n.Device?) && Has(s, p, NodeBytes(n)) && Matches(table, bats, f)
    ensures var q := if n.Scope? then p + 1 else p + 2;
      && IsLead(n.seg[0]) && WfNodes(n.kids) && Fits(4 + |NodesBytes(n.kids)|)
      && Has(s, q, BlockBytes(n.seg + NodesBytes(n.kids))) && q <= |s|
      && p + |NodeBytes(n)| == q + |BlockBytes(n.seg + NodesBytes(n.kids))|
      && ScanTerm(s, p, bats, 0) == ScanBlock(s, q, bats, 0)
  {
    hide Has, BlockBytes, NodesBytes, ScanBlock, WfNodes, Matches;
    var opcode: seq<Byte> := if n.Scope? then [0x10] else [0x5B, 0x82];
    HasParts(s, p, opcode, BlockBytes(n.seg + NodesBytes(n.kids)));
    HasAt(s, p, opcode, 0);
    if n.Device? { HasAt(s, p, opcode, 1); }
    MatchesInv(table, bats, f);
    HasLength(s, p, opcode);
  }

  lemma MatchesInv(table: Span, bats: Batteries, f: Findings)
    requires Matches(table, bats, f)
    ensures Inv(bats) && Inv(f)
  {
  }

  lemma {:induction false} ScanNode(table: Span, s: Span, p: nat, n: Node, bats: Batteries, f: Findings)
    requires WfNode(n) && Has(s, p, NodeBytes(n)) && s <= table && Matches(table, bats, f)
    ensures Scanned(table, s, p, n, bats, f)
    decreases n
  {
    hide Has, BlockBytes, NodeBytes, NodesBytes, ScanTerm, ScanTerms, WfNode, WfNodes, Matches, Jump, NameEnd, PkgNext;
    match n
    case Method(seg, flags, body) => ScanMethod(table, s, p, seg, flags, body, bats, f);
    case NameOf(seg, data) => ScanName(table, s, p, seg, data, bats, f);
    case Scope(seg, kids) => ScanKids(table, s, p, n, bats, f);
    case Device(seg, kids) => ScanKids(table, s, p, n, bats, f);
    case _ => ScanSkipped(table, s, p, n, bats, f);
  }

  lemma {:induction false} ScanKids(table: Span, s: Span, p: nat, n: Node, bats: Batteries, f: Findings)
    requires WfNode(n) && (n.Scope? || n.Device?) && Has(s, p, NodeBytes(n)) && s <= table && Matches(table, bats, f)
    ensures Scanned(table, s, p, n, bats, f)
    decreases n, 0
  {
    hide Has, BlockBytes, NodeBytes, NodesBytes, ScanTerm, ScanTerms, WfNode, WfNodes, Matches, Jump, NameEnd, PkgNext;
    ScanParent(table, s, p, n, bats, f);
    MatchesInv(table, bats, f);
    var q := if n.Scope? then p + 1 else p + 2;
    BodyReads(s, q, n.seg, n.kids);
    ScanAll(table, s[..Jump(s, q)], NameEnd(s, PkgNext(s, q)), n.kids, bats, f);
  }

  lemma {:induction false} ScanAll(table: Span, s: Span, p: nat, ns: Nodes, bats: Batteries, f: Findings)
    requires WfNodes(ns) && Has(s, p, NodesBytes(ns)) && p + |NodesBytes(ns)| == |s|
    requires s <= table && Matches(table, bats, f)
    ensures Matches(table, ScanTerms(s, p, bats, 0).bats, VisitAll(ns, f))
    decreases ns
  {
    hide Has, NodeBytes, WfNode, Matches, ScanTerm, Visit;
    MatchesInv(table, bats, f);
    if ns.Cons? {
      HasParts(s, p, NodeBytes(ns.head), NodesBytes(ns.tail));
      ScanNode(table, s, p, ns.head, bats, f);
      var r := ScanTerm(s, p, bats, 0);
      ScanAll(table, s, r.pos, ns.tail, r.bats, Visit(ns.head, f));
      NotEmpty(ns.head);
    }
  }

  lemma NotEmpty(n: Node)
    requires WfNode(n)
    ensures NodeBytes(n) != []
  {
  }

  /** Scanning an encoded namespace records, for each battery, exactly the bodies a visit finds. */
  lemma ScanFinds(ns: Nodes)
    requires WfNodes(ns) && |NodesBytes(ns)| <= 0xF000_0000
    ensures Matches(NodesBytes(ns), ScanTerms(NodesBytes(ns), 0, NoneFound(), 0).bats, VisitAll(ns, NoneFound()))
  {
    var table := NodesBytes(ns);
    assert table[0..|table|] == table;
    assert Matches(table, NoneFound(), NoneFound());
    ScanAll(table, table, 0, ns, NoneFound(), NoneFound());
  }
}
