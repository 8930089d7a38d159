/** The first pass of aml.c: walking scopes and devices to find battery methods. */
module AmlScan {
  import opened Options
  import opened AmlBytes
  import opened AmlSkip

  /** A recorded method body: where it starts in its table, and a 32-bit length. */
  datatype Code = Code(table: nat, start: nat, length: nat)

  /** What is kept of a battery's methods, as codes here and as bodies where the bytes do not matter. */
  datatype Slot<C> = Slot(bst: Option<C>, bif: Option<C>)

  /** The battery table; count is how many battery devices were seen. */
  datatype Table<C> = Table(count: nat, slots: seq<Slot<C>>)

  type Batteries = Table<Code>

  predicate IsEmpty<C>(s: Slot<C>) { s.bst.None? && s.bif.None? }

  function NoneFound<C>(): Table<C> { Table(0, seq(4, i => Slot(None, None))) }

  // ---- what a method or a name adds ---------------------------------------------------------

  predicate IsBst(g: Segment) { g == [0x5F, 0x42, 0x53, 0x54] }

  predicate IsBif(g: Segment) { g[..3] == [0x5F, 0x42, 0x49] && g[3] in {0x46, 0x58} }

  predicate IsHid(g: Segment) { g == [0x5F, 0x48, 0x49, 0x44] }

  /** The value at v is what the code takes for a battery's hardware id. */
  predicate BatteryId(s: Span, v: nat) {
    v < |s| &&
    if s[v] == 0x0C && v + 5 <= |s| then s[v + 1..v + 5] == [0x41, 0x0D, 0xC8, 0x0A]
    else s[v] == 0x0D && v + 8 <= |s| && s[v + 1..v + 8] == PNP0C0A
  }

  const PNP0C0A: seq<Byte> := [0x50, 0x4E, 0x50, 0x30, 0x43, 0x30, 0x41]

  /** The slot a method is attached to. */
  function Current<C>(bats: Table<C>): nat { if bats.count > 0 then bats.count - 1 else 0 }

  /** A method named g with its code. */
  function Attach<C>(bats: Table<C>, g: Segment, code: C): (r: Table<C>)
    requires Inv(bats)
    ensures Inv(r)
  {
    var k := Current(bats);
    if bats.count >= 4 then bats
    else if IsBst(g) && bats.slots[k].bst.None? then
      bats.(slots := bats.slots[k := bats.slots[k].(bst := Some(code))])
    else if IsBif(g) && bats.slots[k].bif.None? then
      bats.(slots := bats.slots[k := bats.slots[k].(bif := Some(code))])
    else bats
  }

  /** A battery's hardware id. */
  function Found<C>(bats: Table<C>): (r: Table<C>)
    requires Inv(bats)
    ensures Inv(r)
  {
    if bats.count < 4 && (bats.count == 0 || bats.slots[bats.count - 1].bst.Some?) then
      bats.(count := bats.count + 1)
    else bats
  }

  /**
   What every scan keeps: methods sit in the first slot or in those of
   batteries seen, and the last slot never gets any.
   */
  predicate Inv<C>(bats: Table<C>) {
    && bats.count <= 4 && |bats.slots| == 4
    && (forall i :: 0 < i < 4 && i >= bats.count ==> IsEmpty(bats.slots[i]))
    && (forall i :: 0 <= i < bats.count - 1 ==> bats.slots[i].bst.Some?)
    && IsEmpty(bats.slots[3])
  }

  // ---- one term and a list of terms -----------------------------------------------------------

  datatype Progress = Progress(pos: nat, bats: Batteries)

  /** The body of the method whose package length is at q: its name, and its code. */
  function MethodCode(s: Span, q: nat, table: nat): (Segment, Code) {
    var name := PkgNext(s, q);
    var start := NameEnd(s, name) + 1;
    (NameSegment(s, name), Code(table, start, (Jump(s, q) - start) % 0x1_0000_0000))
  }

  /** One term: strictly ahead wherever a package length may point. */
  function ScanTerm(s: Span, p: nat, bats: Batteries, table: nat): (r: Progress)
    requires Inv(bats)
    ensures Inv(r.bats)
    ensures p <= r.pos <= Max(p, |s| + 8) && (p < |s| ==> p < r.pos)
    decreases Rest(s, p), 0
  {
    if p >= |s| then Progress(p, bats)
    else if s[p] == 0x10 then ScanBlock(s, p + 1, bats, table)
    else if s[p] == 0x5B then
      if p + 1 >= |s| then Progress(p + 1, bats)
      else if s[p + 1] == 0x82 then ScanBlock(s, p + 2, bats, table)
      else Progress(SkipTerm(s, p), bats)
    else if s[p] == 0x14 then
      var (g, code) := MethodCode(s, p + 1, table);
      Progress(Jump(s, p + 1), Attach(bats, g, code))
    else if s[p] == 0x08 then
      var v := NameEnd(s, p + 1);
      var battery := IsHid(NameSegment(s, p + 1)) && BatteryId(s, v);
      Progress(SkipTerm(s, v), if battery then Found(bats) else bats)
    else Progress(SkipTerm(s, p), bats)
  }

  /** A scope or device, from its package length on: its terms are read in the span cut at its end. */
  function ScanBlock(s: Span, q: nat, bats: Batteries, table: nat): (r: Progress)
    requires Inv(bats) && q <= |s|
    ensures Inv(r.bats)
    ensures q <= r.pos <= |s|
    decreases Rest(s, q), 2
  {
    var end := Jump(s, q);
    Progress(end, ScanTerms(s[..end], NameEnd(s, PkgNext(s, q)), bats, table).bats)
  }

  function ScanTerms(s: Span, p: nat, bats: Batteries, table: nat): (r: Progress)
    requires Inv(bats)
    ensures Inv(r.bats)
    ensures p <= r.pos && |s| <= r.pos
    decreases Rest(s, p), 1
  {
    if p >= |s| then Progress(p, bats)
    else
      var next := ScanTerm(s, p, bats, table);
      ScanTerms(s, next.pos, next.bats, table)
  }
}
