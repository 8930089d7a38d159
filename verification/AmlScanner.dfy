/** The scanner of aml.c as it runs: a cursor over a span, and the battery table it fills. */
module AmlScanner {
  import opened Options
  import opened AmlBytes
  import opened AmlSkip
  import opened AmlScan

  /** scan_ctx: data and end are the span, pos moves over it. */
  class Cursor {
    const span: Span
    var pos: nat

    constructor (span: Span, pos: nat)
      ensures this.span == span && this.pos == pos
    {
      this.span, this.pos := span, pos;
    }

    method Read() returns (b: Byte)
      modifies this
      ensures b == At(span, old(pos))
      ensures pos == old(pos) + if old(pos) < |span| then 1 else 0
    {
      if pos < |span| {
        b := span[pos];
        pos := pos + 1;
      } else {
        b := 0;
      }
    }

    /** sc_pkglen: the bits of the length bytes do not overlap, so adding them is or-ing them. */
    method PkgLen() returns (end: nat)
      modifies this
      ensures end == PkgEnd(span, old(pos)) && pos == PkgNext(span, old(pos))
    {
      if pos >= |span| {
        return pos;
      }
      var start := pos;
      var b0 := Read();
      var n := b0 / 64;
      if n == 0 {
        return (start + b0 % 64) % 0x1_0000_0000;
      }
      var len, i, unit := b0 % 16, 0, 0x10;
      while i < n && pos < |span|
        invariant i <= PkgExtra(span, start) && pos == start + 1 + i
        invariant unit == if i == 0 then 0x10 else if i == 1 then 0x1000 else if i == 2 then 0x10_0000 else 0x1000_0000
        invariant len == PartLength(span, start, i)
      {
        var b := Read();
        len := len + b * unit;
        unit := unit * 0x100;
        i := i + 1;
      }
      end := (start + len) % 0x1_0000_0000;
    }

    /** sc_nameseg. */
    method NameSeg() returns (out: Segment)
      modifies this
      ensures out == SegmentAt(span, old(pos))
      ensures pos == Max(old(pos), Min(old(pos) + 4, |span|))
    {
      var text: seq<Byte>, i := [], 0;
      while i < 4
        invariant i <= 4 && |text| == i
        invariant pos == Max(old(pos), Min(old(pos) + i, |span|))
        invariant forall j :: 0 <= j < i ==> text[j] == SegmentAt(span, old(pos))[j]
      {
        var b: Byte := 0x5F;
        if pos < |span| {
          b := Read();
        }
        text := text + [b];
        i := i + 1;
      }
      out := text;
    }

    /** sc_namestring. */
    method NameString() returns (out: Segment)
      modifies this
      ensures out == NameSegment(span, old(pos)) && pos == NameEnd(span, old(pos))
    {
      out := [0, 0, 0, 0];
      while pos < |span| && IsPrefix(span[pos])
        invariant PrefixEnd(span, pos) == PrefixEnd(span, old(pos))
        decreases Rest(span, pos)
      {
        pos := pos + 1;
      }
      if pos >= |span| {
        return;
      }
      var b := span[pos];
      if b == 0x00 {
        pos := pos + 1;
      } else if b == 0x2E {
        pos := pos + 1;
        var first := NameSeg();
        out := NameSeg();
      } else if b == 0x2F {
        pos := pos + 1;
        out := MultiName();
      } else if IsLead(b) {
        out := NameSeg();
      }
    }

    /** The part of sc_namestring after a MultiName prefix. */
    method MultiName() returns (out: Segment)
      modifies this
      ensures old(pos) >= |span| ==> pos == old(pos) && out == [0, 0, 0, 0]
      ensures old(pos) < |span| ==> pos == SegmentsEnd(span, old(pos) + 1, span[old(pos)])
      ensures old(pos) < |span| ==> out == LastSegment(span, old(pos) + 1, span[old(pos)])
    {
      out := [0, 0, 0, 0];
      var count := Read();
      var i := 0;
      while i < count && pos + 4 <= |span|
        invariant i <= count && (i < count ==> out == [0, 0, 0, 0])
        invariant old(pos) >= |span| ==> pos == old(pos) && out == [0, 0, 0, 0]
        invariant old(pos) < |span| ==> SegmentsEnd(span, pos, count - i) == SegmentsEnd(span, old(pos) + 1, count)
        invariant old(pos) < |span| && i < count ==>
          LastSegment(span, pos, count - i) == LastSegment(span, old(pos) + 1, count)
        invariant old(pos) < |span| && i == count ==> out == LastSegment(span, old(pos) + 1, count)
      {
        var seg := NameSeg();
        if i + 1 == count {
          out := seg;
        }
        i := i + 1;
      }
    }

    /** sc_skip_term. */
    method SkipTerm()
      modifies this
      ensures pos == AmlSkip.SkipTerm(span, old(pos))
      decreases Rest(span, pos), 0, 0
    {
      if pos >= |span| {
        return;
      }
      var op := Read();
      if IsPlain(op) {
      } else if Width(op) > 0 {
        pos := pos + Width(op);
      } else if op == 0x0D {
        while pos < |span| && span[pos] != 0
          invariant StringEnd(span, pos) == StringEnd(span, old(pos) + 1)
          decreases Rest(span, pos)
        {
          pos := pos + 1;
        }
        if pos < |span| {
          pos := pos + 1;
        }
      } else if IsBlock(op) {
        var end := PkgLen();
        pos := if end < |span| then end else |span|;
      } else if op == 0x08 {
        var seg := NameString();
        SkipTerm();
      } else if Operands(op) > 0 {
        SkipOperands(Operands(op));
      } else if op == 0x5B {
        SkipExtended();
      } else if IsPrefix(op) {
        pos := pos - 1;
        var seg := NameString();
      } else if IsLead(op) {
        pos := pos + 3;
      }
    }

    method SkipOperands(count: nat)
      modifies this
      ensures pos == SkipTerms(span, old(pos), count)
      decreases Rest(span, pos), 1, count
    {
      if count > 0 {
        SkipTerm();
        SkipOperands(count - 1);
      }
    }

    /** The switch after an extended prefix. */
    method SkipExtended()
      modifies this
      ensures pos == AmlSkip.SkipExtended(span, old(pos))
      decreases Rest(span, pos), 2, 0
    {
      if pos >= |span| {
        return;
      }
      var op := Read();
      if op == 0x01 {
        var seg := NameString();
        pos := pos + 1;
      } else if op == 0x02 {
        var seg := NameString();
      } else if op == 0x80 {
        var seg := NameString();
        pos := pos + 1;
        SkipOperands(2);
      } else if 0x81 <= op <= 0x87 {
        var end := PkgLen();
        pos := if end < |span| then end else |span|;
      }
    }
  }

  /** g_batteries and g_battery_count. */
  class BatteryTable {
    var count: nat
    const slots: array<Slot<Code>>

    ghost function View(): Batteries
      reads this, slots
    {
      Table(count, slots[..])
    }

    constructor ()
      ensures fresh(slots) && Inv(View()) && View() == NoneFound()
    {
      count := 0;
      slots := new Slot<Code>[4](i => Slot(None, None));
      new;
      assert slots[..] == NoneFound<Code>().slots;
    }

    /** The part of sc_scan_term for a method whose name has been read. */
    method Record(seg: Segment, code: Code)
      requires Inv(View())
      modifies this, slots
      ensures View() == Attach(old(View()), seg, code)
    {
      if (IsBst(seg) || IsBif(seg)) && count < 4 {
        var k := if count > 0 then count - 1 else 0;
        if IsBst(seg) && slots[k].bst == None {
          slots[k] := slots[k].(bst := Some(code));
        } else if IsBif(seg) && slots[k].bif == None {
          slots[k] := slots[k].(bif := Some(code));
        }
      }
    }

    method SeeBattery()
      requires Inv(View())
      modifies this
      ensures View() == Found(old(View()))
    {
      if count < 4 {
        if count == 0 || slots[count - 1].bst != None {
          count := count + 1;
        }
      }
    }

    /** The MethodOp branch of sc_scan_term. */
    method ScanMethod(c: Cursor, table: nat)
      requires Inv(View()) && c.pos <= |c.span|
      modifies this, slots, c
      ensures c.pos == Jump(c.span, old(c.pos))
      ensures var (g, code) := MethodCode(c.span, old(c.pos), table);
        View() == Attach(old(View()), g, code)
    {
      var end := c.PkgLen();
      end := if end > |c.span| then |c.span| else end;
      var seg := c.NameString();
      c.pos := c.pos + 1;
      Record(seg, Code(table, c.pos, (end - c.pos) % 0x1_0000_0000));
      c.pos := end;
    }

    /** The NameOp branch. */
    method ScanName(c: Cursor)
      requires Inv(View())
      modifies this, c
      ensures var v := NameEnd(c.span, old(c.pos));
        && c.pos == AmlSkip.SkipTerm(c.span, v)
        && View() == if IsHid(NameSegment(c.span, old(c.pos))) && BatteryId(c.span, v) then Found(old(View())) else old(View())
    {
      var seg := c.NameString();
      var battery := IsHid(seg) && c.pos < |c.span|;
      if battery {
        battery := MatchBatteryId(c.span, c.pos);
      }
      c.SkipTerm();
      if battery {
        SeeBattery();
      }
    }

    /** sc_scan_term. */
    method ScanTerm(c: Cursor, table: nat)
      requires Inv(View())
      modifies this, slots, c
      ensures Progress(c.pos, View()) == AmlScan.ScanTerm(c.span, old(c.pos), old(View()), table)
      decreases Rest(c.span, c.pos), 0
    {
      if c.pos >= |c.span| {
        return;
      }
      var op := c.span[c.pos];
      if op == 0x10 || op == 0x5B {
        c.pos := c.pos + 1;
        if op == 0x5B {
          if c.pos >= |c.span| {
            return;
          }
          if c.span[c.pos] != 0x82 {
            c.pos := c.pos - 1;
            c.SkipTerm();
            return;
          }
          c.pos := c.pos + 1;
        }
        ScanBlock(c, table);
      } else if op == 0x14 {
        c.pos := c.pos + 1;
        ScanMethod(c, table);
      } else if op == 0x08 {
        c.pos := c.pos + 1;
        ScanName(c);
      } else {
        c.SkipTerm();
      }
    }

    /** The rest of a scope or device: recurse into its body, then go to its end. */
    method ScanBlock(c: Cursor, table: nat)
      requires Inv(View()) && c.pos <= |c.span|
      modifies this, slots, c
      ensures Progress(c.pos, View()) == AmlScan.ScanBlock(c.span, old(c.pos), old(View()), table)
      decreases Rest(c.span, c.pos), 2
    {
      var end := c.PkgLen();
      end := if end > |c.span| then |c.span| else end;
      var seg := c.NameString();
      var inner := new Cursor(c.span[..end], c.pos);
      ScanTerms(inner, table);
      c.pos := end;
    }

    /** sc_scan_termlist. */
    method ScanTerms(c: Cursor, table: nat)
      requires Inv(View())
      modifies this, slots, c
      ensures Progress(c.pos, View()) == AmlScan.ScanTerms(c.span, old(c.pos), old(View()), table)
      decreases Rest(c.span, c.pos), 1
    {
      while c.pos < |c.span|
        invariant Inv(View())
        invariant Rest(c.span, c.pos) <= old(Rest(c.span, c.pos))
        invariant AmlScan.ScanTerms(c.span, c.pos, View(), table) == AmlScan.ScanTerms(c.span, old(c.pos), old(View()), table)
        decreases Rest(c.span, c.pos)
      {
        ScanTerm(c, table);
      }
    }

    /** aml_scan of one table. */
    method Scan(aml: Span, table: nat)
      requires Inv(View())
      modifies this, slots
      ensures Inv(View()) && View() == AmlScan.ScanTerms(aml, 0, old(View()), table).bats
    {
      var c := new Cursor(aml, 0);
      ScanTerms(c, table);
    }
  }

  /** The test on the value of a _HID. */
  method MatchBatteryId(span: Span, v: nat) returns (battery: bool)
    requires v < |span|
    ensures battery == BatteryId(span, v)
  {
    battery := false;
    if span[v] == 0x0C && v + 5 <= |span| {
      battery := span[v + 1] == 0x41 && span[v + 2] == 0x0D && span[v + 3] == 0xC8 && span[v + 4] == 0x0A;
    } else if span[v] == 0x0D {
      var i, j := v + 1, 0;
      battery := true;
      while j < |PNP0C0A|
        invariant j <= |PNP0C0A| && i == v + 1 + j
        invariant battery && i <= |span| && forall m :: 0 <= m < j ==> span[v + 1 + m] == PNP0C0A[m]
      {
        if i >= |span| || span[i] != PNP0C0A[j] {
          battery := false;
          break;
        }
        i, j := i + 1, j + 1;
      }
    }
  }
}
