/**
 The two tests for writes that may change the program mapping, against what the operations
 do: one is exact, the other passes over some writers, which are named.
 */
module RemapMeaning {
  import opened Bytes
  import opened Isa
  import opened Ir
  import opened RemapSafety

  /** `may_remap_mmc3_prg`: the operation may write $8000-$9FFF. */
  predicate MayRemapPrg(op: Op) {
    if op.MapperWrite? then 0x8000 <= op.register < 0xA000
    else if op.StoreMem? then MayName(op.addr, 0x8000, 0xA000)
    else op.ModifyMem? && MayName(op.addr, 0x8000, 0xA000)
  }

  predicate MayName(e: AddrExpr, lo: int, hi: int) {
    match e
    case Const(a) => lo <= a < hi
    case AbsIndexedX(a) => exists index: Byte :: IndexedInto(a, index, lo, hi)
    case AbsIndexedY(a) => exists index: Byte :: IndexedInto(a, index, lo, hi)
    case IndirectPtrX(_) => true
    case IndirectPtrY(_) => true
    case _ => false
  }

  predicate IndexedInto(a: Address, index: Byte, lo: int, hi: int) {
    lo <= WrapAddress(a + index) < hi
  }

  /** On some machine the operation changes a byte in `[lo, hi)`. */
  ghost predicate CanChange(op: Op, lo: int, hi: int)
    requires Sequential(op)
  {
    exists m: Machine, a: Address :: lo <= a < hi && Changes(op, m, a)
  }

  predicate Changes(op: Op, m: Machine, a: Address)
    requires Sequential(op)
  {
    Effect(op, m).bus.mem[a] != m.bus.mem[a]
  }

  // ----- what an operation can write -----

  /** The operations write at their address, the pushes in page one, and the rest nowhere. */
  lemma WritesAtItsAddress(op: Op, m: Machine, a: Address)
    requires Sequential(op) && Changes(op, m, a) && a >= 0x200
    ensures (op.StoreMem? || op.ModifyMem?) && Resolve(op.addr, m) == a
  {
    hide Shift, FlagsByte, ByteFlags, And8, Or8, Xor8;
  }

  lemma ResolvesWithin(e: AddrExpr, m: Machine, lo: int, hi: int)
    requires 0x200 <= lo <= Resolve(e, m) < hi
    ensures MayName(e, lo, hi)
  {
    match e
    case AbsIndexedX(a) => assert IndexedInto(a, m.x, lo, hi);
    case AbsIndexedY(a) => assert IndexedInto(a, m.y, lo, hi);
    case _ =>
  }

  // ----- and that it can -----

  const CLEAR := Flags(false, false, false, false, false, false, false, false)

  /** All memory zero and writable, the index registers as given. */
  function Blank(x: Byte, y: Byte): (m: Machine)
    ensures m.x == x && m.y == y && m.bus.romStart == 0x1_0000
  {
    Machine(0, x, y, 0, CLEAR, Bus(seq(0x1_0000, _ => 0), 0x1_0000))
  }

  function WithByte(m: Machine, a: Address, v: Byte): (r: Machine)
    ensures r == m.(bus := r.bus) && r.bus.romStart == m.bus.romStart
    ensures forall b: Address :: r.bus.mem[b] == if b == a then v else m.bus.mem[b]
  {
    m.(bus := Bus(m.bus.mem[a := v], m.bus.romStart))
  }

  lemma PointerSet(zp: Byte, target: Address) returns (m: Machine)
    ensures m.x == 0 && m.y == 0 && m.bus.romStart == 0x1_0000 && m.bus.Pointer(zp) == target
  {
    m := WithByte(WithByte(Blank(0, 0), zp, Low(target)), (zp + 1) % 256, High(target));
  }

  /** What an address expression may name, some machine resolves it to. */
  lemma Resolvable(e: AddrExpr, lo: int, hi: int) returns (m: Machine)
    requires 0x200 <= lo < hi <= 0x1_0000 && MayName(e, lo, hi)
    ensures lo <= Resolve(e, m) < hi && m.bus.romStart == 0x1_0000
  {
    hide Blank, Bus.Pointer;
    m := Blank(0, 0);
    match e
    case Const(_) =>
    case AbsIndexedX(a) =>
      var index: Byte :| IndexedInto(a, index, lo, hi);
      m := Blank(index, 0);
    case AbsIndexedY(a) =>
      var index: Byte :| IndexedInto(a, index, lo, hi);
      m := Blank(0, index);
    case IndirectPtrX(zp) => m := PointerSet(zp, lo);
    case IndirectPtrY(zp) => m := PointerSet(zp, lo);
  }

  /** A byte outside zero page does not move the address. */
  lemma ResolvesAlike(e: AddrExpr, m: Machine, a: Address, v: Byte)
    requires a >= 0x200
    ensures Resolve(e, WithByte(m, a, v)) == Resolve(e, m)
  {
  }

  /** A value for the target that the operation does not leave in place. */
  lemma ChangesTarget(op: Op, m: Machine, a: Address) returns (m': Machine)
    requires (op.StoreMem? || op.ModifyMem?) && Resolve(op.addr, m) == a && a >= 0x200 && m.bus.romStart == 0x1_0000
    ensures Changes(op, m', a)
  {
    hide Resolve, WithByte;
    var v: Byte := if op.StoreMem? then (StoreValue(op.store, m) + 1) % 256 else 1;
    m' := WithByte(m, a, v);
    ResolvesAlike(op.addr, m, a, v);
  }

  /** Whether an operation can change a byte is whether its address may name one. */
  lemma CanChangeIff(op: Op, lo: int, hi: int)
    requires Sequential(op) && 0x200 <= lo < hi <= 0x1_0000
    ensures CanChange(op, lo, hi) <==> (op.StoreMem? || op.ModifyMem?) && MayName(op.addr, lo, hi)
  {
    hide Effect, Resolve, MayName;
    if CanChange(op, lo, hi) {
      var m: Machine, a: Address :| lo <= a < hi && Changes(op, m, a);
      WritesAtItsAddress(op, m, a);
      ResolvesWithin(op.addr, m, lo, hi);
    }
    if (op.StoreMem? || op.ModifyMem?) && MayName(op.addr, lo, hi) {
      var m := Resolvable(op.addr, lo, hi);
      var m' := ChangesTarget(op, m, Resolve(op.addr, m));
    }
  }

  /** The test for writes to $8000-$9FFF is exact: an operation passes if and only if no machine lets it change a byte there. */
  lemma MayRemapPrgIsExact(op: Op)
    requires Sequential(op)
    ensures MayRemapPrg(op) <==> CanChange(op, 0x8000, 0xA000)
  {
    CanChangeIff(op, 0x8000, 0xA000);
  }

  // ----- the test on mapped routines -----

  /** The address without its index or pointer, which selects the region. */
  function BaseOf(e: AddrExpr): Address {
    match e
    case Const(a) => a
    case ZpConst(zp) => zp
    case ZpIndexedX(zp) => zp
    case ZpIndexedY(zp) => zp
    case AbsIndexedX(a) => a
    case AbsIndexedY(a) => a
    case IndirectPtrX(zp) => zp
    case IndirectPtrY(zp) => zp
  }

  /**
   The writers the check on mapped routines passes over: every operation but STA, and an STA whose
   indexed address crosses from below $8000 into the mapped space. Every other operation that can
   change a byte from $8000 on is taken for a writer.
   */
  lemma WhatTheCheckPassesOver(op: Op)
    requires Sequential(op) && (op.StoreMem? ==> op.region == ClassifyAddr(BaseOf(op.addr)))
    ensures CanChange(op, 0x8000, 0x1_0000) && !MayRemap(op) <==>
              if op.StoreMem? && op.store.Sta? then
                (op.addr.AbsIndexedX? || op.addr.AbsIndexedY?) && 0x8000 - 255 <= BaseOf(op.addr) < 0x8000
              else
                (op.StoreMem? || op.ModifyMem?) && MayName(op.addr, 0x8000, 0x1_0000)
  {
    hide CanChange;
    CanChangeIff(op, 0x8000, 0x1_0000);
    if op.StoreMem? && (op.addr.AbsIndexedX? || op.addr.AbsIndexedY?) {
      IndexedAcross(BaseOf(op.addr));
    }
  }

  lemma IndexedAcross(a: Address)
    ensures a < 0x8000 ==> ((exists index: Byte :: IndexedInto(a, index, 0x8000, 0x1_0000)) <==> 0x8000 - 255 <= a)
  {
    if 0x8000 - 255 <= a < 0x8000 {
      assert IndexedInto(a, 0x8000 - a, 0x8000, 0x1_0000);
    }
  }

  /** An STA counts exactly when its base lies in expansion space or from $8000 on, or it goes through a pointer. */
  lemma StaCounts(op: Op)
    requires op.StoreMem? && op.store.Sta? && op.region == ClassifyAddr(BaseOf(op.addr))
    ensures MayRemap(op) <==>
              || 0x4020 <= BaseOf(op.addr) < 0x6000 || 0x8000 <= BaseOf(op.addr)
              || op.addr.IndirectPtrX? || op.addr.IndirectPtrY?
  {
  }

  /** INC $8000 in a mapped routine: it changes the byte, and the check does not see it. */
  lemma IncrementIsPassedOver()
    ensures var op := ModifyMem(ModifyOp.Inc, Const(0x8000), PrgRom);
            Sequential(op) && MayRemapPrg(op) && CanChange(op, 0x8000, 0xA000) && !MayRemap(op)
  {
    MayRemapPrgIsExact(ModifyMem(ModifyOp.Inc, Const(0x8000), PrgRom));
  }
}
