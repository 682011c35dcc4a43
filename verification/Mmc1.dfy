/** The MMC1 board: its serial port over arbitrary write histories, and its PRG decode. */
module Mmc1Board {
  import opened Bytes
  import opened ByteBits
  import opened MapperPolicies

  /** Internal registers hold five bits; PRG mode is bits 2-3 of control. */
  datatype Board = Board(
    bankCount: int, shift: Byte, shiftCount: nat, control: Byte, chr0: Byte, chr1: Byte, prg: Byte)
  {
    predicate Valid() {
      && (bankCount == 2 || bankCount == 4 || bankCount == 8 || bankCount == 16)
      && shiftCount < 5 && shift < 32 && control < 32 && chr0 < 32 && chr1 < 32 && prg < 32
    }

    function Mode(): int {
      control / 4 % 4
    }
  }

  datatype Access = Access(addr: Address, value: Byte)

  /** `control | 0x0c`: both mode bits on, the others kept. */
  function ForceMode3(control: Byte): (r: Byte)
    requires control < 32
    ensures r < 32 && r / 4 % 4 == 3 && r % 4 == control % 4 && r / 16 == control / 16
  {
    control / 16 * 16 + 12 + control % 4
  }

  function Resets(w: Access): bool {
    w.value >= 128
  }

  function Register(addr: Address): int {
    addr / 0x2000 % 4
  }

  /** A write resets by its top bit, and otherwise commits to the register that lines A14 and A13 select. */
  lemma LinesOfWrite(w: Access)
    ensures Resets(w) <==> BitAt(w.value, 7)
    ensures 0 <= Register(w.addr) < 4
    ensures BitAt(Register(w.addr), 1) <==> w.addr / 0x4000 % 2 == 1
    ensures BitAt(Register(w.addr), 0) <==> w.addr / 0x2000 % 2 == 1
  {
    SignPlace(w.value);
    var block := w.addr / 0x2000;
    assert block / 2 == w.addr / 0x4000;
    assert BitAt(block % 4, 1) == BitAt(block % 4 / 2, 0);
    LowTwo(block);
  }

  lemma LowTwo(block: int)
    ensures block % 4 % 2 == block % 2 && block % 4 / 2 == block / 2 % 2
  {
  }

  function Commit(b: Board, register: int, data: Byte): Board {
    if register == 0 then b.(control := data)
    else if register == 1 then b.(chr0 := data)
    else if register == 2 then b.(chr1 := data)
    else b.(prg := data)
  }

  function Write(b: Board, w: Access): (r: Board)
    requires b.Valid()
    ensures r.Valid() && r.bankCount == b.bankCount
  {
    if Resets(w) then b.(shift := 0, shiftCount := 0, control := ForceMode3(b.control))
    else
      var shift: Byte := b.shift / 2 + 16 * (w.value % 2);
      if b.shiftCount + 1 < 5 then b.(shift := shift, shiftCount := b.shiftCount + 1)
      else Commit(b, Register(w.addr), shift).(shift := 0, shiftCount := 0)
  }

  class Mmc1 {
    var bankCount: int
    var shift: Byte
    var shiftCount: nat
    var control: Byte
    var chr0: Byte
    var chr1: Byte
    var prg: Byte

    function State(): Board
      reads this
    {
      Board(bankCount, shift, shiftCount, control, chr0, chr1, prg)
    }

    /** Power-on: PRG mode 3. */
    constructor (count: int)
      ensures State() == Board(count, 0, 0, 0x0C, 0, 0, 0)
    {
      bankCount, shift, shiftCount, control, chr0, chr1, prg := count, 0, 0, 0x0C, 0, 0, 0;
    }

    method WriteRegister(addr: Address, value: Byte)
      requires State().Valid() && addr >= 0x8000
      modifies this
      ensures State() == Write(old(State()), Access(addr, value))
    {
      if value >= 128 {
        shift := 0;
        shiftCount := 0;
        control := ForceMode3(control);
        return;
      }
      shift := shift / 2 + 16 * (value % 2);
      shiftCount := shiftCount + 1;
      if shiftCount < 5 {
        return;
      }
      var data := shift;
      var register := addr / 0x2000 % 4;
      if register == 0 {
        control := data;
      } else if register == 1 {
        chr0 := data;
      } else if register == 2 {
        chr1 := data;
      } else {
        prg := data;
      }
      shift := 0;
      shiftCount := 0;
    }
  }

  function Run(b: Board, writes: seq<Access>): (r: Board)
    requires b.Valid()
    ensures r.Valid() && r.bankCount == b.bankCount
  {
    if writes == [] then b else Write(Run(b, writes[..|writes| - 1]), writes[|writes| - 1])
  }

  // ----- the port as a function of the write history -----

  /** Bit 0 of the writes since the last reset or commit, oldest first. */
  function Pending(writes: seq<Access>): (r: seq<int>)
    ensures |r| < 5 && forall i :: 0 <= i < |r| ==> 0 <= r[i] < 2
  {
    if writes == [] then []
    else
      var w := writes[|writes| - 1];
      var before := Pending(writes[..|writes| - 1]);
      if Resets(w) || |before| == 4 then [] else before + [w.value % 2]
  }

  /** The number whose binary digits are `bits`, least significant first. */
  function Value(bits: seq<int>): int {
    if bits == [] then 0 else bits[0] + 2 * Value(bits[1..])
  }

  function Power2(n: nat): nat {
    if n == 0 then 1 else 2 * Power2(n - 1)
  }

  lemma {:induction false} ValueAppend(bits: seq<int>, bit: int)
    ensures Value(bits + [bit]) == Value(bits) + bit * Power2(|bits|)
  {
    if bits == [] {
      assert [] + [bit] == [bit];
      assert Value([bit]) == bit + 2 * Value([]);
    } else {
      assert (bits + [bit])[1..] == bits[1..] + [bit];
      ValueAppend(bits[1..], bit);
    }
  }

  lemma Powers()
    ensures Power2(0) == 1 && Power2(1) == 2 && Power2(2) == 4 && Power2(3) == 8 && Power2(4) == 16 && Power2(5) == 32
  {
    assert Power2(1) == 2 * Power2(0);
    assert Power2(2) == 2 * Power2(1);
    assert Power2(3) == 2 * Power2(2);
    assert Power2(4) == 2 * Power2(3);
    assert Power2(5) == 2 * Power2(4);
  }

  /** The shift register holds the pending bits, oldest lowest, against its top end. */
  predicate Holds(b: Board, bits: seq<int>)
    requires |bits| < 5
  {
    b.shiftCount == |bits| && b.shift == Value(bits) * Power2(5 - |bits|)
  }

  lemma Complement(k: nat)
    requires k < 5
    ensures Power2(k) * Power2(4 - k) == 16
  {
    Powers();
  }

  lemma HalfOfDouble(v: int, twice: int, q: int)
    requires twice == 2 * q
    ensures v * twice / 2 == v * q
  {
    assert v * twice == 2 * (v * q);
  }

  lemma Distribute(v: int, bit: int, p: int, q: int)
    requires p * q == 16
    ensures (v + bit * p) * q == v * q + 16 * bit
  {
    assert bit * p * q == bit * (p * q);
  }

  /** Shifting a bit in from the top. */
  lemma ShiftIn(bits: seq<int>, bit: int)
    requires |bits| < 5
    ensures Value(bits) * Power2(5 - |bits|) / 2 + 16 * bit == Value(bits + [bit]) * Power2(4 - |bits|)
  {
    var v, k := Value(bits), |bits|;
    ValueAppend(bits, bit);
    Complement(k);
    Distribute(v, bit, Power2(k), Power2(4 - k));
    HalfOfDouble(v, Power2(5 - k), Power2(4 - k));
  }

  /** Over any history the port holds exactly the bits written since the last reset or commit. */
  lemma {:induction false} PortIsHistory(b: Board, writes: seq<Access>)
    requires b.Valid() && b.shift == 0 && b.shiftCount == 0
    ensures Holds(Run(b, writes), Pending(writes))
  {
    if writes != [] {
      var last := |writes| - 1;
      PortIsHistory(b, writes[..last]);
      ShiftIn(Pending(writes[..last]), writes[last].value % 2);
    }
  }

  /**
   A write to a port holding four bits commits all five, least significant first, to the
   register its own address picks, and changes no other register; no write before it does.
   */
  lemma FifthWriteCommits(b: Board, writes: seq<Access>, w: Access)
    requires b.Valid() && b.shift == 0 && b.shiftCount == 0
    ensures var before, after := Run(b, writes), Run(b, writes + [w]);
            var bits := Pending(writes) + [w.value % 2];
            && (!Resets(w) && |bits| == 5 ==>
                  var register := Register(w.addr);
                  && after.control == (if register == 0 then Value(bits) else before.control)
                  && after.chr0 == (if register == 1 then Value(bits) else before.chr0)
                  && after.chr1 == (if register == 2 then Value(bits) else before.chr1)
                  && after.prg == (if register == 3 then Value(bits) else before.prg)
                  && after.shift == 0 && after.shiftCount == 0)
            && (!Resets(w) && |bits| < 5 ==> after == before.(shift := after.shift, shiftCount := |bits|))
            && (Resets(w) ==> after == before.(shift := 0, shiftCount := 0, control := ForceMode3(before.control)) && after.Mode() == 3)
  {
    PortIsHistory(b, writes);
    assert (writes + [w])[..|writes|] == writes;
    OneWrite(Run(b, writes), Pending(writes), w);
  }

  /** One write to a port that holds `bits`. */
  lemma OneWrite(before: Board, bits: seq<int>, w: Access)
    requires before.Valid() && |bits| < 5 && Holds(before, bits)
    ensures var after, more := Write(before, w), bits + [w.value % 2];
            && (!Resets(w) && |more| == 5 ==>
                  var register := Register(w.addr);
                  && after.control == (if register == 0 then Value(more) else before.control)
                  && after.chr0 == (if register == 1 then Value(more) else before.chr0)
                  && after.chr1 == (if register == 2 then Value(more) else before.chr1)
                  && after.prg == (if register == 3 then Value(more) else before.prg)
                  && after.shift == 0 && after.shiftCount == 0)
            && (!Resets(w) && |more| < 5 ==> after == before.(shift := after.shift, shiftCount := |more|))
            && (Resets(w) ==> after == before.(shift := 0, shiftCount := 0, control := ForceMode3(before.control)) && after.Mode() == 3)
  {
    if !Resets(w) && |bits| == 4 {
      LastShift(bits, w.value % 2);
    }
  }

  /** With four bits pending the shift delivers the whole value. */
  lemma LastShift(bits: seq<int>, bit: int)
    requires |bits| == 4
    ensures Value(bits) * Power2(1) / 2 + 16 * bit == Value(bits + [bit])
  {
    ShiftIn(bits, bit);
    Powers();
  }

  ghost predicate SameValues(a: seq<Access>, b: seq<Access>) {
    |a| == |b| && forall i :: 0 <= i < |a| ==> a[i].value == b[i].value
  }

  /** Where a write commits: the address of every other write is irrelevant to the registers. */
  ghost predicate CommitsAlike(a: seq<Access>, b: seq<Access>)
    requires |a| == |b|
  {
    forall i :: 0 <= i < |a| && !Resets(a[i]) && |Pending(a[..i])| == 4 ==> Register(a[i].addr) == Register(b[i].addr)
  }

  lemma {:induction false} OnlyCommitAddressesMatter(start: Board, a: seq<Access>, b: seq<Access>)
    requires start.Valid() && start.shift == 0 && start.shiftCount == 0 && SameValues(a, b) && CommitsAlike(a, b)
    ensures Run(start, a) == Run(start, b)
  {
    if a != [] {
      var last := |a| - 1;
      var a', b' := a[..last], b[..last];
      forall i | 0 <= i < |a'| && !Resets(a'[i]) && |Pending(a'[..i])| == 4
        ensures Register(a'[i].addr) == Register(b'[i].addr)
      {
        assert a'[..i] == a[..i];
      }
      OnlyCommitAddressesMatter(start, a', b');
      PortIsHistory(start, a');
      WritesAlike(Run(start, a'), a[last], b[last]);
    }
  }

  lemma WritesAlike(b: Board, v: Access, w: Access)
    requires b.Valid() && v.value == w.value
    requires !Resets(v) && b.shiftCount == 4 ==> Register(v.addr) == Register(w.addr)
    ensures Write(b, v) == Write(b, w)
  {
  }

  // ----- PRG decode -----

  function CpuToPrgOffset(b: Board, addr: Address): Option<int>
    requires b.Valid()
  {
    if addr < 0x8000 then None
    else
      var bank := b.prg % 16;
      if b.Mode() < 2 then Some((bank - bank % 2) % b.bankCount * BANK_SIZE + (addr - 0x8000))
      else
        var bank16 :=
          if b.Mode() == 2 then (if addr < 0xC000 then 0 else bank % b.bankCount)
          else if addr < 0xC000 then bank % b.bankCount else b.bankCount - 1;
        Some(bank16 * BANK_SIZE + if addr < 0xC000 then addr - 0x8000 else addr - 0xC000)
  }

  lemma EvenByHalf(h: int, count: int)
    requires 0 <= h < 8 && (count == 2 || count == 4 || count == 8 || count == 16)
    ensures 2 * h % count == 2 * (h % (count / 2))
  {
  }

  /** The even bank of a pair: the register's without its lowest bit, around the number of banks. */
  lemma EvenBank(bank: int, count: int)
    requires 0 <= bank < 16 && (count == 2 || count == 4 || count == 8 || count == 16)
    ensures 0 <= (bank - bank % 2) % count <= count - 2
    ensures (bank - bank % 2) % count == 2 * (bank / 2 % (count / 2))
  {
    var h := bank / 2;
    assert bank - bank % 2 == 2 * h && 0 <= h < 8;
    EvenByHalf(h, count);
  }

  /** After any writes, in every PRG mode, an address above $8000 decodes inside the ROM. */
  lemma OffsetsStayInside(b: Board, writes: seq<Access>, addr: Address)
    requires b.Valid() && addr >= 0x8000
    ensures var at := CpuToPrgOffset(Run(b, writes), addr);
            at.Some? && 0 <= at.value < b.bankCount * BANK_SIZE
  {
    var r := Run(b, writes);
    EvenBank(r.prg % 16, r.bankCount);
    BankInside((r.prg % 16 - r.prg % 16 % 2) % r.bankCount, r.bankCount);
  }

  /** The 16 KiB bank an offset lies in. */
  function BankOf(offset: int): int {
    offset / 0x4000
  }

  lemma BankAndPlace(bank: int, place: int)
    requires 0 <= place < 0x4000
    ensures BankOf(bank * 0x4000 + place) == bank && (bank * 0x4000 + place) % 0x4000 == place
  {
  }

  lemma PairAndPlace(bank: int, place: int)
    requires 0 <= place < 0x8000 && bank % 2 == 0
    ensures BankOf(bank * 0x4000 + place) == bank + place / 0x4000
    ensures (bank * 0x4000 + place) % 0x4000 == place % 0x4000
  {
    BankAndPlace(bank + place / 0x4000, place % 0x4000);
  }

  /** Whether the upper half of the address space is meant. */
  predicate Upper(addr: Address) {
    addr >= 0xC000
  }

  lemma SelectedBank(bank: int, count: int)
    requires 0 <= bank < 16 && (count == 2 || count == 4 || count == 8 || count == 16)
    ensures (bank - bank % count) % count == 0
  {
  }

  lemma DecodesPairs(b: Board, addr: Address)
    requires b.Valid() && addr >= 0x8000 && b.Mode() < 2
    ensures var at := CpuToPrgOffset(b, addr);
            && at.Some? && at.value % 0x4000 == addr % 0x4000
            && BankOf(at.value) % 2 == (if Upper(addr) then 1 else 0)
            && BankOf(at.value) / 2 == b.prg % 16 / 2 % (b.bankCount / 2)
  {
    hide BankOf;
    var h := b.prg % 16 / 2 % (b.bankCount / 2);
    EvenBank(b.prg % 16, b.bankCount);
    PairAndPlace(2 * h, addr - 0x8000);
    assert (2 * h + (addr - 0x8000) / 0x4000) / 2 == h;
  }

  lemma DecodesSingly(b: Board, addr: Address)
    requires b.Valid() && addr >= 0x8000 && b.Mode() >= 2
    ensures var at := CpuToPrgOffset(b, addr);
            && at.Some? && at.value % 0x4000 == addr % 0x4000
            && BankOf(at.value) == if Upper(addr) == (b.Mode() == 2) then b.prg % 16 % b.bankCount
                                   else if Upper(addr) then b.bankCount - 1 else 0
    ensures 0 <= b.prg % 16 % b.bankCount < b.bankCount
    ensures (b.prg % 16 - b.prg % 16 % b.bankCount) % b.bankCount == 0
  {
    hide BankOf;
    var bank := if Upper(addr) == (b.Mode() == 2) then b.prg % 16 % b.bankCount else if Upper(addr) then b.bankCount - 1 else 0;
    BankAndPlace(bank, addr % 0x4000);
    SelectedBank(b.prg % 16, b.bankCount);
  }

  /**
   What each PRG mode shows. The place within the bank is always the address's own; modes 0 and 1
   show an even bank below and its successor above, mode 2 the first bank below, mode 3 the last
   one above, and the other window of modes 2 and 3 the selected bank.
   */
  lemma DecodesByMode(b: Board, addr: Address)
    requires b.Valid() && addr >= 0x8000
    ensures var at := CpuToPrgOffset(b, addr);
            && at.Some? && at.value % 0x4000 == addr % 0x4000
            && var bank := BankOf(at.value);
               && (b.Mode() < 2 ==> bank % 2 == (if Upper(addr) then 1 else 0) && bank / 2 == b.prg % 16 / 2 % (b.bankCount / 2))
               && (b.Mode() == 2 && !Upper(addr) ==> bank == 0)
               && (b.Mode() == 3 && Upper(addr) ==> bank == b.bankCount - 1)
               && (b.Mode() >= 2 && Upper(addr) == (b.Mode() == 2) ==> 0 <= bank < b.bankCount && (b.prg % 16 - bank) % b.bankCount == 0)
  {
    hide CpuToPrgOffset, BankOf;
    if b.Mode() < 2 {
      DecodesPairs(b, addr);
    } else {
      DecodesSingly(b, addr);
    }
  }

  lemma BankInside(bank: int, count: int)
    requires 0 <= bank <= count - 2
    ensures bank * BANK_SIZE + 2 * BANK_SIZE <= count * BANK_SIZE
  {
  }

  /** In PRG mode 3 the live board decodes every address as the stateless policy does. */
  lemma Mode3IsThePolicy(b: Board, addr: Address)
    requires b.Valid() && b.Mode() == 3
    ensures MapperPolicies.Mmc1(b.bankCount).CpuToPrgOffset(addr, b.prg % 16 % b.bankCount) == Ok(CpuToPrgOffset(b, addr))
  {
  }

  /** A reset write brings the board to where the policy holds, whatever came before. */
  lemma ResetReachesThePolicy(b: Board, writes: seq<Access>, w: Access, addr: Address)
    requires b.Valid() && Resets(w)
    ensures var r := Run(b, writes + [w]);
            MapperPolicies.Mmc1(r.bankCount).CpuToPrgOffset(addr, r.prg % 16 % r.bankCount) == Ok(CpuToPrgOffset(r, addr))
  {
    assert (writes + [w])[..|writes|] == writes;
    Mode3IsThePolicy(Run(b, writes + [w]), addr);
  }
}
