/** Stateless PRG decoding and the byte views static analysis uses in its place. */
module MapperPolicies {
  import opened Bytes
  import opened ByteBits

  const BANK_SIZE := 0x4000

  datatype PolicyError = SelectedBankOutOfRange(bank: Byte, count: int)

  datatype Policy = Nrom(prgLen: int) | Uxrom(banks: int) | Mmc1(banks: int)
  {
    predicate Valid() {
      match this
      case Nrom(len) => len == BANK_SIZE || len == 2 * BANK_SIZE
      case Uxrom(n) => n == 2 || n == 4 || n == 8 || n == 16
      case Mmc1(n) => n == 2 || n == 4 || n == 8 || n == 16
    }

    predicate IsBanked() {
      !Nrom?
    }

    function PrgLength(): int {
      match this
      case Nrom(len) => len
      case Uxrom(n) => n * BANK_SIZE
      case Mmc1(n) => n * BANK_SIZE
    }

    function CheckedBankOffset(bank: Byte): Result<int, PolicyError> {
      if Nrom? then Ok(0)
      else if bank < banks then Ok(bank * BANK_SIZE)
      else Err(SelectedBankOutOfRange(bank, banks))
    }

    /** `Ok(None)` below $8000. */
    function CpuToPrgOffset(addr: Address, selected: Byte): Result<Option<int>, PolicyError> {
      if addr < 0x8000 then Ok(None)
      else if Nrom? then Ok(Some(if prgLen == BANK_SIZE then (addr - 0x8000) % BANK_SIZE else addr - 0x8000))
      else match CheckedBankOffset(selected)
        case Err(e) => Err(e)
        case Ok(base) =>
          Ok(Some(if addr < 0xC000 then base + (addr - 0x8000) else (banks - 1) * BANK_SIZE + (addr - 0xC000)))
    }

    function PrgBank(prg: seq<Byte>, bank: Byte): Result<seq<Byte>, PolicyError>
      requires Valid() && |prg| == PrgLength()
    {
      match CheckedBankOffset(bank)
      case Err(e) => Err(e)
      case Ok(base) => Ok(prg[base..base + BANK_SIZE])
    }

    function FixedPrg(prg: seq<Byte>): seq<Byte>
      requires Valid() && |prg| == PrgLength()
    {
      if Nrom? then (if prgLen == BANK_SIZE then prg else prg[BANK_SIZE..])
      else prg[(banks - 1) * BANK_SIZE..(banks - 1) * BANK_SIZE + BANK_SIZE]
    }

    /** The bytes analysis sees at $8000-$FFFF with `selected` in the switchable window. */
    function AnalysisView(prg: seq<Byte>, selected: Byte): Result<seq<Byte>, PolicyError>
      requires Valid() && |prg| == PrgLength()
    {
      if Nrom? then Ok(prg)
      else match PrgBank(prg, selected)
        case Err(e) => Err(e)
        case Ok(low) => Ok(low + FixedPrg(prg))
    }
  }

  /** A banked view holds, at every CPU address, the byte the address decoder selects; both refuse the same banks. */
  lemma ViewEqualsDecoder(p: Policy, prg: seq<Byte>, selected: Byte, addr: Address)
    requires p.Valid() && |prg| == p.PrgLength() && p.IsBanked() && addr >= 0x8000
    ensures var view, at := p.AnalysisView(prg, selected), p.CpuToPrgOffset(addr, selected);
            && (view.Ok? <==> at.Ok?) && (view.Ok? <==> selected < p.banks)
            && (view.Ok? ==> |view.value| == 0x8000 && at.value.Some? && 0 <= at.value.value < |prg|
                             && view.value[addr - 0x8000] == prg[at.value.value])
  {
    if selected < p.banks {
      var base := selected * BANK_SIZE;
      assert p.CheckedBankOffset(selected) == Ok(base);
    }
  }

  /** The fixed half holds what the address decoder selects from $C000 on, on every board and with any bank selected. */
  lemma FixedPrgIsDecoded(p: Policy, prg: seq<Byte>, selected: Byte, addr: Address)
    requires p.Valid() && |prg| == p.PrgLength() && addr >= 0xC000 && (p.IsBanked() ==> selected < p.banks)
    ensures var at := p.CpuToPrgOffset(addr, selected);
            && |p.FixedPrg(prg)| == 0x4000
            && at.Ok? && at.value.Some? && 0 <= at.value.value < |prg|
            && p.FixedPrg(prg)[addr - 0xC000] == prg[at.value.value]
  {
  }

  /** The accepted bank counts are the powers of two from two to sixteen. */
  lemma AcceptedBankCounts(n: int)
    ensures Uxrom(n).Valid() <==> exists k: nat :: 1 <= k <= 4 && n == Power2(k)
    ensures Policy.Mmc1(n).Valid() <==> exists k: nat :: 1 <= k <= 4 && n == Power2(k)
  {
    FirstPowers();
  }

  lemma FirstPowers()
    ensures Power2(0) == 1 && Power2(1) == 2 && Power2(2) == 4 && Power2(3) == 8 && Power2(4) == 16 && Power2(5) == 32
  {
    assert Power2(1) == 2 * Power2(0);
    assert Power2(2) == 2 * Power2(1);
    assert Power2(3) == 2 * Power2(2);
    assert Power2(4) == 2 * Power2(3);
    assert Power2(5) == 2 * Power2(4);
  }

  // ----- 16 KiB images seen as 32 KiB ones -----

  predicate IsNrom128(rom: seq<Byte>) {
    && |rom| >= 16 + BANK_SIZE
    && rom[0..4] == [0x4E, 0x45, 0x53, 0x1A]
    && rom[7] / 16 == 0 && rom[6] / 16 == 0
    && rom[4] == 1
    && rom[6] / 4 % 2 == 0
  }

  /** Duplicates the single PRG bank of such an image; any other image is returned as it is. */
  function ExpandNrom128(rom: seq<Byte>): seq<Byte> {
    if !IsNrom128(rom) then rom
    else rom[0..16][4 := 2] + rom[16..16 + BANK_SIZE] + rom[16..16 + BANK_SIZE] + rom[16 + BANK_SIZE..]
  }

  /** The mapper number: its upper half in byte 7, its lower one in byte 6. */
  function MapperNumber(rom: seq<Byte>): int
    requires |rom| > 7
  {
    16 * (rom[7] / 16) + rom[6] / 16
  }

  /** Exactly the images expanded: a full header with its magic, mapper 0, one bank, no trainer, and the bank itself. */
  lemma ExpandsExactly(rom: seq<Byte>)
    ensures ExpandNrom128(rom) != rom <==>
              && |rom| >= 0x4010
              && rom[0] == 'N' as int && rom[1] == 'E' as int && rom[2] == 'S' as int && rom[3] == 0x1A
              && MapperNumber(rom) == 0 && rom[4] == 1 && !BitAt(rom[6], 2)
  {
    if |rom| >= 0x4010 {
      assert rom[0..4] == [rom[0], rom[1], rom[2], rom[3]];
      var six := rom[6] / 2;
      assert BitAt(rom[6], 2) == BitAt(six, 1) == BitAt(six / 2, 0) && six / 2 == rom[6] / 4;
      if IsNrom128(rom) {
        assert ExpandNrom128(rom)[4] == 2;
      }
    }
  }

  /** PRG as the loader takes it: `banks` banks after the sixteen header bytes. */
  function PrgOf(rom: seq<Byte>): seq<Byte>
    requires |rom| > 4 && |rom| >= 16 + rom[4] * BANK_SIZE
  {
    rom[16..16 + rom[4] * BANK_SIZE]
  }

  /** Expansion changes no byte the CPU can see, and nothing after the PRG; a second expansion changes nothing. */
  lemma ExpansionIsInvisible(rom: seq<Byte>, addr: Address)
    requires IsNrom128(rom) && addr >= 0x8000
    ensures var out := ExpandNrom128(rom);
            && |out| == |rom| + BANK_SIZE && out[4] == 2 && |out| >= 16 + out[4] * BANK_SIZE
            && |PrgOf(rom)| == BANK_SIZE && |PrgOf(out)| == 2 * BANK_SIZE
            && (forall i :: 0 <= i < 16 && i != 4 ==> out[i] == rom[i])
            && out[16 + 2 * BANK_SIZE..] == rom[16 + BANK_SIZE..]
            && Nrom(2 * BANK_SIZE).CpuToPrgOffset(addr, 0).value.value < 2 * BANK_SIZE
            && Nrom(BANK_SIZE).CpuToPrgOffset(addr, 0).value.value < BANK_SIZE
            && PrgOf(out)[Nrom(2 * BANK_SIZE).CpuToPrgOffset(addr, 0).value.value]
               == PrgOf(rom)[Nrom(BANK_SIZE).CpuToPrgOffset(addr, 0).value.value]
            && ExpandNrom128(out) == out
  {
    var bank := rom[16..16 + BANK_SIZE];
    var out := ExpandNrom128(rom);
    var head := rom[0..16][4 := 2];
    Pieces(head, bank, bank, rom[16 + BANK_SIZE..]);
    assert PrgOf(rom) == bank;
    assert PrgOf(out) == bank + bank;
    var d := addr - 0x8000;
    assert d % BANK_SIZE == if d < BANK_SIZE then d else d - BANK_SIZE;
  }

  lemma Pieces<T>(head: seq<T>, a: seq<T>, b: seq<T>, tail: seq<T>)
    ensures var all := head + a + b + tail;
            && all[..|head|] == head
            && all[|head|..|head| + |a| + |b|] == a + b
            && all[|head| + |a| + |b|..] == tail
  {
  }
}

/** The MMC3's PRG decode and the per-window analysis views. */
module Mmc3Views {
  import opened Bytes
  import opened Mmc3Board

  const WINDOW_SIZE := 0x2000

  /** Physical 8 KiB banks at $8000, $A000, $C000 and $E000. */
  function PrgBanks(b: Board): (r: seq<Byte>)
    requires b.Valid()
    ensures |r| == 4
  {
    // `& 0x3f & (count - 1)` for a power of two.
    var r6: Byte := b.banks[6] % 64 % b.prgBankCount;
    var r7: Byte := b.banks[7] % 64 % b.prgBankCount;
    var last: Byte := b.prgBankCount - 1;
    if b.select / 0x40 % 2 == 0 then [r6, r7, last - 1, last] else [last - 1, r7, r6, last]
  }

  function CpuToPrgOffset(b: Board, addr: Address): Option<int>
    requires b.Valid()
  {
    if addr < 0x8000 then None
    else
      var relative := addr - 0x8000;
      Some(PrgBanks(b)[relative / WINDOW_SIZE] * WINDOW_SIZE + relative % WINDOW_SIZE)
  }

  lemma NestedRemainder(x: Byte, d: int)
    requires d == 4 || d == 8 || d == 16 || d == 32 || d == 64
    ensures x % 64 % d == x % d
  {
    Nested4(x);
    Nested8(x);
    Nested16(x);
    Nested32(x);
    if d == 64 { assert x % 64 % 64 == x % 64; }
  }

  lemma Nested4(x: Byte)
    ensures x % 64 % 4 == x % 4
  {
    Same4(x % 64, x / 64);
  }

  lemma Same4(r: int, q: int)
    ensures (r + 64 * q) % 4 == r % 4
  {
    assert r + 64 * q == 4 * (r / 4 + 16 * q) + r % 4;
  }

  lemma Nested8(x: Byte)
    ensures x % 64 % 8 == x % 8
  {
    Same8(x % 64, x / 64);
  }

  lemma Same8(r: int, q: int)
    ensures (r + 64 * q) % 8 == r % 8
  {
    assert r + 64 * q == 8 * (r / 8 + 8 * q) + r % 8;
  }

  lemma Nested16(x: Byte)
    ensures x % 64 % 16 == x % 16
  {
    Same16(x % 64, x / 64);
  }

  lemma Same16(r: int, q: int)
    ensures (r + 64 * q) % 16 == r % 16
  {
    assert r + 64 * q == 16 * (r / 16 + 4 * q) + r % 16;
  }

  lemma Nested32(x: Byte)
    ensures x % 64 % 32 == x % 32
  {
    Same32(x % 64, x / 64);
  }

  lemma Same32(r: int, q: int)
    ensures (r + 64 * q) % 32 == r % 32
  {
    assert r + 64 * q == 32 * (r / 32 + 2 * q) + r % 32;
  }

  lemma BanksInRange(b: Board)
    requires b.Valid()
    ensures forall i :: 0 <= i < 4 ==> PrgBanks(b)[i] < b.prgBankCount
    ensures PrgBanks(b)[3] == b.prgBankCount - 1
    ensures PrgBanks(b)[1] == b.banks[7] % b.prgBankCount
    ensures b.select / 0x40 % 2 == 0 ==> PrgBanks(b)[0] == b.banks[6] % b.prgBankCount && PrgBanks(b)[2] == b.prgBankCount - 2
    ensures b.select / 0x40 % 2 != 0 ==> PrgBanks(b)[2] == b.banks[6] % b.prgBankCount && PrgBanks(b)[0] == b.prgBankCount - 2
  {
    NestedRemainder(b.banks[6], b.prgBankCount);
    NestedRemainder(b.banks[7], b.prgBankCount);
  }

  /** After any events every CPU address above $8000 decodes inside the ROM. */
  lemma OffsetsStayInside(b: Board, events: seq<Event>, addr: Address)
    requires b.Valid() && addr >= 0x8000
    ensures var at := CpuToPrgOffset(Run(b, events), addr);
            at.Some? && 0 <= at.value < b.prgBankCount * WINDOW_SIZE
  {
    var r := Run(b, events);
    BanksInRange(r);
    var relative := addr - 0x8000;
    var bank := PrgBanks(r)[relative / WINDOW_SIZE];
    Scaled(bank, relative % WINDOW_SIZE, b.prgBankCount);
  }

  lemma Scaled(bank: int, within: int, count: int)
    requires 0 <= bank < count && 0 <= within < WINDOW_SIZE
    ensures 0 <= bank * WINDOW_SIZE + within < count * WINDOW_SIZE
  {
  }

  datatype ViewError = InvalidUnit(bank: Byte, window: Address)

  function Zeros(n: nat): (r: seq<Byte>)
    ensures |r| == n
  {
    seq(n, _ => 0)
  }

  /** One bank in its window, the last bank at $E000, zeros elsewhere. */
  function AnalysisView(count: int, prg: seq<Byte>, bank: Byte, window: Address): Result<seq<Byte>, ViewError>
    requires |prg| == count * WINDOW_SIZE && count >= 4
  {
    if bank >= count || !(window == 0x8000 || window == 0xA000 || window == 0xC000) then Err(InvalidUnit(bank, window))
    else
      var at := window - 0x8000;
      var piece := prg[bank * WINDOW_SIZE..bank * WINDOW_SIZE + WINDOW_SIZE];
      Ok(Zeros(at) + piece + Zeros(0x4000 - at) + prg[|prg| - WINDOW_SIZE..])
  }

  /** Which units have a view, and that it is zero outside the unit's window and the fixed one. */
  lemma ViewIsZeroElsewhere(count: int, prg: seq<Byte>, bank: Byte, window: Address, addr: Address)
    requires |prg| == count * WINDOW_SIZE && count >= 4
    ensures var view := AnalysisView(count, prg, bank, window);
            && (view.Ok? <==> bank < count && window in {0x8000, 0xA000, 0xC000})
            && (view.Ok? ==> |view.value| == 0x8000)
            && (view.Ok? && 0x8000 <= addr < 0xE000 && !(window <= addr < window + 0x2000) ==> view.value[addr - 0x8000] == 0)
  {
    if bank < count && window in {0x8000, 0xA000, 0xC000} {
      Scaled(bank, 0, count);
      var piece := prg[bank * WINDOW_SIZE..bank * WINDOW_SIZE + WINDOW_SIZE];
      var at := window - 0x8000;
      if 0x8000 <= addr < 0xE000 && !(window <= addr < window + 0x2000) {
        ZeroPart(Zeros(at), piece, Zeros(0x4000 - at), prg[|prg| - WINDOW_SIZE..], addr - 0x8000);
      }
    }
  }

  lemma ZeroPart(a: seq<Byte>, piece: seq<Byte>, c: seq<Byte>, last: seq<Byte>, i: nat)
    requires |piece| == WINDOW_SIZE && |a| + |c| == 0x4000 && (forall k :: 0 <= k < |a| ==> a[k] == 0) && (forall k :: 0 <= k < |c| ==> c[k] == 0)
    requires i < |a| || |a| + WINDOW_SIZE <= i < 0x6000
    ensures |a + piece + c + last| > i && (a + piece + c + last)[i] == 0
  {
    assert i >= |a| ==> (a + piece + c + last)[i] == c[i - |a| - WINDOW_SIZE];
  }

  /**
   Whatever was written before, while `bank` is mapped at `window` the view holds the board's
   byte at every address of that window and of the fixed one.
   */
  lemma ViewRefinesBoard(b: Board, events: seq<Event>, prg: seq<Byte>, bank: Byte, window: Address, addr: Address)
    requires b.Valid() && |prg| == b.prgBankCount * WINDOW_SIZE
    requires window == 0x8000 || window == 0xA000 || window == 0xC000
    requires PrgBanks(Run(b, events))[(window - 0x8000) / WINDOW_SIZE] == bank
    requires window <= addr < window + WINDOW_SIZE || 0xE000 <= addr
    ensures var view := AnalysisView(b.prgBankCount, prg, bank, window);
            var at := CpuToPrgOffset(Run(b, events), addr);
            && view.Ok? && |view.value| == 0x8000
            && at.Some? && 0 <= at.value < |prg|
            && view.value[addr - 0x8000] == prg[at.value]
  {
    var r := Run(b, events);
    ViewOf(r, prg, bank, window, addr);
  }

  /** Which 8 KiB window an address lies in, and where. */
  lemma WindowOf(window: Address, addr: Address)
    requires window == 0x8000 || window == 0xA000 || window == 0xC000
    ensures window <= addr < window + WINDOW_SIZE ==>
              (addr - 0x8000) / WINDOW_SIZE == (window - 0x8000) / WINDOW_SIZE && (addr - 0x8000) % WINDOW_SIZE == addr - window
    ensures 0xE000 <= addr ==> (addr - 0x8000) / WINDOW_SIZE == 3 && (addr - 0x8000) % WINDOW_SIZE == addr - 0xE000
  {
  }

  lemma ViewOf(r: Board, prg: seq<Byte>, bank: Byte, window: Address, addr: Address)
    requires r.Valid() && |prg| == r.prgBankCount * WINDOW_SIZE
    requires window == 0x8000 || window == 0xA000 || window == 0xC000
    requires PrgBanks(r)[(window - 0x8000) / WINDOW_SIZE] == bank
    requires window <= addr < window + WINDOW_SIZE || 0xE000 <= addr
    ensures var view := AnalysisView(r.prgBankCount, prg, bank, window);
            var at := CpuToPrgOffset(r, addr);
            && view.Ok? && |view.value| == 0x8000
            && at.Some? && 0 <= at.value < |prg|
            && view.value[addr - 0x8000] == prg[at.value]
  {
    hide PrgBanks, Zeros;
    BanksInRange(r);
    var at := window - 0x8000;
    var count := r.prgBankCount;
    Scaled(bank, (addr - 0x8000) % WINDOW_SIZE, count);
    WindowOf(window, addr);
    assert bank * WINDOW_SIZE + WINDOW_SIZE <= |prg|;
    var piece := prg[bank * WINDOW_SIZE..bank * WINDOW_SIZE + WINDOW_SIZE];
    var last := prg[|prg| - WINDOW_SIZE..];
    ViewByte(Zeros(at), piece, Zeros(0x4000 - at), last, addr - 0x8000);
  }

  lemma ViewByte(a: seq<Byte>, piece: seq<Byte>, c: seq<Byte>, last: seq<Byte>, i: nat)
    requires |piece| == WINDOW_SIZE && |last| == WINDOW_SIZE && |a| + |c| == 0x4000
    requires |a| <= i < |a| + WINDOW_SIZE || 0x6000 <= i < 0x8000
    ensures |a + piece + c + last| == 0x8000
    ensures (a + piece + c + last)[i] == if |a| <= i < |a| + WINDOW_SIZE then piece[i - |a|] else last[i - 0x6000]
  {
  }

  /** Every analysis unit is one the game can map: two register writes bring the bank into the window. */
  lemma EveryUnitIsReachable(b: Board, bank: Byte, window: Address) returns (events: seq<Event>)
    requires b.Valid() && bank < b.prgBankCount
    requires window == 0x8000 || window == 0xA000 || window == 0xC000
    ensures PrgBanks(Run(b, events))[(window - 0x8000) / WINDOW_SIZE] == bank
  {
    var r;
    events, r := UnitWrites(b, bank, window);
  }

  lemma UnitWrites(b: Board, bank: Byte, window: Address) returns (events: seq<Event>, r: Board)
    requires b.Valid() && bank < b.prgBankCount
    requires window == 0x8000 || window == 0xA000 || window == 0xC000
    ensures r == Run(b, events) && PrgBanks(r)[(window - 0x8000) / WINDOW_SIZE] == bank
  {
    var register: Byte := if window == 0xA000 then 7 else if window == 0xC000 then 0x46 else 6;
    events := [Write(0x8000, register), Write(0x8001, bank)];
    RunTwo(b, events[0], events[1]);
    WriteBankRegister(b, register, bank);
    r := b.(select := register, banks := b.banks[register % 8 := bank]);
    UnitMapped(r, bank, window);
  }

  lemma SmallModulo(x: int, d: int)
    requires 0 <= x < d
    ensures x % d == x
  {
  }

  lemma UnitMapped(r: Board, bank: Byte, window: Address)
    requires r.Valid() && bank < r.prgBankCount
    requires (window == 0xA000 && r.banks[7] == bank) || (window == 0xC000 && r.select == 0x46 && r.banks[6] == bank)
             || (window == 0x8000 && r.select == 6 && r.banks[6] == bank)
    ensures PrgBanks(r)[(window - 0x8000) / WINDOW_SIZE] == bank
  {
    hide PrgBanks;
    BanksInRange(r);
    SmallModulo(bank, r.prgBankCount);
  }

  lemma WriteBankRegister(b: Board, register: Byte, bank: Byte)
    requires b.Valid()
    ensures WriteTo(WriteTo(b, 0x8000, register), 0x8001, bank) == b.(select := register, banks := b.banks[register % 8 := bank])
  {
  }

  lemma RunTwo(b: Board, first: Event, second: Event)
    requires b.Valid()
    ensures Run(b, [first, second]) == Apply(Apply(b, first), second)
  {
    assert [first, second][..1] == [first] && [first][..0] == [];
    assert Run(b, [first]) == Apply(b, first);
  }
}
