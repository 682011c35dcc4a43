/**
 The dispatch directory: one entry per CPU address above $8000, giving where the
 runtime's first-match scan of the address-sorted record table may start.
 */
module DispatchIndex {
  import opened Bytes

  const FIXED_BANK: Byte := 0xFF

  datatype Record = Record(bank: Byte, addr: Address, name: string)

  /** Fixed-bank records sort before mapped ones at the same address. */
  function Rank(r: Record): int {
    if r.bank == FIXED_BANK then 0 else r.bank + 1
  }

  predicate NotAfter(r: Record, s: Record) {
    r.addr < s.addr || (r.addr == s.addr && Rank(r) <= Rank(s))
  }

  /** By address, at one address the fixed bank first, then by bank. */
  lemma OrderIs(r: Record, s: Record)
    ensures NotAfter(r, s) <==>
              || r.addr < s.addr
              || (r.addr == s.addr && (r.bank == 0xFF || (s.bank != 0xFF && !(s.bank < r.bank))))
  {
  }

  ghost predicate Sorted(records: seq<Record>) {
    forall i, j :: 0 <= i < j < |records| ==> NotAfter(records[i], records[j])
  }

  datatype IndexError = TableTooBig | OutsidePrg(addr: Address)

  function Page(addr: Address): int {
    addr / 256 - 0x80
  }

  function CountOnPage(records: seq<Record>, page: int): nat {
    if records == [] then 0
    else CountOnPage(records[..|records| - 1], page) + if Page(records[|records| - 1].addr) == page then 1 else 0
  }

  /** The records with an address on the page. */
  ghost function OnThePage(records: seq<Record>, page: int): set<int> {
    set i | 0 <= i < |records| && 0x8000 + 256 * page <= records[i].addr < 0x8000 + 256 * page + 256
  }

  /** The count is how many records lie on the page. */
  lemma {:induction false} CountIsSize(records: seq<Record>, page: int)
    ensures CountOnPage(records, page) == |OnThePage(records, page)|
  {
    if records == [] {
      assert OnThePage(records, page) == {};
    } else {
      var n := |records| - 1;
      CountIsSize(records[..n], page);
      var front := OnThePage(records[..n], page);
      if Page(records[n].addr) == page {
        assert OnThePage(records, page) == front + {n};
      } else {
        assert OnThePage(records, page) == front;
      }
    }
  }

  /** A page's record count as one byte; zero stands for empty and for oversized pages alike. */
  function CountByte(records: seq<Record>, page: int): Byte {
    if CountOnPage(records, page) < 256 then CountOnPage(records, page) else 0
  }

  /** The count byte is zero for empty pages and for those of 256 records and more, and otherwise the size of the page. */
  lemma CountByteIs(records: seq<Record>, page: int)
    ensures var b, size := CountByte(records, page), |OnThePage(records, page)|;
            && (b == 0 <==> size == 0 || size >= 256)
            && (b != 0 ==> b == size)
  {
    hide OnThePage;
    CountIsSize(records, page);
  }

  method PageCounts(records: seq<Record>) returns (r: Result<seq<Byte>, IndexError>)
    ensures r == Err(TableTooBig) <==> 6 * |records| + 2 > 0x4000
    ensures r.Ok? <==> 6 * |records| + 2 <= 0x4000 && forall i :: 0 <= i < |records| ==> records[i].addr >= 0x8000
    ensures r.Ok? ==> |r.value| == 128 && forall p :: 0 <= p < 128 ==> r.value[p] == CountByte(records, p)
  {
    if 6 * |records| + 2 > 0x4000 {
      return Err(TableTooBig);
    }
    var counts := new nat[128](_ => 0);
    var n := 0;
    while n < |records|
      invariant 0 <= n <= |records| && fresh(counts)
      invariant forall i :: 0 <= i < n ==> records[i].addr >= 0x8000
      invariant forall p :: 0 <= p < 128 ==> counts[p] == CountOnPage(records[..n], p)
    {
      if records[n].addr / 256 < 0x80 {
        return Err(OutsidePrg(records[n].addr));
      }
      var page := Page(records[n].addr);
      counts[page] := counts[page] + 1;
      assert records[..n + 1][..n] == records[..n];
      n := n + 1;
    }
    assert records[..n] == records;
    r := Ok(seq(128, p requires 0 <= p < 128 reads counts => if counts[p] < 256 then counts[p] else 0));
  }

  // ----- the directory -----

  /** How many records stand before the first with an address of at least `t`. */
  function LowerBound(records: seq<Record>, t: int): (n: nat)
    ensures n <= |records|
    ensures forall i :: 0 <= i < n ==> records[i].addr < t
    ensures n < |records| ==> records[n].addr >= t
  {
    if records == [] || records[0].addr >= t then 0 else 1 + LowerBound(records[1..], t)
  }

  /** In a sorted table it is the number of records below `t`. */
  lemma LowerBoundIs(records: seq<Record>, t: int, n: nat)
    requires Sorted(records) && n <= |records|
    requires n > 0 ==> records[n - 1].addr < t
    requires n < |records| ==> records[n].addr >= t
    ensures LowerBound(records, t) == n
  {
    forall i | 0 <= i < n
      ensures records[i].addr < t
    {
      assert i < n - 1 ==> NotAfter(records[i], records[n - 1]);
    }
  }

  function PageStart(page: int): int {
    0x8000 + 256 * page
  }

  /** The directory entry of address `t`. */
  function Entry(records: seq<Record>, counts: seq<Byte>, t: Address): nat
    requires |counts| == 128 && t >= 0x8000
  {
    if counts[Page(t)] == 0 then LowerBound(records, PageStart(Page(t))) else LowerBound(records, t)
  }

  ghost predicate Indexed(records: seq<Record>, counts: seq<Byte>, indices: seq<nat>)
    requires |counts| == 128
  {
    |indices| <= 0x8000 && forall k :: 0 <= k < |indices| ==> indices[k] == Entry(records, counts, 0x8000 + k)
  }

  /** Passes over the records of one page. */
  method EndOfPage(records: seq<Record>, page: nat, start: nat) returns (end: nat)
    requires Sorted(records) && page < 128 && start == LowerBound(records, PageStart(page))
    ensures end == LowerBound(records, PageStart(page + 1)) && start <= end
  {
    end := start;
    while end < |records| && records[end].addr / 256 == page + 0x80
      invariant start <= end <= |records|
      invariant end > start ==> records[end - 1].addr < PageStart(page + 1)
    {
      end := end + 1;
    }
    assert start < end && end < |records| ==> NotAfter(records[start], records[end]);
    LowerBoundIs(records, PageStart(page + 1), end);
  }

  /** Passes over the records of the page whose low byte is below `low`. */
  method Advance(records: seq<Record>, page: nat, low: nat, from: nat, start: nat, end: nat) returns (lower: nat)
    requires Sorted(records) && page < 128 && low <= 255 && start <= from <= end
    requires start == LowerBound(records, PageStart(page)) && end == LowerBound(records, PageStart(page + 1))
    requires from > 0 ==> records[from - 1].addr < PageStart(page) + low
    ensures from <= lower <= end && lower == LowerBound(records, PageStart(page) + low)
  {
    hide Sorted;
    lower := from;
    while lower < end && records[lower].addr % 256 < low
      invariant from <= lower <= end
      invariant lower > 0 ==> records[lower - 1].addr < PageStart(page) + low
    {
      OnPage(records, page, lower, start, end);
      lower := lower + 1;
    }
    if lower < end { OnPage(records, page, lower, start, end); }
    LowerBoundIs(records, PageStart(page) + low, lower);
  }

  /** The 256 entries of one page. */
  method PageEntries(records: seq<Record>, counts: seq<Byte>, page: nat, start: nat, end: nat) returns (entries: seq<nat>)
    requires Sorted(records) && |counts| == 128 && page < 128
    requires start == LowerBound(records, PageStart(page)) && end == LowerBound(records, PageStart(page + 1)) && start <= end
    ensures |entries| == 256
    ensures forall l :: 0 <= l < 256 ==> entries[l] == Entry(records, counts, PageStart(page) + l)
  {
    hide Sorted, LowerBound;
    entries := [];
    var lower := start;
    for low := 0 to 256
      invariant |entries| == low && start <= lower <= end
      invariant counts[page] == 0 ==> lower == start
      invariant lower > 0 ==> records[lower - 1].addr < PageStart(page) + low
      invariant forall l :: 0 <= l < low ==> entries[l] == Entry(records, counts, PageStart(page) + l)
    {
      if counts[page] != 0 {
        lower := Advance(records, page, low, lower, start, end);
      }
      assert Page(PageStart(page) + low) == page;
      entries := entries + [lower];
    }
  }

  lemma OnPage(records: seq<Record>, page: nat, i: nat, start: nat, end: nat)
    requires Sorted(records) && start == LowerBound(records, PageStart(page)) && end == LowerBound(records, PageStart(page + 1))
    requires start <= i < end
    ensures records[i].addr == PageStart(page) + records[i].addr % 256
  {
    assert start < i ==> NotAfter(records[start], records[i]);
    assert records[start].addr >= PageStart(page);
  }

  lemma IndexedMore(records: seq<Record>, counts: seq<Byte>, indices: seq<nat>, entries: seq<nat>, page: nat)
    requires |counts| == 128 && page < 128 && |indices| == 256 * page && Indexed(records, counts, indices) && |entries| == 256
    requires forall l :: 0 <= l < 256 ==> entries[l] == Entry(records, counts, PageStart(page) + l)
    ensures Indexed(records, counts, indices + entries)
  {
    var all := indices + entries;
    forall k | 0 <= k < |all|
      ensures all[k] == Entry(records, counts, 0x8000 + k)
    {
      if k >= |indices| {
        var l := k - |indices|;
        assert all[k] == entries[l] && PageStart(page) + l == 0x8000 + k;
      }
    }
  }

  method PointerIndices(records: seq<Record>, counts: seq<Byte>) returns (indices: seq<nat>)
    requires Sorted(records) && |counts| == 128 && forall i :: 0 <= i < |records| ==> records[i].addr >= 0x8000
    ensures |indices| == 0x8000 && Indexed(records, counts, indices)
  {
    indices := [];
    var start := 0;
    LowerBoundIs(records, 0x8000, 0);
    for page := 0 to 128
      invariant |indices| == 256 * page && start == LowerBound(records, PageStart(page))
      invariant Indexed(records, counts, indices)
    {
      var end := EndOfPage(records, page, start);
      var entries := PageEntries(records, counts, page, start, end);
      IndexedMore(records, counts, indices, entries, page);
      indices := indices + entries;
      start := end;
    }
  }

  /** In a sorted table an entry counts the records below its address, or below its page when the page's count byte is zero. */
  lemma EntryCounts(records: seq<Record>, counts: seq<Byte>, t: Address, i: nat)
    requires Sorted(records) && |counts| == 128 && t >= 0x8000 && i < |records|
    ensures i < Entry(records, counts, t) <==> records[i].addr < if counts[(t - 0x8000) / 256] == 0 then t - t % 256 else t
  {
    var bound := if counts[(t - 0x8000) / 256] == 0 then t - t % 256 else t;
    assert Page(t) == (t - 0x8000) / 256 && PageStart(Page(t)) == t - t % 256;
    var n := LowerBound(records, bound);
    if n < i {
      assert NotAfter(records[n], records[i]);
    }
  }

  // ----- the entry finds what the whole table holds -----

  predicate Accepts(r: Record, bank: Byte, t: Address) {
    r.addr == t && (r.bank == FIXED_BANK || r.bank == bank)
  }

  /** The runtime's scan from record `i`. */
  function FirstMatch(records: seq<Record>, i: nat, bank: Byte, t: Address): (r: Option<Record>)
    requires i <= |records|
    ensures r.Some? ==> Accepts(r.value, bank, t)
    ensures r.None? <==> forall j :: i <= j < |records| ==> !Accepts(records[j], bank, t)
    decreases |records| - i
  {
    if i == |records| then None
    else if Accepts(records[i], bank, t) then Some(records[i])
    else FirstMatch(records, i + 1, bank, t)
  }

  /** Record `k` is for the address, in the fixed bank or the given one. */
  predicate IsFor(records: seq<Record>, k: int, bank: Byte, t: Address)
    requires 0 <= k < |records|
  {
    records[k].addr == t && (records[k].bank == 0xFF || records[k].bank == bank)
  }

  /** The scan finds the first record for the address in the fixed bank or the given one. */
  lemma {:induction false} ScanFinds(records: seq<Record>, i: nat, bank: Byte, t: Address, k: nat)
    requires i <= k < |records| && IsFor(records, k, bank, t) && forall j :: i <= j < k ==> !IsFor(records, j, bank, t)
    ensures FirstMatch(records, i, bank, t) == Some(records[k])
    decreases k - i
  {
    if i < k {
      assert !IsFor(records, i, bank, t);
      ScanFinds(records, i + 1, bank, t, k);
    }
  }

  lemma ScanFindsNothing(records: seq<Record>, i: nat, bank: Byte, t: Address)
    requires i <= |records| && forall j :: i <= j < |records| ==> !IsFor(records, j, bank, t)
    ensures FirstMatch(records, i, bank, t).None?
  {
    forall j | i <= j < |records|
      ensures !Accepts(records[j], bank, t)
    {
      assert !IsFor(records, j, bank, t);
    }
  }

  lemma {:induction false} SkipBelow(records: seq<Record>, i: nat, n: nat, bank: Byte, t: Address)
    requires i <= n <= |records| && forall j :: i <= j < n ==> records[j].addr < t
    ensures FirstMatch(records, i, bank, t) == FirstMatch(records, n, bank, t)
    decreases n - i
  {
    if i < n {
      SkipBelow(records, i + 1, n, bank, t);
    }
  }

  lemma BoundsIncrease(records: seq<Record>, s: int, t: int)
    requires s <= t
    ensures LowerBound(records, s) <= LowerBound(records, t)
  {
  }

  /**
   For every address the directory entry is at most the number of records below it, and a scan
   from the entry finds the same record as a scan of the whole table, in any bank.
   */
  lemma EntryFindsTheSame(records: seq<Record>, counts: seq<Byte>, bank: Byte, t: Address)
    requires |counts| == 128 && t >= 0x8000
    ensures Entry(records, counts, t) <= LowerBound(records, t) <= |records|
    ensures FirstMatch(records, Entry(records, counts, t), bank, t) == FirstMatch(records, 0, bank, t)
  {
    BoundsIncrease(records, PageStart(Page(t)), t);
    SkipBelow(records, 0, Entry(records, counts, t), bank, t);
  }

  /** When a fixed-bank record and a mapped one share an address, the fixed one is found. */
  lemma FixedBankWins(records: seq<Record>, bank: Byte, t: Address, k: nat)
    requires Sorted(records) && k < |records| && records[k].addr == t && records[k].bank == FIXED_BANK
    ensures FirstMatch(records, 0, bank, t).Some? && FirstMatch(records, 0, bank, t).value.bank == FIXED_BANK
  {
    FirstFixed(records, 0, bank, t, k);
  }

  lemma {:induction false} FirstFixed(records: seq<Record>, i: nat, bank: Byte, t: Address, k: nat)
    requires Sorted(records) && i <= k < |records| && records[k].addr == t && records[k].bank == FIXED_BANK
    ensures FirstMatch(records, i, bank, t).Some? && FirstMatch(records, i, bank, t).value.bank == FIXED_BANK
    decreases k - i
  {
    if Accepts(records[i], bank, t) {
      assert i < k ==> NotAfter(records[i], records[k]);
    } else {
      FirstFixed(records, i + 1, bank, t, k);
    }
  }
}
