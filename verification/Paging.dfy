/**
 * The page tables that student-distrib/paging.c builds, and the 32-bit paging walk of the Intel
 * SDM, Volume 3A, section 4.3, that the processor makes with them.
 */
module Paging {
  import opened Bytes
  import Console

  const TABLE := 0x2000
  const ENTRIES := 1024
  const PAGE := 0x1000
  const LARGE_PAGE := 0x40_0000

  /** Bitwise or. */
  function Or(a: nat, b: nat): nat
    decreases a + b
  {
    if a == 0 && b == 0 then 0
    else 2 * Or(a / 2, b / 2) + (if a % 2 == 1 || b % 2 == 1 then 1 else 0)
  }

  function Bit(x: nat, k: nat): nat
    decreases k
  {
    if k == 0 then x % 2 else Bit(x / 2, k - 1)
  }

  /** A bit of `Or` is set exactly when it is set in either word. */
  lemma {:induction false} OrBits(a: nat, b: nat, k: nat)
    ensures Bit(Or(a, b), k) == 1 <==> Bit(a, k) == 1 || Bit(b, k) == 1
    decreases k
  {
    OrParts(a, b);
    if k > 0 {
      OrBits(a / 2, b / 2, k - 1);
    }
  }

  lemma OrParts(a: nat, b: nat)
    ensures Or(a, b) / 2 == Or(a / 2, b / 2)
    ensures Or(a, b) % 2 == 1 <==> a % 2 == 1 || b % 2 == 1
  {
    OrHalves(a, b);
  }

  /** The low `n` bits of `m` are 0. */
  predicate LowClear(m: nat, n: nat) {
    n == 0 || (m % 2 == 0 && LowClear(m / 2, n - 1))
  }

  lemma {:induction false} ShiftedClear(q: nat, n: nat)
    ensures LowClear(q * Pow(2, n), n)
    decreases n
  {
    if n > 0 {
      ShiftedClear(q, n - 1);
      TwiceAs(q, Pow(2, n - 1));
    }
  }

  lemma TwiceAs(q: nat, p: nat)
    ensures q * (2 * p) == 2 * (q * p)
  {
  }

  lemma {:induction false} OrClear(m: nat, low: nat, flags: nat, n: nat)
    requires LowClear(m, n) && low < Pow(2, n) && flags < Pow(2, n)
    ensures Or(m + low, flags) == m + Or(low, flags)
    decreases n
  {
    if n == 0 {
      OrZero(m);
    } else {
      OrClear(m / 2, low / 2, flags / 2, n - 1);
      OrHalves(m + low, flags);
      OrHalves(low, flags);
    }
  }

  /** Or-ing flags into the low bits of a word leaves the high ones alone. */
  lemma OrLow(q: nat, low: nat, flags: nat, n: nat)
    requires low < Pow(2, n) && flags < Pow(2, n)
    ensures Or(q * Pow(2, n) + low, flags) == q * Pow(2, n) + Or(low, flags)
  {
    ShiftedClear(q, n);
    OrClear(q * Pow(2, n), low, flags, n);
  }

  lemma OrHalves(a: nat, b: nat)
    ensures Or(a, b) == 2 * Or(a / 2, b / 2) + (if a % 2 == 1 || b % 2 == 1 then 1 else 0)
  {
  }

  lemma {:induction false} OrZero(a: nat)
    ensures Or(a, 0) == a
  {
    if a > 0 {
      OrZero(a / 2);
    }
  }

  lemma OrPage(q: nat, low: nat, flags: nat)
    requires low < PAGE && flags < PAGE
    ensures Or(q * PAGE + low, flags) == q * PAGE + Or(low, flags)
  {
    assert Pow(2, 12) == PAGE;
    OrLow(q, low, flags, 12);
  }

  // ---------------------------------------------------------------- the walk

  predicate Present(entry: nat) {
    entry % 2 == 1
  }

  /** The page-size bit of a directory entry. */
  predicate Large(entry: nat) {
    entry / 0x80 % 2 == 1
  }

  /** The translation of a linear address, with the directory in `dir` and the one page table, at TABLE, in `table`. */
  function Walk(dir: seq<nat>, table: seq<nat>, va: nat): (pa: Option<nat>)
    requires |dir| == |table| == ENTRIES && va < 0x1_0000_0000
  {
    var pde := dir[va / LARGE_PAGE];
    if !Present(pde) then None
    else if Large(pde) then Some(pde / LARGE_PAGE * LARGE_PAGE + va % LARGE_PAGE)
    else if pde / PAGE * PAGE != TABLE then None
    else
      var pte := table[va / PAGE % ENTRIES];
      if !Present(pte) then None else Some(pte / PAGE * PAGE + va % PAGE)
  }

  /** The memory that the kernel means to map. */
  predicate Mapped(va: nat) {
    0x1000 <= va < 0x3000 || 0xB_8000 <= va < 0xB_9000 || 0x10_0000 <= va < 0x80_0000
  }

  /** The tables that `paging_init` leaves: only the first entry of the directory leads to the table. */
  ghost predicate Tables(dir: seq<nat>, table: seq<nat>) {
    && |dir| == |table| == ENTRIES
    && dir[0] == TABLE + 3 && dir[1] == LARGE_PAGE + 0x181
    && (forall k :: 2 <= k < ENTRIES ==> dir[k] == LARGE_PAGE * k + 2)
    && (forall k :: 0 <= k < ENTRIES ==> table[k] == if k == 0 then 0 else PAGE * k + if MappedPage(k) then 3 else 2)
  }

  predicate MappedPage(k: nat) {
    k == 1 || k == 2 || k == 0xB8 || k >= 0x100
  }

  /** The walk maps the intended memory to itself, and nothing else. */
  lemma WalkIsIdentity(dir: seq<nat>, table: seq<nat>, va: nat)
    requires Tables(dir, table) && va < 0x1_0000_0000
    ensures Walk(dir, table, va) == if Mapped(va) then Some(va) else None
  {
  }

  /** The map: the directory and the table, the display, the saved text and the kernel; the first page faults. */
  lemma MemoryMap(dir: seq<nat>, table: seq<nat>, va: nat)
    requires Tables(dir, table) && va < 0x1_0000_0000
    ensures Walk(dir, table, va) == None || Walk(dir, table, va) == Some(va)
    ensures Walk(dir, table, va) == Some(va) <==>
      0x1000 <= va < 0x3000 || 0xB_8000 <= va < 0xB_9000 || 0x10_0000 <= va < 0x40_0000 || 0x40_0000 <= va < 0x80_0000
  {
    WalkIsIdentity(dir, table, va);
  }

  /** Every cell that the console stores to, in the window or in the saved buffer, is mapped to itself. */
  lemma ConsoleIsMapped(dir: seq<nat>, table: seq<nat>, i: nat, byte: nat)
    requires Tables(dir, table) && byte < 2
    ensures i < Console.WINDOW ==> Walk(dir, table, 0xB_8000 + 2 * i + byte) == Some(0xB_8000 + 2 * i + byte)
    ensures i < Console.CAPACITY ==> Walk(dir, table, 0x10_0000 + 2 * i + byte) == Some(0x10_0000 + 2 * i + byte)
  {
    if i < Console.WINDOW {
      WalkIsIdentity(dir, table, 0xB_8000 + 2 * i + byte);
    }
    if i < Console.CAPACITY {
      WalkIsIdentity(dir, table, 0x10_0000 + 2 * i + byte);
    }
  }

  // ---------------------------------------------------------------- the code

  /** `paging_init`, filling the memory of the directory and of the table. */
  method PagingInit(dir: array<nat>, table: array<nat>)
    requires dir.Length == table.Length == ENTRIES && dir != table
    modifies dir, table
    ensures Tables(dir[..], table[..])
    ensures forall va: nat :: va < 0x1_0000_0000 ==>
      Walk(dir[..], table[..], va) == if Mapped(va) then Some(va) else None
  {
    FillTables(dir, table);
    table[0] := 0;
    SetPresent(table, 1);
    SetPresent(table, 2);
    SetPresent(table, 0xB8);
    SetPresentFrom(table, 0x100);
    dir[0] := WithFlags(2, 3);
    dir[1] := WithFlags(0x400, 0x181);
    forall va: nat | va < 0x1_0000_0000
      ensures Walk(dir[..], table[..], va) == if Mapped(va) then Some(va) else None
    {
      WalkIsIdentity(dir[..], table[..], va);
    }
  }

  /** The address of page `q`, with flags or-ed in. */
  function WithFlags(q: nat, flags: nat): (entry: nat)
    requires flags < PAGE
    ensures entry == q * PAGE + flags
  {
    OrPage(q, 0, flags);
    OrZeroLeft(flags);
    Or(q * PAGE, flags)
  }

  lemma {:induction false} OrZeroLeft(b: nat)
    ensures Or(0, b) == b
  {
    if b > 0 {
      OrZeroLeft(b / 2);
    }
  }

  method SetPresentFrom(table: array<nat>, first: nat)
    requires first <= table.Length == ENTRIES
    requires forall k :: first <= k < ENTRIES ==> table[k] == PAGE * k + 2
    modifies table
    ensures forall k :: first <= k < ENTRIES ==> table[k] == PAGE * k + 3
    ensures forall k :: 0 <= k < first ==> table[k] == old(table[k])
  {
    for i := first to ENTRIES
      invariant forall k :: first <= k < i ==> table[k] == PAGE * k + 3
      invariant forall k :: i <= k < ENTRIES ==> table[k] == PAGE * k + 2
      invariant forall k :: 0 <= k < first ==> table[k] == old(table[k])
    {
      SetPresent(table, i);
    }
  }

  method FillTables(dir: array<nat>, table: array<nat>)
    requires dir.Length == table.Length == ENTRIES && dir != table
    modifies dir, table
    ensures forall k :: 0 <= k < ENTRIES ==> dir[k] == LARGE_PAGE * k + 2 && table[k] == PAGE * k + 2
  {
    var address, tableAddress := 0, 0;
    for i := 0 to ENTRIES
      invariant address == U32(LARGE_PAGE * i) && tableAddress == PAGE * i
      invariant forall k :: 0 <= k < i ==> dir[k] == LARGE_PAGE * k + 2 && table[k] == PAGE * k + 2
    {
      OrPage(0x400 * i, 0, 2);
      dir[i] := Or(address, 2);
      address := U32(address + LARGE_PAGE);
      OrPage(i, 0, 2);
      table[i] := Or(tableAddress, 2);
      tableAddress := U32(tableAddress + PAGE);
    }
  }

  method SetPresent(table: array<nat>, i: nat)
    requires i < table.Length && table[i] == PAGE * i + 2
    modifies table
    ensures table[i] == PAGE * i + 3
    ensures forall k :: 0 <= k < table.Length && k != i ==> table[k] == old(table[k])
  {
    OrPage(i, 2, 3);
    table[i] := Or(table[i], 3);
  }
}
