/**
 The page tables the boot loader builds before entering long mode, and the 4-level walk
 of section 4.5 of the Intel 64 and IA-32 Architectures Software Developer's Manual,
 volume 3A, over the memory they live in.
 */
module PageTables {
  const DWORD := 0x1_0000_0000

  type Dword = n: nat | n < DWORD

  const PML4 := 0x9000
  const PDPT := 0xA000
  const PD := 0xB000
  const TABLES_END := 0xD000

  // ---------------------------------------------------------------- the image

  /** The dword at address `4 * k` after the tables are built over memory `before`. */
  function ImageDword(before: seq<Dword>, k: nat): Dword
    requires k < |before|
  {
    var a := 4 * k;
    if a < PML4 || a >= TABLES_END then before[k]
    else if a == PML4 then PDPT + 3
    else if a == PDPT then PD + 3
    else if PD <= a < PD + 0x1000 && a % 8 == 0 then PageEntry((a - PD) / 8)
    else 0
  }

  /** Entry `i` of the page directory: 2 MiB page `i`, present, writable, large. */
  function PageEntry(i: nat): Dword
    requires i < 512
  {
    0x200000 * i + 0x83
  }

  ghost predicate IsImage(before: seq<Dword>, after: seq<Dword>) {
    |after| == |before| && forall k :: 0 <= k < |after| ==> after[k] == ImageDword(before, k)
  }

  /** The image in numbers: dword `k` of memory is at address `4 * k`. */
  lemma ImageIs(before: seq<Dword>, k: nat)
    requires k < |before|
    ensures ImageDword(before, k) ==
            if k == 0x2400 then 0xA003 else if k == 0x2800 then 0xB003
            else if 0x2C00 <= k < 0x3000 && k % 2 == 0 then 0x20_0000 * ((k - 0x2C00) / 2) + 0x83
            else if 0x2400 <= k < 0x3400 then 0 else before[k]
  {
    if 0x2C00 <= k < 0x3000 {
      var i := (k - 0x2C00) / 2;
      assert k % 2 == 0 ==> 4 * k == PD + 8 * i;
      assert 4 * k % 8 == 0 <==> k % 2 == 0;
    }
  }

  /** `add` on a 32-bit register. */
  function Add32(a: Dword, b: Dword): Dword {
    (a + b) % DWORD
  }

  /** `rep stosd`: store eax at edi, ecx times. */
  method RepStosd(mem: array<Dword>, start: Dword, eax: Dword, count: Dword)
    requires start % 4 == 0 && start + 4 * count <= 4 * mem.Length && start + 4 * count < DWORD
    modifies mem
    ensures forall k :: 0 <= k < mem.Length ==>
              mem[k] == if start <= 4 * k < start + 4 * count then eax else old(mem[k])
  {
    var edi: Dword, ecx: Dword := start, count;
    while ecx != 0
      invariant 0 <= ecx <= count && edi == start + 4 * (count - ecx)
      invariant forall k :: 0 <= k < mem.Length ==>
                  mem[k] == if start <= 4 * k < edi then eax else old(mem[k])
      decreases ecx
    {
      ghost var at := edi / 4;
      assert edi == 4 * at;
      mem[edi / 4] := eax;
      edi := Add32(edi, 4);
      ecx := ecx - 1;
    }
  }

  /** Dword `k` once `n` entries of the directory are written over a memory that held `was` there. */
  function Filled(was: Dword, n: nat, k: nat): Dword
    requires n <= 512
  {
    if PD / 4 <= k < PD / 4 + 2 * n && k % 2 == 0 then PageEntry((k - PD / 4) / 2) else was
  }

  lemma FillNext(n: nat, edi: nat)
    requires n < 512 && edi == PD + 8 * n
    ensures edi / 4 == PD / 4 + 2 * n && (edi / 4 - PD / 4) / 2 == n && edi / 4 % 2 == 0
  {
  }

  lemma FilledDirectory(was: Dword, k: nat)
    ensures Filled(was, 512, k) ==
            if PD <= 4 * k < PD + 0x1000 && 4 * k % 8 == 0 then PageEntry((4 * k - PD) / 8) else was
  {
    if k % 2 == 0 { assert 4 * k == 8 * (k / 2); }
  }

  /** The `.map_pd` loop; `ecx` starts at 512, so testing it before the body is the same as after. */
  method FillDirectory(mem: array<Dword>)
    requires 4 * mem.Length >= TABLES_END
    modifies mem
    ensures forall k :: 0 <= k < mem.Length ==>
              mem[k] == if PD <= 4 * k < PD + 0x1000 && 4 * k % 8 == 0 then PageEntry((4 * k - PD) / 8)
                        else old(mem[k])
  {
    var edi: Dword, eax: Dword, ecx: Dword := PD, 0x83, 512;
    while ecx != 0
      invariant 0 <= ecx <= 512 && edi == PD + 8 * (512 - ecx)
      // never wrapped: the sum stays far below 2^32
      invariant eax == 0x83 + 0x200000 * (512 - ecx)
      invariant forall k :: 0 <= k < mem.Length ==> mem[k] == Filled(old(mem[k]), 512 - ecx, k)
      decreases ecx
    {
      FillNext(512 - ecx, edi);
      mem[edi / 4] := eax;
      eax := Add32(eax, 0x200000);
      edi := Add32(edi, 8);
      ecx := ecx - 1;
    }
    forall k | 0 <= k < mem.Length
      ensures mem[k] == if PD <= 4 * k < PD + 0x1000 && 4 * k % 8 == 0 then PageEntry((4 * k - PD) / 8)
                        else old(mem[k])
    {
      FilledDirectory(old(mem[k]), k);
    }
  }

  /** The table construction at `protected_mode`. */
  method BuildTables(mem: array<Dword>)
    requires 4 * mem.Length >= TABLES_END
    modifies mem
    ensures IsImage(old(mem[..]), mem[..])
  {
    RepStosd(mem, PML4, 0, 4096);
    mem[PML4 / 4] := PDPT + 3;
    mem[PDPT / 4] := PD + 3;
    FillDirectory(mem);
  }

  // ---------------------------------------------------------------- the walk

  datatype Translation =
    | Mapped(address: nat, writable: bool, user: bool)
    | NotPresent
    | OutsideMemory

  /** The 64-bit entry at a physical address, little-endian. */
  function EntryAt(mem: seq<Dword>, address: nat): nat
    requires address / 4 + 1 < |mem|
  {
    mem[address / 4] + DWORD * mem[address / 4 + 1]
  }

  predicate InMemory(mem: seq<Dword>, address: nat) {
    address / 4 + 1 < |mem|
  }

  predicate Present(entry: nat) { entry % 2 == 1 }
  predicate Writable(entry: nat) { entry / 2 % 2 == 1 }
  predicate User(entry: nat) { entry / 4 % 2 == 1 }
  predicate LargePage(entry: nat) { entry / 0x80 % 2 == 1 }

  /** Bits 51:12 of an entry: the next table, or a 4 KiB page. */
  function Frame(entry: nat): nat {
    entry / 0x1000 % 0x100_0000_0000 * 0x1000
  }

  /** One level: fetch the entry of table `table` selected by nine address bits. */
  function Fetch(mem: seq<Dword>, table: nat, index: nat): (r: (Translation, nat))
  {
    var address := table + 8 * index;
    if !InMemory(mem, address) then (OutsideMemory, 0)
    else
      var entry := EntryAt(mem, address);
      (if Present(entry) then Mapped(0, Writable(entry), User(entry)) else NotPresent, entry)
  }

  function Combine(address: nat, a: Translation, b: Translation): Translation
    requires a.Mapped? && b.Mapped?
  {
    Mapped(address, a.writable && b.writable, a.user && b.user)
  }

  /** 4-level translation of a 48-bit linear address with the top table at `cr3`. */
  function Translate(mem: seq<Dword>, cr3: nat, va: nat): Translation {
    var (t4, e4) := Fetch(mem, cr3, va / 0x80_0000_0000 % 512);
    if !t4.Mapped? then t4 else
    var (t3, e3) := Fetch(mem, Frame(e4), va / 0x4000_0000 % 512);
    if !t3.Mapped? then t3 else
    var rights3 := Combine(0, t4, t3);
    if LargePage(e3) then rights3.(address := e3 / 0x4000_0000 % 0x40_0000 * 0x4000_0000 + va % 0x4000_0000) else
    var (t2, e2) := Fetch(mem, Frame(e3), va / 0x20_0000 % 512);
    if !t2.Mapped? then t2 else
    var rights2 := Combine(0, rights3, t2);
    if LargePage(e2) then rights2.(address := e2 / 0x20_0000 % 0x8000_0000 * 0x20_0000 + va % 0x20_0000) else
    var (t1, e1) := Fetch(mem, Frame(e2), va / 0x1000 % 512);
    if !t1.Mapped? then t1 else
    Combine(Frame(e1) + va % 0x1000, rights2, t1)
  }

  lemma PageEntryAddress(i: nat)
    requires i < 512
    ensures LargePage(PageEntry(i)) && PageEntry(i) / 0x20_0000 % 0x8000_0000 == i
  {
  }

  lemma TopEntries(mem: seq<Dword>, before: seq<Dword>, index: nat)
    requires IsImage(before, mem) && 4 * |mem| >= TABLES_END && index < 512
    ensures Fetch(mem, PML4, index) ==
            if index == 0 then (Mapped(0, true, false), PDPT + 3) else (NotPresent, 0)
    ensures Fetch(mem, PDPT, index) ==
            if index == 0 then (Mapped(0, true, false), PD + 3) else (NotPresent, 0)
  {
  }

  lemma PageEntryRights(i: nat)
    requires i < 512
    ensures Present(PageEntry(i)) && Writable(PageEntry(i)) && !User(PageEntry(i))
  {
    assert PageEntry(i) == 4 * (0x80000 * i + 0x20) + 3;
    assert PageEntry(i) / 4 == 2 * (0x40000 * i + 0x10) && PageEntry(i) / 2 == 2 * (0x80000 * i + 0x20) + 1;
  }

  lemma DirectoryDwords(before: seq<Dword>, index: nat, k: nat)
    requires 4 * |before| >= TABLES_END && index < 512 && k == PD / 4 + 2 * index
    ensures ImageDword(before, k) == PageEntry(index) && ImageDword(before, k + 1) == 0
    ensures (PD + 8 * index) / 4 == k
  {
    assert 4 * k == PD + 8 * index;
  }

  lemma DirectoryEntries(mem: seq<Dword>, before: seq<Dword>, index: nat)
    requires IsImage(before, mem) && 4 * |mem| >= TABLES_END && index < 512
    ensures Fetch(mem, PD, index) == (Mapped(0, true, false), PageEntry(index))
  {
    DirectoryDwords(before, index, PD / 4 + 2 * index);
    PageEntryRights(index);
  }

  /** An address is low exactly when its two top indices are zero. */
  lemma LowIndices(va: nat)
    requires va < 0x1_0000_0000_0000
    ensures va / 0x80_0000_0000 % 512 == 0 && va / 0x4000_0000 % 512 == 0 <==> va < 0x4000_0000
  {
  }

  lemma LowPage(va: nat)
    requires va < 0x4000_0000
    ensures var i := va / 0x20_0000 % 512; i * 0x20_0000 + va % 0x20_0000 == va
  {
  }

  lemma TableFrames(e4: nat, e3: nat)
    requires e4 == PDPT + 3 && e3 == PD + 3
    ensures Frame(e4) == PDPT && Frame(e3) == PD && !LargePage(e3)
  {
  }

  lemma LowMapped(before: seq<Dword>, mem: seq<Dword>, va: nat)
    requires IsImage(before, mem) && 4 * |mem| >= TABLES_END && va < 0x4000_0000
    ensures Translate(mem, PML4, va) == Mapped(va, true, false)
  {
    var i := va / 0x20_0000 % 512;
    LowIndices(va);
    LowPage(va);
    TopEntries(mem, before, 0);
    DirectoryEntries(mem, before, i);
    PageEntryAddress(i);
    TableFrames(PDPT + 3, PD + 3);
  }

  /**
   Over the built tables, every linear address below 1 GiB translates to itself, writable
   and for the supervisor only, and every other 48-bit address meets a not-present entry.
   */
  lemma IdentityMapsFirstGigabyte(before: seq<Dword>, mem: seq<Dword>, va: nat)
    requires IsImage(before, mem) && 4 * |mem| >= TABLES_END && va < 0x1_0000_0000_0000
    ensures Translate(mem, PML4, va) == if va < 0x4000_0000 then Mapped(va, true, false) else NotPresent
  {
    if va < 0x4000_0000 {
      LowMapped(before, mem, va);
    } else {
      LowIndices(va);
      TopEntries(mem, before, va / 0x80_0000_0000 % 512);
      TopEntries(mem, before, va / 0x4000_0000 % 512);
      TableFrames(PDPT + 3, PD + 3);
    }
  }
}
