/** The two-level page tables of kernel/mm/vmm.c (32-bit paging, section 4.3 of volume 3A of the
    Intel SDM) on physical memory as a value: a sequence of words, 1024 to a frame. Directory
    and tables live in frames of the allocator modelled in Frames. */
module Paging {
  import opened Arithmetic
  import opened Words
  import Frames

  const ENTRIES := 1024
  const FRAME_BYTES := 4096
  const PAGES := 0x10_0000
  const PRESENT := 1
  const DYNAMIC_BASE := 0xC000_0000

  /** m: physical memory; dir: the directory's frame; next: vmm_alloc_page's static next_virt. */
  datatype Vm = Vm(m: seq<Word>, dir: nat, pmm: Frames.State, next: Word)

  function Slot(frame: nat, i: nat): nat { frame * ENTRIES + i }

  function Load(m: seq<Word>, i: nat): Word { if i < |m| then m[i] else 0 }

  /** phys | flags | PAGE_PRESENT, for a page-aligned address and flags in the low twelve bits. */
  function Entry(phys: Word, flags: nat): Word
    requires phys % FRAME_BYTES == 0 && flags < FRAME_BYTES
  {
    phys + flags + (1 - flags % 2)
  }

  predicate Present(w: Word) { w % 2 == 1 }

  /** w & ~0xFFF, as a frame number. */
  function FrameOf(w: Word): nat { w / FRAME_BYTES }

  function DirEntry(vm: Vm, pd: nat): Word { Load(vm.m, Slot(vm.dir, pd)) }

  function Table(vm: Vm, pd: nat): nat { FrameOf(DirEntry(vm, pd)) }

  predicate HasTable(vm: Vm, pd: nat) { Present(DirEntry(vm, pd)) }

  /** The table entry the processor ends at for virtual page v. */
  function Walk(vm: Vm, v: nat): Option<Word> {
    if !HasTable(vm, v / ENTRIES) then None
    else
      var w := Load(vm.m, Slot(Table(vm, v / ENTRIES), v % ENTRIES));
      if Present(w) then Some(w) else None
  }

  /** The rights in an entry: bit 1 to write, bit 2 to user mode. */
  datatype Right = Write | User

  predicate Has(w: nat, right: Right) {
    (if right.Write? then w / 2 else w / 4) % 2 == 1
  }

  /** A page has a right when both its directory entry and its table entry grant it. */
  predicate Grants(vm: Vm, v: nat, right: Right) {
    Walk(vm, v).Some? && Has(DirEntry(vm, v / ENTRIES), right) && Has(Walk(vm, v).value, right)
  }

  /** Directory and tables are distinct used frames inside memory; frame 0 is used. */
  ghost predicate Inv(vm: Vm) {
    && Frames.Inv(vm.pmm) && ENTRIES * vm.pmm.max <= |vm.m|
    && 0 in vm.pmm.used && vm.dir in vm.pmm.used
    && (forall pd :: 0 <= pd < ENTRIES && HasTable(vm, pd) ==> Table(vm, pd) in vm.pmm.used && Table(vm, pd) != vm.dir)
    && (forall pd, pe :: 0 <= pd < pe < ENTRIES && HasTable(vm, pd) && HasTable(vm, pe) ==> Table(vm, pd) != Table(vm, pe))
  }

  /** Frame f holds paging structures. */
  ghost predicate IsPaging(vm: Vm, f: nat) {
    f == vm.dir || exists pd :: 0 <= pd < ENTRIES && HasTable(vm, pd) && Table(vm, pd) == f
  }

  /** Memory with frame f zeroed. */
  function Zeroed(m: seq<Word>, f: nat): (r: seq<Word>)
    ensures |r| == |m|
  {
    seq(|m|, i requires 0 <= i < |m| => if Slot(f, 0) <= i < Slot(f, ENTRIES) then 0 else m[i])
  }

  function Store(m: seq<Word>, i: nat, w: Word): (r: seq<Word>)
    ensures |r| == |m|
  {
    if i < |m| then m[i := w] else m
  }

  // ---- vmm_map_page, vmm_alloc_page, vmm_free_page -----------------------------------

  /** The part of vmm_map_page that makes sure there is a table; None if no frame was left. */
  function WithTable(vm: Vm, pd: nat, flags: nat): Option<Vm>
    requires flags < FRAME_BYTES
  {
    if HasTable(vm, pd) then Some(vm)
    else
      var (pmm, addr) := Frames.Alloc(vm.pmm);
      if addr == 0 then None
      else Some(vm.(m := Store(Zeroed(vm.m, addr / FRAME_BYTES), Slot(vm.dir, pd), Entry(addr, flags)), pmm := pmm))
  }

  function MapPage(vm: Vm, v: nat, phys: Word, flags: nat): Option<Vm>
    requires phys % FRAME_BYTES == 0 && flags < FRAME_BYTES
  {
    var t := WithTable(vm, v / ENTRIES, flags);
    if t.None? then None
    else Some(t.value.(m := Store(t.value.m, Slot(Table(t.value, v / ENTRIES), v % ENTRIES), Entry(phys, flags))))
  }

  /** The returned address is 0 on failure. */
  function AllocPage(vm: Vm, flags: nat): (Vm, Word)
    requires flags < FRAME_BYTES
  {
    var (pmm, phys) := Frames.Alloc(vm.pmm);
    if phys == 0 then (vm.(pmm := pmm), 0)
    else
      var advanced := vm.(pmm := pmm, next := (vm.next + FRAME_BYTES) % WORD);
      var mapped := MapPage(advanced, vm.next / FRAME_BYTES, phys, flags);
      if mapped.None? then (advanced.(pmm := Frames.Free(pmm, phys)), 0) else (mapped.value, vm.next)
  }

  function FreePage(vm: Vm, v: nat): Vm {
    if !HasTable(vm, v / ENTRIES) then vm
    else
      var slot := Slot(Table(vm, v / ENTRIES), v % ENTRIES);
      vm.(pmm := Frames.Free(vm.pmm, FrameOf(Load(vm.m, slot)) * FRAME_BYTES), m := Store(vm.m, slot, 0))
  }

  // ---- Entries and slots -------------------------------------------------------------

  /** The low twelve bits of an entry. */
  function Low(flags: nat): nat { flags + (1 - flags % 2) }

  lemma {:induction false} LowBits(flags: nat)
    requires flags < FRAME_BYTES
    ensures Low(flags) < FRAME_BYTES && Low(flags) % 2 == 1
    ensures Low(flags) / 2 == flags / 2 && Low(flags) / 4 == flags / 4
  {
    DivUnique(Low(flags), 2, flags / 2, 1);
    DivUnique(Low(flags), 4, flags / 4, flags % 4 + (1 - flags % 2));
  }

  /** A number whose low twelve bits are low, divided by a small power of two. */
  lemma {:induction false} LowDivided(k: nat, low: nat)
    requires low < FRAME_BYTES
    ensures (k * FRAME_BYTES + low) / FRAME_BYTES == k && (k * FRAME_BYTES + low) % FRAME_BYTES == low
    ensures (k * FRAME_BYTES + low) % 2 == low % 2
    ensures (k * FRAME_BYTES + low) / 2 % 2 == low / 2 % 2
    ensures (k * FRAME_BYTES + low) / 4 % 2 == low / 4 % 2
  {
    var x := k * FRAME_BYTES + low;
    DivUnique(x, FRAME_BYTES, k, low);
    DivUnique(x, 2, 2048 * k + low / 2, low % 2);
    DivUnique(2048 * k + low / 2, 2, 1024 * k + low / 2 / 2, low / 2 % 2);
    DivUnique(x, 4, 1024 * k + low / 4, low % 4);
    DivUnique(1024 * k + low / 4, 2, 512 * k + low / 4 / 2, low / 4 % 2);
  }

  lemma {:induction false} EntryIs(phys: Word, flags: nat)
    requires phys % FRAME_BYTES == 0 && flags < FRAME_BYTES
    ensures Entry(phys, flags) == phys / FRAME_BYTES * FRAME_BYTES + Low(flags)
  {
  }

  lemma {:induction false} EntryFields(phys: Word, flags: nat)
    requires phys % FRAME_BYTES == 0 && flags < FRAME_BYTES
    ensures Present(Entry(phys, flags)) && FrameOf(Entry(phys, flags)) == phys / FRAME_BYTES
    ensures Entry(phys, flags) % FRAME_BYTES / 2 == flags / 2
  {
    hide Entry, Low;
    EntryIs(phys, flags);
    LowBits(flags);
    LowDivided(phys / FRAME_BYTES, Low(flags));
  }

  lemma {:induction false} SlotsApart(f: nat, i: nat, g: nat, j: nat)
    requires i < ENTRIES && j < ENTRIES
    ensures Slot(f, i) == Slot(g, j) <==> f == g && i == j
    ensures Slot(g, 0) <= Slot(f, i) < Slot(g, ENTRIES) <==> f == g
  {
  }

  lemma {:induction false} SlotInMemory(vm: Vm, f: nat, i: nat)
    requires Inv(vm) && f in vm.pmm.used && i < ENTRIES
    ensures Slot(f, i) < Slot(f, ENTRIES) <= |vm.m|
  {
  }

  lemma {:induction false} LoadStore(m: seq<Word>, f: nat, i: nat, w: Word, g: nat, j: nat)
    requires i < ENTRIES && j < ENTRIES && Slot(f, i) < |m|
    ensures Load(Store(m, Slot(f, i), w), Slot(g, j)) == if f == g && i == j then w else Load(m, Slot(g, j))
  {
    SlotsApart(f, i, g, j);
  }

  lemma {:induction false} LoadZeroed(m: seq<Word>, f: nat, g: nat, j: nat)
    requires j < ENTRIES
    ensures Load(Zeroed(m, f), Slot(g, j)) == if f == g then 0 else Load(m, Slot(g, j))
  {
    SlotsApart(g, j, f, j);
  }

  // ---- Making a table ----------------------------------------------------------------

  /** The frame a new table gets. */
  function NewFrame(vm: Vm): nat { Frames.Lowest(vm.pmm) }

  predicate Full(vm: Vm) { NewFrame(vm) == vm.pmm.max }

  lemma {:induction false} NewTable(vm: Vm, pd: nat, flags: nat)
    requires Inv(vm) && pd < ENTRIES && flags < FRAME_BYTES && !HasTable(vm, pd)
    ensures WithTable(vm, pd, flags).None? <==> Full(vm)
    ensures !Full(vm) ==>
      var t, f := WithTable(vm, pd, flags).value, NewFrame(vm);
      && f !in vm.pmm.used && f < vm.pmm.max && t == vm.(m := t.m, pmm := t.pmm) && |t.m| == |vm.m|
      && t.pmm == Frames.Alloc(vm.pmm).0 && t.pmm.used == vm.pmm.used + {f} && t.pmm.max == vm.pmm.max
      && (forall g, j :: 0 <= g && 0 <= j < ENTRIES ==>
            Load(t.m, Slot(g, j)) == if g == vm.dir && j == pd then Entry(f * FRAME_BYTES, flags)
                                     else if g == f then 0 else Load(vm.m, Slot(g, j)))
  {
    Frames.AllocInv(vm.pmm);
    if !Full(vm) {
      var t, f := WithTable(vm, pd, flags).value, NewFrame(vm);
      SlotInMemory(vm, vm.dir, pd);
      forall g, j | 0 <= g && 0 <= j < ENTRIES
        ensures Load(t.m, Slot(g, j)) == if g == vm.dir && j == pd then Entry(f * FRAME_BYTES, flags)
                                         else if g == f then 0 else Load(vm.m, Slot(g, j))
      {
        LoadStore(Zeroed(vm.m, f), vm.dir, pd, Entry(f * FRAME_BYTES, flags), g, j);
        LoadZeroed(vm.m, f, g, j);
      }
    }
  }

  /** A new table hangs in the directory, maps nothing, and disturbs no other page or frame. */
  lemma {:induction false} NewTableInv(vm: Vm, pd: nat, flags: nat)
    requires Inv(vm) && pd < ENTRIES && flags < FRAME_BYTES && !HasTable(vm, pd) && !Full(vm)
    ensures WithTable(vm, pd, flags).Some?
    ensures var t := WithTable(vm, pd, flags).value;
      && Inv(t) && HasTable(t, pd) && Table(t, pd) == NewFrame(vm)
      && (forall pe :: 0 <= pe < ENTRIES && pe != pd ==> DirEntry(t, pe) == DirEntry(vm, pe))
  {
    NewTable(vm, pd, flags);
    Frames.AllocInv(vm.pmm);
    var t, f := WithTable(vm, pd, flags).value, NewFrame(vm);
    EntryFields(f * FRAME_BYTES, flags);
    assert f != vm.dir;
    forall pe | 0 <= pe < ENTRIES
      ensures DirEntry(t, pe) == if pe == pd then Entry(f * FRAME_BYTES, flags) else DirEntry(vm, pe)
    {
      assert Load(t.m, Slot(vm.dir, pe)) == DirEntry(t, pe);
    }
    assert Table(t, pd) == f;
    forall pe | 0 <= pe < ENTRIES && HasTable(t, pe) ensures Table(t, pe) in t.pmm.used && Table(t, pe) != t.dir {
      if pe != pd { assert HasTable(vm, pe) && Table(t, pe) == Table(vm, pe); }
    }
    forall pe, pf | 0 <= pe < pf < ENTRIES && HasTable(t, pe) && HasTable(t, pf) ensures Table(t, pe) != Table(t, pf) {
      if pe != pd { assert HasTable(vm, pe) && Table(t, pe) == Table(vm, pe); }
      if pf != pd { assert HasTable(vm, pf) && Table(t, pf) == Table(vm, pf); }
    }
  }

  lemma {:induction false} NewTableWalk(vm: Vm, pd: nat, flags: nat, v: nat)
    requires Inv(vm) && pd < ENTRIES && flags < FRAME_BYTES && !HasTable(vm, pd) && !Full(vm) && v < PAGES
    ensures WithTable(vm, pd, flags).Some? && Walk(WithTable(vm, pd, flags).value, v) == Walk(vm, v)
  {
    NewTable(vm, pd, flags);
    NewTableInv(vm, pd, flags);
    var t, f := WithTable(vm, pd, flags).value, NewFrame(vm);
    var i := v % ENTRIES;
    assert Load(t.m, Slot(f, i)) == 0;
    if HasTable(vm, v / ENTRIES) {
      var g := Table(vm, v / ENTRIES);
      assert Load(t.m, Slot(g, i)) == Load(vm.m, Slot(g, i));
    }
  }

  // ---- Mapping one page --------------------------------------------------------------

  lemma {:induction false} SameDirectory(vm: Vm, t: Vm)
    requires Inv(vm) && t.dir == vm.dir && |t.m| == |vm.m|
    requires Frames.Inv(t.pmm) && t.pmm.max == vm.pmm.max
    requires forall pd :: 0 <= pd < ENTRIES ==> DirEntry(t, pd) == DirEntry(vm, pd)
    requires 0 in t.pmm.used && vm.dir in t.pmm.used
    requires forall pd :: 0 <= pd < ENTRIES && HasTable(vm, pd) ==> Table(vm, pd) in t.pmm.used
    ensures Inv(t)
  {
    forall pd | 0 <= pd < ENTRIES && HasTable(t, pd) ensures Table(t, pd) in t.pmm.used && Table(t, pd) != t.dir {
      assert HasTable(vm, pd);
    }
    forall pd, pe | 0 <= pd < pe < ENTRIES && HasTable(t, pd) && HasTable(t, pe) ensures Table(t, pd) != Table(t, pe) {
      assert HasTable(vm, pd) && HasTable(vm, pe);
    }
  }

  function SetEntry(vm: Vm, v: nat, w: Word): Vm {
    vm.(m := Store(vm.m, Slot(Table(vm, v / ENTRIES), v % ENTRIES), w))
  }

  /** Writing the table entry of v changes the walk of v and of no other page. */
  lemma {:induction false} SetEntryWalk(vm: Vm, v: nat, w: Word, u: nat)
    requires Inv(vm) && v < PAGES && u < PAGES && HasTable(vm, v / ENTRIES)
    ensures Inv(SetEntry(vm, v, w))
    ensures forall pd :: 0 <= pd < ENTRIES ==> DirEntry(SetEntry(vm, v, w), pd) == DirEntry(vm, pd)
    ensures Walk(SetEntry(vm, v, w), u) == if u == v then (if Present(w) then Some(w) else None) else Walk(vm, u)
  {
    var t, pv, iv, iu := SetEntry(vm, v, w), v / ENTRIES, v % ENTRIES, u % ENTRIES;
    SlotInMemory(vm, Table(vm, pv), iv);
    forall pd | 0 <= pd < ENTRIES ensures DirEntry(t, pd) == DirEntry(vm, pd) {
      LoadStore(vm.m, Table(vm, pv), iv, w, vm.dir, pd);
    }
    SameDirectory(vm, t);
    if HasTable(vm, u / ENTRIES) {
      LoadStore(vm.m, Table(vm, pv), iv, w, Table(vm, u / ENTRIES), iu);
    }
  }

  /** Frame g holds the same words in both memories. */
  ghost predicate SameFrame(x: Vm, y: Vm, g: nat) {
    forall j :: 0 <= j < ENTRIES ==> Load(y.m, Slot(g, j)) == Load(x.m, Slot(g, j))
  }

  lemma {:induction false} SetEntryFrames(vm: Vm, v: nat, w: Word, g: nat)
    requires Inv(vm) && v < PAGES && HasTable(vm, v / ENTRIES) && g != Table(vm, v / ENTRIES)
    ensures SameFrame(vm, SetEntry(vm, v, w), g)
  {
    SlotInMemory(vm, Table(vm, v / ENTRIES), v % ENTRIES);
    forall j | 0 <= j < ENTRIES
      ensures Load(SetEntry(vm, v, w).m, Slot(g, j)) == Load(vm.m, Slot(g, j))
    {
      LoadStore(vm.m, Table(vm, v / ENTRIES), v % ENTRIES, w, g, j);
    }
  }

  /** vmm_map_page fails exactly when it needs a table and no frame is left; otherwise page v
      translates to phys with the flags, and every other page translates as before. */
  lemma {:induction false} MapPageWalk(vm: Vm, v: nat, phys: Word, flags: nat, u: nat)
    requires Inv(vm) && v < PAGES && u < PAGES && phys % FRAME_BYTES == 0 && flags < FRAME_BYTES
    ensures var r := MapPage(vm, v, phys, flags);
      && (r.None? <==> !HasTable(vm, v / ENTRIES) && Full(vm))
      && (r.Some? ==>
            && Inv(r.value) && r.value == vm.(m := r.value.m, pmm := r.value.pmm)
            && r.value.pmm == (if HasTable(vm, v / ENTRIES) then vm.pmm else Frames.Alloc(vm.pmm).0)
            && Walk(r.value, u) == if u == v then Some(Entry(phys, flags)) else Walk(vm, u))
  {
    var pd := v / ENTRIES;
    EntryFields(phys, flags);
    if HasTable(vm, pd) {
      SetEntryWalk(vm, v, Entry(phys, flags), u);
    } else {
      NewTable(vm, pd, flags);
      if !Full(vm) {
        NewTableInv(vm, pd, flags);
        NewTableWalk(vm, pd, flags, u);
        SetEntryWalk(WithTable(vm, pd, flags).value, v, Entry(phys, flags), u);
      }
    }
  }

  /** What vmm_map_page does to the directory: at most one entry is added, for a frame that was
      free; and to data: no used frame outside the paging structures changes. */
  lemma {:induction false} MapPageTables(vm: Vm, v: nat, phys: Word, flags: nat, pd: nat)
    requires Inv(vm) && v < PAGES && phys % FRAME_BYTES == 0 && flags < FRAME_BYTES && pd < ENTRIES
    requires HasTable(vm, v / ENTRIES) || !Full(vm)
    ensures MapPage(vm, v, phys, flags).Some?
    ensures 0 <= NewFrame(vm) * FRAME_BYTES < WORD && NewFrame(vm) * FRAME_BYTES % FRAME_BYTES == 0
    ensures var t := MapPage(vm, v, phys, flags).value;
      && (HasTable(t, pd) <==> HasTable(vm, pd) || pd == v / ENTRIES)
      && (HasTable(t, pd) ==> Table(t, pd) == if HasTable(vm, pd) then Table(vm, pd) else NewFrame(vm))
      && DirEntry(t, pd) == (if HasTable(vm, pd) || pd != v / ENTRIES then DirEntry(vm, pd)
                             else Entry(NewFrame(vm) * FRAME_BYTES, flags))
      && (forall g :: g in vm.pmm.used && !IsPaging(vm, g) ==> SameFrame(vm, t, g))
  {
    var pv := v / ENTRIES;
    FrameAddress(vm);
    EntryFields(phys, flags);
    MapPageWalk(vm, v, phys, flags, v);
    if HasTable(vm, pv) {
      SetEntryWalk(vm, v, Entry(phys, flags), v);
      forall g | g in vm.pmm.used && !IsPaging(vm, g) ensures SameFrame(vm, SetEntry(vm, v, Entry(phys, flags)), g) {
        SetEntryFrames(vm, v, Entry(phys, flags), g);
      }
    } else {
      var mid := WithTable(vm, pv, flags).value;
      NewTable(vm, pv, flags);
      NewTableInv(vm, pv, flags);
      SetEntryWalk(mid, v, Entry(phys, flags), v);
      forall g | g in vm.pmm.used && !IsPaging(vm, g) ensures SameFrame(vm, SetEntry(mid, v, Entry(phys, flags)), g) {
        SetEntryFrames(mid, v, Entry(phys, flags), g);
      }
    }
  }

  lemma {:induction false} EntryRights(phys: Word, flags: nat, right: Right)
    requires phys % FRAME_BYTES == 0 && flags < FRAME_BYTES
    ensures Has(Entry(phys, flags), right) <==> Has(flags, right)
  {
    hide Entry, Low;
    EntryIs(phys, flags);
    LowBits(flags);
    LowDivided(phys / FRAME_BYTES, Low(flags));
  }

  /** The rights vmm_map_page gives: those in the flags, as far as the directory entry of the
      region grants them, and that was fixed by the first page mapped there. Every other page
      keeps its rights. */
  lemma {:induction false} MapPageRights(vm: Vm, v: nat, phys: Word, flags: nat, u: nat, right: Right)
    requires Inv(vm) && v < PAGES && u < PAGES && phys % FRAME_BYTES == 0 && flags < FRAME_BYTES
    requires MapPage(vm, v, phys, flags).Some?
    ensures Grants(MapPage(vm, v, phys, flags).value, u, right) <==>
      if u == v then Has(flags, right) && (HasTable(vm, v / ENTRIES) ==> Has(DirEntry(vm, v / ENTRIES), right))
      else Grants(vm, u, right)
  {
    hide Inv, MapPage, Has, Entry, Full, NewFrame;
    MapPageWalk(vm, v, phys, flags, u);
    MapPageTables(vm, v, phys, flags, u / ENTRIES);
    EntryRights(phys, flags, right);
    if u == v && !HasTable(vm, v / ENTRIES) {
      FrameAddress(vm);
      EntryRights(NewFrame(vm) * FRAME_BYTES, flags, right);
    }
  }

  lemma {:induction false} FrameAddress(vm: Vm)
    requires Inv(vm)
    ensures 0 <= NewFrame(vm) * FRAME_BYTES < WORD && NewFrame(vm) * FRAME_BYTES % FRAME_BYTES == 0
  {
    Frames.AddressFits(vm.pmm, NewFrame(vm));
    DivUnique(NewFrame(vm) * FRAME_BYTES, FRAME_BYTES, NewFrame(vm), 0);
  }

  // ---- vmm_alloc_page and vmm_free_page ----------------------------------------------

  ghost predicate NextOk(vm: Vm) { vm.next % FRAME_BYTES == 0 && vm.next >= DYNAMIC_BASE }

  /** The state vmm_alloc_page maps in: a frame is taken, next_virt is past the page. */
  function Advanced(vm: Vm): Vm {
    vm.(pmm := Frames.Alloc(vm.pmm).0, next := (vm.next + FRAME_BYTES) % WORD)
  }

  lemma {:induction false} AdvancedInv(vm: Vm)
    requires Inv(vm) && !Full(vm)
    ensures Inv(Advanced(vm)) && Advanced(vm).pmm.used == vm.pmm.used + {NewFrame(vm)}
    ensures NewFrame(vm) !in vm.pmm.used && Frames.Alloc(vm.pmm).1 == NewFrame(vm) * FRAME_BYTES != 0
    ensures Frames.Free(Frames.Alloc(vm.pmm).0, Frames.Alloc(vm.pmm).1) == vm.pmm
    ensures forall pd :: DirEntry(Advanced(vm), pd) == DirEntry(vm, pd)
    ensures forall v :: Walk(Advanced(vm), v) == Walk(vm, v)
  {
    Frames.AllocInv(vm.pmm);
    Frames.AllocFreeRoundTrip(vm.pmm);
    SameDirectory(vm, Advanced(vm));
  }

  /** vmm_alloc_page maps the next page to a frame that was free, unless frames run out: with
      none left nothing changes, with one left but no table for the page only next_virt moves. */
  lemma {:induction false} AllocPageOutcome(vm: Vm, flags: nat)
    requires Inv(vm) && NextOk(vm) && flags < FRAME_BYTES
    ensures 0 <= NewFrame(vm) * FRAME_BYTES < WORD && NewFrame(vm) * FRAME_BYTES % FRAME_BYTES == 0
    ensures var (t, virt) := AllocPage(vm, flags);
      && (Full(vm) ==> t == vm && virt == 0)
      && (!Full(vm) && !HasTable(vm, vm.next / FRAME_BYTES / ENTRIES) && Full(Advanced(vm)) ==>
            virt == 0 && t == vm.(next := (vm.next + FRAME_BYTES) % WORD))
      && (!Full(vm) && (HasTable(vm, vm.next / FRAME_BYTES / ENTRIES) || !Full(Advanced(vm))) ==>
            && virt == vm.next
            && Some(t) == MapPage(Advanced(vm), vm.next / FRAME_BYTES, NewFrame(vm) * FRAME_BYTES, flags))
  {
    FrameAddress(vm);
    if !Full(vm) {
      AdvancedInv(vm);
      var v := vm.next / FRAME_BYTES;
      MapPageWalk(Advanced(vm), v, Frames.Alloc(vm.pmm).1, flags, v);
    } else {
      Frames.AllocInv(vm.pmm);
    }
  }

  /** vmm_free_page of a mapped data page: the page is gone, its frame is free, all else stands. */
  lemma {:induction false} FreePageOutcome(vm: Vm, v: nat, u: nat)
    requires Inv(vm) && v < PAGES && u < PAGES && Walk(vm, v).Some?
    requires var f := FrameOf(Walk(vm, v).value); f in vm.pmm.used && !IsPaging(vm, f) && f != 0
    ensures var t := FreePage(vm, v);
      && Inv(t) && t == vm.(m := t.m, pmm := t.pmm)
      && t.pmm.used == vm.pmm.used - {FrameOf(Walk(vm, v).value)} && t.pmm.max == vm.pmm.max
      && (forall pd :: 0 <= pd < ENTRIES ==> DirEntry(t, pd) == DirEntry(vm, pd))
      && Walk(t, u) == if u == v then None else Walk(vm, u)
  {
    var f := FrameOf(Walk(vm, v).value);
    Frames.AddressFits(vm.pmm, f);
    SetEntryWalk(vm, v, 0, u);
    forall pd | 0 <= pd < ENTRIES && HasTable(SetEntry(vm, v, 0), pd) ensures Table(SetEntry(vm, v, 0), pd) != f {
      assert HasTable(vm, pd) && Table(vm, pd) == Table(SetEntry(vm, v, 0), pd);
    }
    SameDirectory(SetEntry(vm, v, 0), FreePage(vm, v));
  }

  /** The frame named by the table entry of page v, present or not. */
  function EntryFrame(vm: Vm, v: nat): nat {
    FrameOf(Load(vm.m, Slot(Table(vm, v / ENTRIES), v % ENTRIES)))
  }

  /** vmm_free_page gives back no frame, or one that nothing but the page needs. */
  ghost predicate FreesData(vm: Vm, v: nat) {
    || !HasTable(vm, v / ENTRIES)
    || EntryFrame(vm, v) !in vm.pmm.used
    || (EntryFrame(vm, v) != 0 && !IsPaging(vm, EntryFrame(vm, v)))
  }

  lemma {:induction false} FreesUnused(vm: Vm, v: nat)
    requires Inv(vm) && HasTable(vm, v / ENTRIES)
    ensures var f := EntryFrame(vm, v); var t := FreePage(vm, v);
      && t == SetEntry(vm, v, 0).(pmm := t.pmm) && t.pmm.max == vm.pmm.max && t.pmm.used == vm.pmm.used - {f}
      && (f !in vm.pmm.used ==> t.pmm == vm.pmm)
  {
    var f := EntryFrame(vm, v);
    LowDivided(f, 0);
    assert vm.pmm.used - {f} == vm.pmm.used || f in vm.pmm.used;
  }

  /** vmm_free_page looks neither at the present bit of the entry nor at what its frame is for:
      the paging structures survive it exactly when it frees no frame that is in use for them,
      nor frame 0, which a zero entry names. */
  lemma {:induction false} FreePageExactly(vm: Vm, v: nat)
    requires Inv(vm) && v < PAGES
    ensures Inv(FreePage(vm, v)) <==> FreesData(vm, v)
  {
    if HasTable(vm, v / ENTRIES) {
      var f, s, t := EntryFrame(vm, v), SetEntry(vm, v, 0), FreePage(vm, v);
      FreesUnused(vm, v);
      SetEntryWalk(vm, v, 0, v);
      assert forall pd :: 0 <= pd < ENTRIES ==> DirEntry(t, pd) == DirEntry(s, pd);
      if FreesData(vm, v) {
        SameDirectory(vm, t);
      } else if f != 0 && f != vm.dir {
        var pd :| 0 <= pd < ENTRIES && HasTable(vm, pd) && Table(vm, pd) == f;
        assert HasTable(t, pd) && Table(t, pd) == f;
      }
    }
  }

  /** A live data page is one that can be freed; a page that maps the directory is not. */
  lemma {:induction false} FreeMappedPage(vm: Vm, v: nat)
    requires Inv(vm) && v < PAGES && Walk(vm, v).Some?
    ensures var f := FrameOf(Walk(vm, v).value);
      && (f in vm.pmm.used && !IsPaging(vm, f) && f != 0 ==> Inv(FreePage(vm, v)))
      && (f == vm.dir ==> !Inv(FreePage(vm, v)))
  {
    FreePageExactly(vm, v);
  }
}
