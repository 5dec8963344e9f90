/** kernel/mm/vmm.c over physical memory as an array of words, 1024 to a frame, with the frame
    allocator of kernel/mm/pmm.c beside it. Each method takes the transition in Paging. */
module Vmm {
  import opened Words
  import opened Paging
  import PagingRuns
  import Frames
  import Pmm

  class Vmm {
    const phys: array<Word>
    const pmm: Pmm.Pmm
    var dir: nat
    var nextVirt: Word

    ghost function Model(): Vm
      reads this, phys, pmm, pmm.bitmap
      requires pmm.Valid()
    {
      Vm(phys[..], dir, pmm.Model(), nextVirt)
    }

    ghost predicate Valid()
      reads this, phys, pmm, pmm.bitmap
    {
      pmm.Valid() && phys as object != pmm.bitmap && Inv(Model())
    }

    /** memset of one frame to zero. */
    static method ZeroFrame(phys: array<Word>, f: nat)
      requires Slot(f, ENTRIES) <= phys.Length
      modifies phys
      ensures phys[..] == Zeroed(old(phys[..]), f)
    {
      var i := 0;
      while i < ENTRIES
        invariant i <= ENTRIES
        invariant forall k :: 0 <= k < phys.Length ==>
          phys[k] == if Slot(f, 0) <= k < Slot(f, i) then 0 else old(phys[k])
      {
        phys[Slot(f, i)] := 0;
        i := i + 1;
      }
    }

    /** The loop of vmm_init: entry k maps page k to itself, writable. */
    static method FillIdentity(phys: array<Word>, f: nat)
      requires Slot(f, ENTRIES) <= phys.Length
      modifies phys
      ensures phys[..] == PagingRuns.IdentityTable(old(phys[..]), f)
    {
      var i := 0;
      while i < ENTRIES
        invariant i <= ENTRIES
        invariant forall k :: 0 <= k < phys.Length ==>
          phys[k] == if Slot(f, 0) <= k < Slot(f, i) then (k - Slot(f, 0)) * FRAME_BYTES + 3 else old(phys[k])
      {
        phys[Slot(f, i)] := i * FRAME_BYTES + 3;
        i := i + 1;
      }
    }

    /** vmm_init up to the loading of the directory. */
    static method BuildTables(phys: array<Word>, pmm: Pmm.Pmm) returns (dir: nat)
      requires pmm.Valid() && phys as object != pmm.bitmap && 0 in pmm.Used()
      requires ENTRIES * pmm.maxBlocks <= phys.Length && PagingRuns.TwoFree(pmm.Model())
      modifies phys, pmm`usedBlocks, pmm.bitmap
      ensures pmm.Valid()
      ensures Vm(phys[..], dir, pmm.Model(), DYNAMIC_BASE) == PagingRuns.Init(old(phys[..]), old(pmm.Model()))
    {
      hide Frames.Lowest;
      ghost var m, p0 := phys[..], pmm.Model();
      PagingRuns.InitWords(m, p0, 0, 0);
      Frames.AllocInv(p0);
      Frames.AllocInv(Frames.Alloc(p0).0);
      var d := pmm.AllocPage(true);
      ZeroFrame(phys, d / FRAME_BYTES);
      var t := pmm.AllocPage(true);
      FillIdentity(phys, t / FRAME_BYTES);
      phys[Slot(d / FRAME_BYTES, 0)] := Entry(t, 2);
      dir := d / FRAME_BYTES;
    }

    /** vmm_init. */
    constructor (phys: array<Word>, pmm: Pmm.Pmm)
      requires pmm.Valid() && phys as object != pmm.bitmap && 0 in pmm.Used()
      requires ENTRIES * pmm.maxBlocks <= phys.Length && PagingRuns.TwoFree(pmm.Model())
      modifies phys, pmm`usedBlocks, pmm.bitmap
      ensures this.phys == phys && this.pmm == pmm && Valid()
      ensures Model() == PagingRuns.Init(old(phys[..]), old(pmm.Model()))
    {
      hide Inv, PagingRuns.Init, PagingRuns.TwoFree, PagingRuns.Conserved, PagingRuns.FreshAbove;
      PagingRuns.InitConserved(phys[..], pmm.Model());
      var d := BuildTables(phys, pmm);
      this.phys, this.pmm, dir, nextVirt := phys, pmm, d, DYNAMIC_BASE;
    }

    /** The first half of vmm_map_page: make sure the directory entry names a table. */
    method EnsureTable(pd: nat, flags: nat) returns (ok: bool)
      requires Valid() && pd < ENTRIES && flags < FRAME_BYTES
      modifies phys, pmm`usedBlocks, pmm.bitmap
      ensures Valid() && ok == WithTable(old(Model()), pd, flags).Some?
      ensures Model() == if ok then WithTable(old(Model()), pd, flags).value else old(Model())
    {
      hide Inv, Frames.Lowest, Frames.Alloc, Present;
      ghost var vm := Model();
      InMemory(vm, pd);
      if Present(phys[Slot(dir, pd)]) {
        return true;
      }
      NewTable(vm, pd, flags);
      FullAlloc(vm);
      var t := pmm.AllocPage(true);
      if t == 0 {
        return false;
      }
      NewTableInv(vm, pd, flags);
      ZeroFrame(phys, t / FRAME_BYTES);
      phys[Slot(dir, pd)] := Entry(t, flags);
      return true;
    }

    /** vmm_map_page. */
    method MapPage(virt: Word, p: Word, flags: nat) returns (ok: bool)
      requires Valid() && p % FRAME_BYTES == 0 && flags < FRAME_BYTES
      modifies phys, pmm`usedBlocks, pmm.bitmap
      ensures Valid()
      ensures var r := Paging.MapPage(old(Model()), virt / FRAME_BYTES, p, flags);
        ok == r.Some? && Model() == if ok then r.value else old(Model())
    {
      hide Inv, WithTable, Present, FrameOf;
      var pd, pt := virt / FRAME_BYTES / ENTRIES, virt / FRAME_BYTES % ENTRIES;
      MapPageWalk(Model(), virt / FRAME_BYTES, p, flags, virt / FRAME_BYTES);
      TableMade(Model(), pd, flags);
      ok := EnsureTable(pd, flags);
      if !ok {
        return;
      }
      InMemory(Model(), pd);
      var table := FrameOf(phys[Slot(dir, pd)]);
      phys[Slot(table, pt)] := Entry(p, flags);
    }

    /** vmm_alloc_page; next_virt is at or above the base of the dynamic region. */
    method AllocPage(flags: nat) returns (virt: Word)
      requires Valid() && NextOk(Model()) && flags < FRAME_BYTES
      modifies this`nextVirt, phys, pmm`usedBlocks, pmm.bitmap
      ensures Valid() && (Model(), virt) == Paging.AllocPage(old(Model()), flags)
    {
      hide Inv, Frames.Lowest, Frames.Alloc, Frames.Free, Paging.MapPage;
      ghost var vm := Model();
      FullAlloc(vm);
      var p := pmm.AllocPage(true);
      if p == 0 {
        return 0;
      }
      AdvancedInv(vm);
      virt := nextVirt;
      nextVirt := (nextVirt + FRAME_BYTES) % WORD;
      var ok := MapPage(virt, p, flags);
      if !ok {
        pmm.FreePage(p);
        BackInv(vm, Model());
        return 0;
      }
    }

    /** vmm_free_page, of any address at all; whether the paging structures survive it is said by
        what the page's entry names. */
    method FreePage(virt: Word)
      requires Valid()
      modifies phys, pmm`usedBlocks, pmm.bitmap
      ensures pmm.Valid() && Model() == Paging.FreePage(old(Model()), virt / FRAME_BYTES)
      ensures Valid() <==> FreesData(old(Model()), virt / FRAME_BYTES)
    {
      hide Inv, Frames.Free, IsPaging, FreesData;
      ghost var vm := Model();
      var pd, pt := virt / FRAME_BYTES / ENTRIES, virt / FRAME_BYTES % ENTRIES;
      FreePageExactly(vm, virt / FRAME_BYTES);
      InMemory(vm, pd);
      if Present(phys[Slot(dir, pd)]) {
        var table := FrameOf(phys[Slot(dir, pd)]);
        pmm.FreePage(FrameOf(phys[Slot(table, pt)]) * FRAME_BYTES);
        phys[Slot(table, pt)] := 0;
      }
    }
  }

  /** When a table is at hand vmm_map_page's state is valid in between. */
  lemma {:induction false} TableMade(vm: Vm, pd: nat, flags: nat)
    requires Inv(vm) && pd < ENTRIES && flags < FRAME_BYTES
    ensures WithTable(vm, pd, flags).Some? ==> HasTable(WithTable(vm, pd, flags).value, pd)
  {
    if !HasTable(vm, pd) {
      NewTable(vm, pd, flags);
      if !Full(vm) { NewTableInv(vm, pd, flags); }
    }
  }

  /** Giving back the frame after a failed map leaves only next_virt moved. */
  lemma {:induction false} BackInv(vm: Vm, t: Vm)
    requires Inv(vm) && t == vm.(next := t.next)
    ensures Inv(t)
  {
    SameDirectory(vm, t);
  }

  lemma {:induction false} FullAlloc(vm: Vm)
    requires Inv(vm)
    ensures Frames.Alloc(vm.pmm).1 == 0 <==> Full(vm)
    ensures Full(vm) ==> Frames.Alloc(vm.pmm).0 == vm.pmm
    ensures !Full(vm) ==> Frames.Alloc(vm.pmm).1 == NewFrame(vm) * FRAME_BYTES && Slot(NewFrame(vm), ENTRIES) <= |vm.m|
  {
    Frames.AllocInv(vm.pmm);
  }

  lemma {:induction false} InMemory(vm: Vm, pd: nat)
    requires Inv(vm) && pd < ENTRIES
    ensures Slot(vm.dir, pd) < |vm.m|
    ensures HasTable(vm, pd) ==> Slot(Table(vm, pd), ENTRIES) <= |vm.m|
  {
  }
}
