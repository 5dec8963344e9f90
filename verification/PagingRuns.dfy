/** Whole runs of vmm_alloc_page and vmm_free_page: where frames go, and which addresses
    successful allocations return. */
module PagingRuns {
  import opened Words
  import opened Paging
  import Frames

  /** `live` maps each dynamic page a client holds to its frame. */
  datatype Sys = Sys(vm: Vm, live: map<nat, nat>)

  const DYNAMIC_TABLE := 768

  /** Tables the dynamic region has received. */
  ghost function NewTables(vm: Vm): set<nat> {
    set pd | DYNAMIC_TABLE <= pd < ENTRIES && HasTable(vm, pd) :: Table(vm, pd)
  }

  /** Page p is mapped to the frame recorded for it, which is neither a table nor shared. */
  ghost predicate Holds(s: Sys, base: set<nat>, v: nat)
    requires v in s.live
  {
    && DYNAMIC_BASE <= v * FRAME_BYTES < s.vm.next
    && Walk(s.vm, v).Some? && FrameOf(Walk(s.vm, v).value) == s.live[v]
    && s.live[v] !in base && s.live[v] !in NewTables(s.vm)
  }

  /** The used frames are those in use before any allocation, plus the new tables, plus the
      frames of the live pages, and these three do not meet. */
  ghost predicate Conserved(s: Sys, base: set<nat>) {
    && Inv(s.vm) && NextOk(s.vm)
    && 0 in base && s.vm.dir in base
    && (forall pd :: 0 <= pd < DYNAMIC_TABLE && HasTable(s.vm, pd) ==> Table(s.vm, pd) in base)
    && NewTables(s.vm) !! base
    && (forall v :: v in s.live ==> Holds(s, base, v))
    && (forall v, u :: v in s.live && u in s.live && v != u ==> s.live[v] != s.live[u])
    && s.vm.pmm.used == base + NewTables(s.vm) + s.live.Values
  }

  datatype Op = DoAlloc(flags: nat) | DoFree(v: nat)

  /** Fewer than 2^18 allocations so far, and a client frees only what it holds. */
  ghost predicate Enabled(s: Sys, op: Op) {
    match op
    case DoAlloc(flags) => flags < FRAME_BYTES && s.vm.next + FRAME_BYTES < WORD
    case DoFree(v) => v in s.live
  }

  function Step(s: Sys, op: Op): Sys {
    match op
    case DoAlloc(flags) =>
      if flags >= FRAME_BYTES then s
      else
        var (t, virt) := AllocPage(s.vm, flags);
        if virt == 0 then Sys(t, s.live) else Sys(t, s.live[virt / FRAME_BYTES := NewFrame(s.vm)])
    case DoFree(v) => Sys(FreePage(s.vm, v), s.live - {v})
  }

  ghost predicate Runnable(s: Sys, ops: seq<Op>)
    decreases |ops|
  {
    ops == [] || (Enabled(s, ops[0]) && Runnable(Step(s, ops[0]), ops[1..]))
  }

  function Run(s: Sys, ops: seq<Op>): Sys
    decreases |ops|
  {
    if ops == [] then s else Run(Step(s, ops[0]), ops[1..])
  }

  // ---- Conservation ------------------------------------------------------------------

  lemma {:induction false} LiveIsData(s: Sys, base: set<nat>, v: nat)
    requires Conserved(s, base) && v in s.live
    ensures s.live[v] in s.vm.pmm.used && !IsPaging(s.vm, s.live[v]) && s.live[v] != 0 && v < PAGES
  {
    assert Holds(s, base, v);
    forall pd | 0 <= pd < ENTRIES && HasTable(s.vm, pd) ensures Table(s.vm, pd) != s.live[v] {
      assert pd >= DYNAMIC_TABLE ==> Table(s.vm, pd) in NewTables(s.vm);
    }
  }

  lemma {:induction false} SameTables(vm: Vm, t: Vm)
    requires forall pd :: 0 <= pd < ENTRIES ==> DirEntry(t, pd) == DirEntry(vm, pd)
    ensures NewTables(t) == NewTables(vm)
    ensures forall pd :: 0 <= pd < ENTRIES ==> HasTable(t, pd) == HasTable(vm, pd) && Table(t, pd) == Table(vm, pd)
  {
    assert forall pd :: 0 <= pd < ENTRIES ==> HasTable(t, pd) == HasTable(vm, pd) && Table(t, pd) == Table(vm, pd);
    forall f ensures f in NewTables(t) <==> f in NewTables(vm) {
      if f in NewTables(t) {
        var pd :| DYNAMIC_TABLE <= pd < ENTRIES && HasTable(t, pd) && Table(t, pd) == f;
        assert HasTable(vm, pd);
      }
      if f in NewTables(vm) {
        var pd :| DYNAMIC_TABLE <= pd < ENTRIES && HasTable(vm, pd) && Table(vm, pd) == f;
        assert HasTable(t, pd);
      }
    }
  }

  lemma {:induction false} ValuesWithout(m: map<nat, nat>, v: nat)
    requires v in m && forall x, y :: x in m && y in m && x != y ==> m[x] != m[y]
    ensures (m - {v}).Values == m.Values - {m[v]}
  {
    forall f | f in m.Values - {m[v]} ensures f in (m - {v}).Values {
      var x :| x in m && m[x] == f;
      assert x in m - {v} && (m - {v})[x] == f;
    }
  }

  lemma {:induction false} ValuesWith(m: map<nat, nat>, v: nat, f: nat)
    requires v !in m
    ensures m[v := f].Values == m.Values + {f}
  {
    forall g | g in m.Values ensures g in m[v := f].Values {
      var x :| x in m && m[x] == g;
      assert m[v := f][x] == g;
    }
    assert m[v := f][v] == f;
  }

  lemma {:induction false} FreeConserved(s: Sys, base: set<nat>, v: nat)
    requires Conserved(s, base) && v in s.live
    ensures Conserved(Step(s, DoFree(v)), base)
  {
    hide Inv, Walk, FreePage, NewTables, IsPaging;
    var t := Step(s, DoFree(v));
    assert Holds(s, base, v);
    LiveIsData(s, base, v);
    FreePageOutcome(s.vm, v, v);
    SameTables(s.vm, t.vm);
    ValuesWithout(s.live, v);
    forall u | u in t.live ensures Holds(t, base, u) {
      assert Holds(s, base, u);
      LiveIsData(s, base, u);
      FreePageOutcome(s.vm, v, u);
    }
  }

  /** The tables after mapping page v of the dynamic region. */
  lemma {:induction false} NewTablesAfter(vm: Vm, v: nat, phys: Word, flags: nat)
    requires Inv(vm) && v < PAGES && v / ENTRIES >= DYNAMIC_TABLE
    requires phys % FRAME_BYTES == 0 && flags < FRAME_BYTES
    requires HasTable(vm, v / ENTRIES) || !Full(vm)
    ensures MapPage(vm, v, phys, flags).Some?
    ensures NewTables(MapPage(vm, v, phys, flags).value)
         == NewTables(vm) + (if HasTable(vm, v / ENTRIES) then {} else {NewFrame(vm)})
  {
    MapPageTables(vm, v, phys, flags, v / ENTRIES);
    var t := MapPage(vm, v, phys, flags).value;
    forall pd | 0 <= pd < ENTRIES
      ensures HasTable(t, pd) <==> HasTable(vm, pd) || pd == v / ENTRIES
      ensures HasTable(t, pd) ==> Table(t, pd) == if HasTable(vm, pd) then Table(vm, pd) else NewFrame(vm)
    {
      MapPageTables(vm, v, phys, flags, pd);
    }
  }

  lemma {:induction false} AllocConserved(s: Sys, base: set<nat>, flags: nat)
    requires Conserved(s, base) && Enabled(s, DoAlloc(flags))
    ensures Conserved(Step(s, DoAlloc(flags)), base)
  {
    var vm, v := s.vm, s.vm.next / FRAME_BYTES;
    AllocPageOutcome(vm, flags);
    if Full(vm) {
      return;
    }
    AdvancedInv(vm);
    if !HasTable(vm, v / ENTRIES) && Full(Advanced(vm)) {
      OnlyNextMoves(s, base, (vm.next + FRAME_BYTES) % WORD);
    } else {
      MappedConserved(s, base, flags);
    }
  }

  lemma {:induction false} OnlyNextMoves(s: Sys, base: set<nat>, next: Word)
    requires Conserved(s, base) && next > s.vm.next && next % FRAME_BYTES == 0
    ensures Conserved(Sys(s.vm.(next := next), s.live), base)
  {
    var t := Sys(s.vm.(next := next), s.live);
    SameTables(s.vm, t.vm);
    SameDirectory(s.vm, t.vm);
    forall u | u in t.live ensures Holds(t, base, u) {
      assert Holds(s, base, u);
    }
  }

  /** vmm_alloc_page finds a frame, and a table or a frame for one. */
  predicate Succeeds(vm: Vm) {
    !Full(vm) && (HasTable(vm, vm.next / FRAME_BYTES / ENTRIES) || !Full(Advanced(vm)))
  }

  /** The frames that become used: one for the page, perhaps one for a table. */
  function TableFrame(vm: Vm): set<nat> {
    if HasTable(vm, vm.next / FRAME_BYTES / ENTRIES) then {} else {NewFrame(Advanced(vm))}
  }

  lemma {:induction false} MappedFrames(vm: Vm, flags: nat)
    requires Inv(vm) && NextOk(vm) && flags < FRAME_BYTES && Succeeds(vm)
    ensures var (t, virt) := AllocPage(vm, flags); var f := NewFrame(vm);
      && virt == vm.next && Inv(t) && t.dir == vm.dir && t.next == Advanced(vm).next
      && f !in vm.pmm.used && TableFrame(vm) !! vm.pmm.used + {f}
      && t.pmm.used == vm.pmm.used + {f} + TableFrame(vm)
      && NewTables(t) == NewTables(vm) + TableFrame(vm)
  {
    hide Inv, NewTables;
    var a, v, f := Advanced(vm), vm.next / FRAME_BYTES, NewFrame(vm);
    AdvancedInv(vm);
    AllocPageOutcome(vm, flags);
    SameTables(vm, a);
    MapPageWalk(a, v, f * FRAME_BYTES, flags, v);
    NewTablesAfter(a, v, f * FRAME_BYTES, flags);
    if !HasTable(a, v / ENTRIES) { AdvancedInv(a); }
  }

  lemma {:induction false} MappedWalk(vm: Vm, flags: nat, u: nat)
    requires Inv(vm) && NextOk(vm) && flags < FRAME_BYTES && Succeeds(vm) && u < PAGES
    ensures var t := AllocPage(vm, flags).0;
      if u == vm.next / FRAME_BYTES then Walk(t, u).Some? && FrameOf(Walk(t, u).value) == NewFrame(vm)
      else Walk(t, u) == Walk(vm, u)
  {
    hide Inv;
    AdvancedInv(vm);
    AllocPageOutcome(vm, flags);
    MapPageWalk(Advanced(vm), vm.next / FRAME_BYTES, NewFrame(vm) * FRAME_BYTES, flags, u);
    EntryFields(NewFrame(vm) * FRAME_BYTES, flags);
  }

  lemma {:induction false} MappedLowTable(vm: Vm, flags: nat, pd: nat)
    requires Inv(vm) && NextOk(vm) && flags < FRAME_BYTES && Succeeds(vm) && pd < ENTRIES
    ensures var t := AllocPage(vm, flags).0;
      && (HasTable(t, pd) <==> HasTable(vm, pd) || pd == vm.next / FRAME_BYTES / ENTRIES)
      && (HasTable(vm, pd) ==> Table(t, pd) == Table(vm, pd))
  {
    hide Inv;
    AdvancedInv(vm);
    AllocPageOutcome(vm, flags);
    SameTables(vm, Advanced(vm));
    MapPageTables(Advanced(vm), vm.next / FRAME_BYTES, NewFrame(vm) * FRAME_BYTES, flags, pd);
  }

  /** The case where vmm_alloc_page succeeds. */
  lemma {:induction false} MappedConserved(s: Sys, base: set<nat>, flags: nat)
    requires Conserved(s, base) && Enabled(s, DoAlloc(flags)) && Succeeds(s.vm)
    ensures Conserved(Step(s, DoAlloc(flags)), base)
  {
    hide Inv, Walk, NewTables, IsPaging, Frames.Lowest, AllocPage, HasTable, Table, Succeeds, TableFrame;
    var vm, v, f := s.vm, s.vm.next / FRAME_BYTES, NewFrame(s.vm);
    var t := Step(s, DoAlloc(flags));
    MappedFrames(vm, flags);
    forall u | u in s.live ensures u != v {
      assert Holds(s, base, u);
    }
    ValuesWith(s.live, v, f);
    forall pd | 0 <= pd < DYNAMIC_TABLE && HasTable(t.vm, pd) ensures Table(t.vm, pd) in base {
      MappedLowTable(vm, flags, pd);
    }
    forall u | u in t.live ensures Holds(t, base, u) {
      if u in s.live {
        assert Holds(s, base, u);
        LiveIsData(s, base, u);
      }
      MappedWalk(vm, flags, u);
    }
    forall u | u in s.live ensures s.live[u] != f {
      LiveIsData(s, base, u);
    }
  }

  /** Neither mapping a page nor making its table touches the data of a live page. */
  lemma {:induction false} AllocKeepsData(s: Sys, base: set<nat>, flags: nat, u: nat)
    requires Conserved(s, base) && Enabled(s, DoAlloc(flags)) && u in s.live
    ensures SameFrame(s.vm, AllocPage(s.vm, flags).0, s.live[u])
  {
    hide Inv, Frames.Alloc, Walk, NewTables;
    var vm, v := s.vm, s.vm.next / FRAME_BYTES;
    AllocPageOutcome(vm, flags);
    if Succeeds(vm) {
      LiveIsData(s, base, u);
      AdvancedInv(vm);
      SameTables(vm, Advanced(vm));
      MapPageTables(Advanced(vm), v, NewFrame(vm) * FRAME_BYTES, flags, v / ENTRIES);
    }
  }

  lemma {:induction false} StepConserved(s: Sys, base: set<nat>, op: Op)
    requires Conserved(s, base) && Enabled(s, op)
    ensures Conserved(Step(s, op), base)
  {
    match op
    case DoAlloc(flags) => AllocConserved(s, base, flags);
    case DoFree(v) => FreeConserved(s, base, v);
  }

  /** After every run live pages map injectively to frames that are neither tables, nor the
      directory, nor anything in use before, and no used frame is unaccounted for. */
  lemma {:induction false} RunConserved(s: Sys, base: set<nat>, ops: seq<Op>)
    requires Conserved(s, base) && Runnable(s, ops)
    ensures Conserved(Run(s, ops), base)
    decreases |ops|
  {
    if ops != [] {
      StepConserved(s, base, ops[0]);
      RunConserved(Step(s, ops[0]), base, ops[1..]);
    }
  }

  /** The same as a count: used frames = frames used before + tables added + live pages. */
  lemma {:induction false} UsedCount(s: Sys, base: set<nat>)
    requires Conserved(s, base)
    ensures |s.vm.pmm.used| == |base| + |NewTables(s.vm)| + |s.live|
  {
    forall v | v in s.live ensures s.live[v] !in base && s.live[v] !in NewTables(s.vm) {
      assert Holds(s, base, v);
    }
    InjectiveValues(s.live);
    assert base !! NewTables(s.vm) && (base + NewTables(s.vm)) !! s.live.Values;
  }

  lemma {:induction false} InjectiveValues(m: map<nat, nat>)
    requires forall x, y :: x in m && y in m && x != y ==> m[x] != m[y]
    ensures |m.Values| == |m|
    decreases |m|
  {
    if m != map[] {
      var v :| v in m;
      InjectiveValues(m - {v});
      ValuesWithout(m, v);
      assert m.Keys == (m - {v}).Keys + {v};
      assert m.Values == (m - {v}).Values + {m[v]};
    }
  }

  // ---- Initialisation ----------------------------------------------------------------

  /** Word i of memory once frame f is the identity table: entry k maps page k, writable. */
  function IdentityWord(f: nat, i: nat, w: Word): Word {
    if Slot(f, 0) <= i < Slot(f, ENTRIES) then (i - Slot(f, 0)) * FRAME_BYTES + 3 else w
  }

  function IdentityTable(m: seq<Word>, f: nat): (r: seq<Word>)
    ensures |r| == |m|
  {
    seq(|m|, i requires 0 <= i < |m| => IdentityWord(f, i, m[i]))
  }

  /** vmm_init: a directory, and one table that maps the first 4 MiB to themselves. */
  function Init(m: seq<Word>, pmm: Frames.State): Vm {
    var (p1, d) := Frames.Alloc(pmm);
    var (p2, t) := Frames.Alloc(p1);
    var dir, table := d / FRAME_BYTES, t / FRAME_BYTES;
    Vm(Store(IdentityTable(Zeroed(m, dir), table), Slot(dir, 0), Entry(t, 2)), dir, p2, DYNAMIC_BASE)
  }

  /** At least two frames are free. */
  predicate TwoFree(pmm: Frames.State) {
    Frames.Lowest(pmm) < pmm.max && Frames.Lowest(Frames.Alloc(pmm).0) < pmm.max
  }

  lemma {:induction false} InitWords(m: seq<Word>, pmm: Frames.State, g: nat, j: nat)
    requires Frames.Inv(pmm) && 0 in pmm.used && ENTRIES * pmm.max <= |m| && TwoFree(pmm) && j < ENTRIES
    ensures var vm, dir, table := Init(m, pmm), Frames.Lowest(pmm), Frames.Lowest(Frames.Alloc(pmm).0);
      && dir != table && vm.dir == dir && vm.next == DYNAMIC_BASE && |vm.m| == |m| && table < pmm.max && dir < pmm.max && dir != 0 && table != 0
      && vm.pmm.used == pmm.used + {dir, table} && vm.pmm.max == pmm.max && Frames.Inv(vm.pmm)
      && (g == table ==> Load(vm.m, Slot(g, j)) == j * FRAME_BYTES + 3)
      && (g == dir ==> Load(vm.m, Slot(g, j)) == if j == 0 then table * FRAME_BYTES + 3 else 0)
  {
    var p1 := Frames.Alloc(pmm).0;
    Frames.AllocInv(pmm);
    Frames.AllocInv(p1);
    var dir, table := Frames.Lowest(pmm), Frames.Lowest(p1);
    LoadStore(IdentityTable(Zeroed(m, dir), table), dir, 0, Entry(table * FRAME_BYTES, 2), g, j);
    SlotsApart(g, j, table, 0);
    LoadZeroed(m, dir, g, j);
  }

  lemma {:induction false} IdentityFields(f: nat)
    requires f * FRAME_BYTES + 3 < WORD
    ensures Present(f * FRAME_BYTES + 3) && FrameOf(f * FRAME_BYTES + 3) == f && !Present(0)
  {
    LowDivided(f, 3);
  }

  lemma {:induction false} InitDirectory(m: seq<Word>, pmm: Frames.State)
    requires Frames.Inv(pmm) && 0 in pmm.used && ENTRIES * pmm.max <= |m| && TwoFree(pmm)
    ensures var vm := Init(m, pmm);
      && Inv(vm) && HasTable(vm, 0) && Table(vm, 0) == Frames.Lowest(Frames.Alloc(pmm).0)
      && forall pd :: 0 < pd < ENTRIES ==> !HasTable(vm, pd)
  {
    hide Init, Frames.Lowest, Frames.Alloc, Present, FrameOf;
    var vm, dir, table := Init(m, pmm), Frames.Lowest(pmm), Frames.Lowest(Frames.Alloc(pmm).0);
    InitWords(m, pmm, dir, 0);
    IdentityFields(table);
    assert HasTable(vm, 0) && Table(vm, 0) == table;
    forall pd | 0 < pd < ENTRIES ensures !HasTable(vm, pd) {
      InitWords(m, pmm, dir, pd);
    }
  }

  /** After vmm_init the first 4 MiB translate to themselves and nothing else translates. */
  lemma {:induction false} InitWalk(m: seq<Word>, pmm: Frames.State, v: nat)
    requires Frames.Inv(pmm) && 0 in pmm.used && ENTRIES * pmm.max <= |m| && TwoFree(pmm) && v < PAGES
    ensures Walk(Init(m, pmm), v) == if v < ENTRIES then Some((v * FRAME_BYTES + 3) as Word) else None
  {
    hide Init, Inv, Frames.Lowest, Frames.Alloc, Present, FrameOf;
    InitDirectory(m, pmm);
    InitWords(m, pmm, Frames.Lowest(Frames.Alloc(pmm).0), v % ENTRIES);
    IdentityFields(v % ENTRIES);
  }

  /** Right after vmm_init, freeing the identity page of the directory frees the directory. */
  lemma {:induction false} DirectoryPageFreed(m: seq<Word>, pmm: Frames.State)
    requires Frames.Inv(pmm) && 0 in pmm.used && ENTRIES * pmm.max <= |m| && TwoFree(pmm)
    requires Init(m, pmm).dir < ENTRIES
    ensures var vm := Init(m, pmm);
      Inv(vm) && Walk(vm, vm.dir).Some? && !Inv(FreePage(vm, vm.dir)) && vm.dir !in FreePage(vm, vm.dir).pmm.used
  {
    hide Init, Inv, Frames.Lowest, Frames.Alloc, FreePage, TwoFree;
    var vm := Init(m, pmm);
    InitDirectory(m, pmm);
    InitWalk(m, pmm, vm.dir);
    IdentityFields(vm.dir);
    FreeMappedPage(vm, vm.dir);
    FreesUnused(vm, vm.dir);
  }

  /** Freeing a page touches the data of no other live page, nor of its own. */
  lemma {:induction false} FreeKeepsData(s: Sys, base: set<nat>, v: nat, u: nat)
    requires Conserved(s, base) && v in s.live && u in s.live
    ensures SameFrame(s.vm, Step(s, DoFree(v)).vm, s.live[u])
  {
    hide Inv, NewTables;
    LiveIsData(s, base, v);
    LiveIsData(s, base, u);
    assert Holds(s, base, v);
    SetEntryFrames(s.vm, v, 0, s.live[u]);
  }

  /** The identity pages are writable, and closed to user mode. */
  lemma {:induction false} InitRights(m: seq<Word>, pmm: Frames.State, v: nat)
    requires Frames.Inv(pmm) && 0 in pmm.used && ENTRIES * pmm.max <= |m| && TwoFree(pmm) && v < ENTRIES
    ensures Grants(Init(m, pmm), v, Write) && !Grants(Init(m, pmm), v, User)
  {
    hide Init, Inv, Frames.Lowest, Frames.Alloc, Walk, TwoFree;
    InitWalk(m, pmm, v);
    InitWords(m, pmm, Frames.Lowest(pmm), 0);
    LowDivided(v, 3);
    LowDivided(Frames.Lowest(Frames.Alloc(pmm).0), 3);
  }

  /** The runs of this module start from the state vmm_init leaves. */
  lemma {:induction false} InitConserved(m: seq<Word>, pmm: Frames.State)
    requires Frames.Inv(pmm) && 0 in pmm.used && ENTRIES * pmm.max <= |m| && TwoFree(pmm)
    ensures var vm := Init(m, pmm);
      Inv(vm) && FreshAbove(vm) && NextOk(vm) && Conserved(Sys(vm, map[]), vm.pmm.used)
  {
    hide Init;
    var vm := Init(m, pmm);
    InitDirectory(m, pmm);
    InitWords(m, pmm, 0, 0);
    assert NewTables(vm) == {};
  }

  // ---- Addresses of successful allocations --------------------------------------------

  /** The directory index of an address. */
  function DirOf(a: nat): nat { a / FRAME_BYTES / ENTRIES }

  lemma {:induction false} DirOfNext(a: nat)
    requires a % FRAME_BYTES == 0 && a > 0
    ensures DirOf(a - 1) <= DirOf(a) == DirOf(a + FRAME_BYTES - 1) <= DirOf(a + FRAME_BYTES)
  {
  }

  /** No table exists yet beyond the region of the last page tried. */
  ghost predicate FreshAbove(vm: Vm) {
    vm.next > 0 && forall pd :: DirOf(vm.next - 1) < pd < ENTRIES ==> !HasTable(vm, pd)
  }

  /** The addresses returned by the successful ones among successive vmm_alloc_page calls. */
  function Addresses(vm: Vm, flags: seq<nat>): seq<Word>
    requires forall i :: 0 <= i < |flags| ==> flags[i] < FRAME_BYTES
    decreases |flags|
  {
    if flags == [] then []
    else
      var (t, virt) := AllocPage(vm, flags[0]);
      (if virt == 0 then [] else [virt]) + Addresses(t, flags[1..])
  }

  /** One frame is left, and the next page, like all after it, would need a table. */
  ghost predicate Stuck(vm: Vm) {
    && !Full(vm) && Full(Advanced(vm))
    && forall pd :: DirOf(vm.next) <= pd < ENTRIES ==> !HasTable(vm, pd)
  }

  lemma {:induction false} StuckStays(vm: Vm, flags: nat)
    requires Inv(vm) && NextOk(vm) && Stuck(vm) && flags < FRAME_BYTES && vm.next + FRAME_BYTES < WORD
    ensures var (t, virt) := AllocPage(vm, flags);
      virt == 0 && Inv(t) && NextOk(t) && Stuck(t) && t.next == vm.next + FRAME_BYTES
  {
    AllocPageOutcome(vm, flags);
    NextStuck(vm);
  }

  /** Moving next_virt with one frame left. */
  lemma {:induction false} NextStuck(vm: Vm)
    requires Inv(vm) && NextOk(vm) && vm.next + FRAME_BYTES < WORD && !Full(vm) && Full(Advanced(vm))
    requires forall pd :: DirOf(vm.next) <= pd < ENTRIES ==> !HasTable(vm, pd)
    ensures var t := vm.(next := vm.next + FRAME_BYTES); Inv(t) && NextOk(t) && Stuck(t)
  {
    var t := vm.(next := vm.next + FRAME_BYTES);
    SameDirectory(vm, t);
    DirOfNext(vm.next);
    forall pd | DirOf(t.next) <= pd < ENTRIES ensures !HasTable(t, pd) {
      assert !HasTable(vm, pd);
    }
  }

  lemma {:induction false} StuckAddresses(vm: Vm, flags: seq<nat>)
    requires Inv(vm) && NextOk(vm) && Stuck(vm) && vm.next + FRAME_BYTES * |flags| < WORD
    requires forall i :: 0 <= i < |flags| ==> flags[i] < FRAME_BYTES
    ensures Addresses(vm, flags) == []
    decreases |flags|
  {
    hide Inv, Stuck, AllocPage;
    if flags != [] {
      StuckStays(vm, flags[0]);
      StuckAddresses(AllocPage(vm, flags[0]).0, flags[1..]);
    }
  }

  /** While nothing is freed, the pages vmm_alloc_page hands out follow one another without a
      gap: a call that fails after moving next_virt is never followed by one that succeeds.
      This is what the kernel heap relies on. */
  lemma {:induction false} PagesContiguous(vm: Vm, flags: seq<nat>)
    requires Inv(vm) && NextOk(vm) && FreshAbove(vm) && vm.next + FRAME_BYTES * |flags| < WORD
    requires forall i :: 0 <= i < |flags| ==> flags[i] < FRAME_BYTES
    ensures forall i :: 0 <= i < |Addresses(vm, flags)| ==> Addresses(vm, flags)[i] == vm.next + FRAME_BYTES * i
    decreases |flags|
  {
    hide Inv, Stuck, AllocPage, FreshAbove;
    if flags != [] {
      var (t, virt) := AllocPage(vm, flags[0]);
      AllocFreshAbove(vm, flags[0]);
      if virt == 0 && t.next != vm.next {
        StuckAddresses(t, flags[1..]);
      } else {
        PagesContiguous(t, flags[1..]);
      }
    }
  }

  lemma {:induction false} MappedFreshAbove(vm: Vm, flags: nat)
    requires Inv(vm) && NextOk(vm) && FreshAbove(vm) && flags < FRAME_BYTES && vm.next + FRAME_BYTES < WORD
    requires Succeeds(vm)
    ensures var (t, virt) := AllocPage(vm, flags);
      Inv(t) && virt == vm.next && t.next == vm.next + FRAME_BYTES && FreshAbove(t)
  {
    hide Inv, AllocPage, Frames.Alloc, HasTable, Succeeds;
    MappedFrames(vm, flags);
    DirOfNext(vm.next);
    var t := AllocPage(vm, flags).0;
    forall pd | DirOf(t.next - 1) < pd < ENTRIES ensures !HasTable(t, pd) {
      MappedLowTable(vm, flags, pd);
    }
  }

  lemma {:induction false} AllocFreshAbove(vm: Vm, flags: nat)
    requires Inv(vm) && NextOk(vm) && FreshAbove(vm) && flags < FRAME_BYTES && vm.next + FRAME_BYTES < WORD
    ensures var (t, virt) := AllocPage(vm, flags);
      && Inv(t) && NextOk(t)
      && (virt != 0 ==> virt == vm.next && t.next == vm.next + FRAME_BYTES && FreshAbove(t))
      && (virt == 0 && t.next == vm.next ==> FreshAbove(t))
      && (virt == 0 && t.next != vm.next ==> t.next == vm.next + FRAME_BYTES && Stuck(t))
  {
    hide Inv, AllocPage, Frames.Alloc, HasTable, MapPage;
    AllocPageOutcome(vm, flags);
    DirOfNext(vm.next);
    if Succeeds(vm) {
      MappedFreshAbove(vm, flags);
    } else if !Full(vm) {
      NextStuck(vm);
    }
  }
}
