/** The first allocation on the kernel heap: frames from the bitmap are mapped behind the whole heap. */
module HeapSetup {
  import opened Arith
  import opened FrameModel
  import opened FrameBitmap
  import opened PagingModel
  import opened Paging
  import HeapModel

  const HEAP_BEGIN: nat := HeapModel.HEAP_BEGIN
  const HEAP_PAGES: nat := HeapModel.HEAP_SIZE / PAGE

  /** The taken frames once the heap has its own. */
  ghost function WithHeap(used: set<nat>, maxBlocks: nat, usedBlocks: nat): set<nat> {
    var f := PagesChoice(used, maxBlocks, usedBlocks, HEAP_PAGES);
    if f == 0 then used else used + Range(f, HEAP_PAGES)
  }

  /** The heap's frames belonged to nobody before and are no tables. */
  ghost predicate OwnFrames(m: Memory, root: nat, before: set<nat>, after: set<nat>, phys: nat) {
    forall g :: g in Range(FrameOf(phys), HEAP_PAGES) ==> g !in before && g in after && !IsTable(m, root, g)
  }

  lemma MoreTaken(m: Memory, root: nat, used: set<nat>, more: set<nat>)
    requires SelfMapped(m, root, used) && used <= more
    ensures SelfMapped(m, root, more)
  {
  }

  lemma HeapPlaces()
    ensures HEAP_BEGIN % PAGE == 0 && HEAP_BEGIN + HEAP_PAGES * PAGE == HeapModel.HEAP_LIMIT <= WINDOW
    ensures HEAP_PAGES * PAGE == HeapModel.HEAP_SIZE && 0 < HEAP_PAGES < FRAMES && !Large(RW)
  {
  }

  /** Takes the frames and maps them; false reports the kernel's abort. Nothing looks whether frames were found:
      the heap has frames of its own exactly when they were, and lies on physical address 0 when not. */
  method BackHeap(t: PageTables) returns (ok: bool, phys: nat)
    requires t.Valid()
    requires Roomy(t.mem, t.root, WithHeap(t.pmm.Used(), t.pmm.maxBlocks, t.pmm.usedBlocks), t.pmm.Scanned(),
                   DirIndex(HEAP_BEGIN), LastDir(HEAP_BEGIN, HEAP_PAGES), 0)
    modifies t`mem, t.pmm`usedBlocks, t.pmm.bitmap
    ensures t.Valid()
    ensures phys == PagesChoice(old(t.pmm.Used()), t.pmm.maxBlocks, old(t.pmm.usedBlocks), HEAP_PAGES) * PAGE
    ensures ok <==>
      Unmapped(old(t.mem), t.root, HEAP_BEGIN, HEAP_PAGES)
      && |Missing(old(t.mem), t.root, DirIndex(HEAP_BEGIN), LastDir(HEAP_BEGIN, HEAP_PAGES))|
         <= Wrap(t.pmm.maxBlocks - (old(t.pmm.usedBlocks) + if phys == 0 then 0 else HEAP_PAGES))
    ensures ok ==> forall j: nat, b: nat {:trigger BitOf(EntryOf(t.mem, t.root, PageAt(HEAP_BEGIN, j)), b)} ::
              j < HEAP_PAGES && b < 12 ==> (BitOf(EntryOf(t.mem, t.root, PageAt(HEAP_BEGIN, j)), b) <==> b < 2)
    ensures ok ==> Unmapped(old(t.mem), t.root, HEAP_BEGIN, HEAP_PAGES)
                   && MapsTo(t.mem, t.root, HEAP_BEGIN, phys, HEAP_PAGES)
                   && SameOutside(old(t.mem), t.mem, t.root, HEAP_BEGIN, HEAP_PAGES)
    ensures OwnFrames(t.mem, t.root, old(t.pmm.Used()), t.pmm.Used(), phys) <==> phys != 0
  {
    hide Large, Roomy, SelfMapped, Walk, MapsTo, Unmapped, SameOutside, PagesChoice, LastDir, DirIndex, IsTable;
    hide TablesStay, Taken, FirstRun, OwnFrames, Range, Scan;
    HeapPlaces();
    ghost var m, used := t.mem, t.pmm.Used();
    ghost var f := PagesChoice(used, t.pmm.maxBlocks, t.pmm.usedBlocks, HEAP_PAGES);
    FramesFit(used, t.pmm.maxBlocks, t.pmm.usedBlocks);
    phys := t.pmm.PmmAllocPages(HEAP_PAGES);
    ghost var taken := t.pmm.Used();
    MoreTaken(m, t.root, used, taken);
    ok := t.MapPages(HEAP_BEGIN, phys, HEAP_PAGES, RW);
    OwnExactly(m, t.mem, t.root, used, taken, t.pmm.Used(), f);
    WrapSubtract(t.pmm.maxBlocks, old(t.pmm.usedBlocks), if phys == 0 then 0 else HEAP_PAGES);
    WritableOnly();
  }

  lemma WrapSubtract(max: u32, u: u32, n: nat)
    ensures Wrap(max - Wrap(u + n)) == Wrap(max - (u + n)) && Wrap(u + 0) == u
  {
    var q := (u + n) / WORD_LIMIT;
    assert Wrap(u + n) == u + n - q * WORD_LIMIT;
    WrapShift(max - (u + n), q);
  }

  lemma WritableOnly()
    ensures forall b: nat :: b < 12 ==> (b == 0 || BitOf(RW, b) <==> b < 2)
  {
    hide BitOf;
    forall b: nat | b < 12 ensures b == 0 || BitOf(RW, b) <==> b < 2 { SixHas(b); }
  }

  lemma FramesFit(used: set<nat>, maxBlocks: nat, usedBlocks: nat)
    requires maxBlocks < FRAMES
    ensures var f := PagesChoice(used, maxBlocks, usedBlocks, HEAP_PAGES);
      && f * PAGE + HEAP_PAGES * PAGE <= WORD_LIMIT && f * PAGE % PAGE == 0 && FrameOf(f * PAGE) == f
      && (f != 0 ==> Range(f, HEAP_PAGES) !! used)
  {
    hide PagesChoice;
    PagesChoiceIsFree(used, maxBlocks, usedBlocks, HEAP_PAGES);
  }

  lemma OwnExactly(m: Memory, m': Memory, root: nat, used: set<nat>, taken: set<nat>, after: set<nat>, f: nat)
    requires SelfMapped(m, root, used) && TablesStay(m, m', root, taken) && taken <= after && 0 in used
    requires f != 0 ==> Range(f, HEAP_PAGES) !! used && taken == used + Range(f, HEAP_PAGES)
    requires FrameOf(f * PAGE) == f
    ensures OwnFrames(m', root, used, after, f * PAGE) <==> f != 0
  {
    hide SelfMapped, TablesStay, IsTable;
    if f != 0 {
      forall g | g in Range(f, HEAP_PAGES) ensures g !in used && g in after && !IsTable(m', root, g) {
        NoTableLater(m, m', root, used, taken, g);
      }
    } else {
      assert 0 in Range(f, HEAP_PAGES);
    }
  }

  /** A frame that was free is no table, and taking it for something else keeps it from becoming one. */
  lemma NoTableLater(m: Memory, m': Memory, root: nat, used: set<nat>, taken: set<nat>, g: nat)
    requires SelfMapped(m, root, used) && TablesStay(m, m', root, taken) && g !in used && g in taken
    ensures !IsTable(m', root, g)
  {
    FreeIsNoTable(m, root, used, g);
  }

  /** The directory in frame 9 and the eight tables behind the heap, in frames 10 to 17. */
  const HEAP_TABLES: Memory :=
    map[(9, 1023) := 9 * PAGE + 3, (9, 769) := 10 * PAGE + 3, (9, 770) := 11 * PAGE + 3, (9, 771) := 12 * PAGE + 3,
        (9, 772) := 13 * PAGE + 3, (9, 773) := 14 * PAGE + 3, (9, 774) := 15 * PAGE + 3, (9, 775) := 16 * PAGE + 3,
        (9, 776) := 17 * PAGE + 3]

  lemma HeapTable(d: nat)
    requires 769 <= d < 777 || d == 1023
    ensures HasTable(HEAP_TABLES, 9, d) && TableFrame(HEAP_TABLES, 9, d) == (if d == 1023 then 9 else d - 759)
  {
    var k := if d == 1023 then 9 else d - 759;
    assert Word(HEAP_TABLES, 9, d) == k * PAGE + 3;
    assert (k * PAGE + 3) / 128 == k * 32;
  }

  lemma NoOtherTable(d: nat)
    requires HasTable(HEAP_TABLES, 9, d)
    ensures 769 <= d < 777 || d == 1023
  {
  }

  /** With every frame taken and the tables in place, all `BackHeap` asks for holds, and it finds no frames: the
      heap would lie on physical address 0. */
  lemma HeapWithoutFrames(maxBlocks: nat, usedBlocks: nat)
    requires maxBlocks < FRAMES
    ensures var used := Range(0, FRAMES);
      && 0 in used && SelfMapped(HEAP_TABLES, 9, used) && PagesChoice(used, maxBlocks, usedBlocks, HEAP_PAGES) == 0
      && Roomy(HEAP_TABLES, 9, WithHeap(used, maxBlocks, usedBlocks), Scan(maxBlocks),
               DirIndex(HEAP_BEGIN), LastDir(HEAP_BEGIN, HEAP_PAGES), 0)
  {
    var used, f := Range(0, FRAMES), PagesChoice(Range(0, FRAMES), maxBlocks, usedBlocks, HEAP_PAGES);
    assert f == 0 by {
      hide PagesChoice;
      PagesChoiceIsFree(used, maxBlocks, usedBlocks, HEAP_PAGES);
      assert f in Range(f, HEAP_PAGES);
      assert Scan(maxBlocks) <= maxBlocks;
    }
    TablesInPlace(used);
    AllTablesThere(WithHeap(used, maxBlocks, usedBlocks), Scan(maxBlocks));
  }

  lemma TablesInPlace(used: set<nat>)
    requires used == Range(0, FRAMES)
    ensures SelfMapped(HEAP_TABLES, 9, used)
  {
    hide HasTable, TableFrame, HEAP_TABLES;
    HeapTable(1023);
    forall d: nat | d < ENTRIES && HasTable(HEAP_TABLES, 9, d) ensures TableFrame(HEAP_TABLES, 9, d) in used {
      NoOtherTable(d);
      HeapTable(d);
    }
    forall d: nat, e: nat | d < e < ENTRIES && HasTable(HEAP_TABLES, 9, d) && HasTable(HEAP_TABLES, 9, e)
      ensures TableFrame(HEAP_TABLES, 9, d) != TableFrame(HEAP_TABLES, 9, e)
    {
      NoOtherTable(d);
      NoOtherTable(e);
      HeapTable(d);
      HeapTable(e);
    }
  }

  lemma AllTablesThere(used: set<nat>, limit: nat)
    ensures Roomy(HEAP_TABLES, 9, used, limit, DirIndex(HEAP_BEGIN), LastDir(HEAP_BEGIN, HEAP_PAGES), 0)
  {
    assert DirIndex(HEAP_BEGIN) == 769 && LastDir(HEAP_BEGIN, HEAP_PAGES) == 777;
    forall d: nat | 769 <= d < 777 ensures Present(Word(HEAP_TABLES, 9, d)) && !Large(Word(HEAP_TABLES, 9, d)) {
      HeapTable(d);
    }
    assert Missing(HEAP_TABLES, 9, 769, 777) == {};
  }
}
