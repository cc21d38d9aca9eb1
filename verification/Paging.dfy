/** The kernel's page tables, edited through the directory's map of itself. */
module Paging {
  import opened Arith
  import opened FrameModel
  import opened FrameBitmap
  import opened PagingModel

  const RW: nat := 2
  const USER: nat := 4

  /** What asking for a page's table entry gives: the kernel's abort, no table, or the entry's address. */
  datatype EntryResult = Abort | Null | At(va: nat)

  class PageTables {
    var mem: Memory
    const root: nat
    const pmm: FrameAllocator

    constructor (memory: Memory, root: nat, pmm: FrameAllocator)
      ensures mem == memory && this.root == root && this.pmm == pmm
    {
      this.mem, this.root, this.pmm := memory, root, pmm;
    }

    ghost predicate Valid()
      reads this, pmm, pmm.bitmap
    {
      pmm.Valid() && SelfMapped(mem, root, pmm.Used())
    }

    function Translate(va: nat): Option<nat>
      reads this
    {
      Walk(mem, root, va)
    }

    /** Reads the word at a mapped virtual address. */
    function Load(va: nat): u32
      requires Translate(va).Some?
      reads this
    {
      var p := Translate(va).value;
      Word(mem, p / PAGE, p % PAGE / 4)
    }

    method Store(va: nat, word: u32)
      requires Translate(va).Some?
      modifies this`mem
      ensures mem == Put(old(mem), old(Translate(va)).value / PAGE, old(Translate(va)).value % PAGE / 4, word)
    {
      var p := Translate(va).value;
      mem := Put(mem, p / PAGE, p % PAGE / 4, word);
    }

    /** The word behind the address computed for a page's entry is that entry. */
    lemma EntryIsLoaded(virt: nat, used: set<nat>)
      requires SelfMapped(mem, root, used) && virt < WORD_LIMIT && HasTable(mem, root, DirIndex(virt))
      ensures Translate(EntryAddress(virt)).Some? && Load(EntryAddress(virt)) == EntryOf(mem, root, virt)
    {
      EntryIsSeen(mem, root, virt);
    }

    /** `*page = word`, through the address computed for the entry. */
    method WriteEntry(page: nat, word: u32, ghost virt: nat)
      requires Valid() && virt < WORD_LIMIT && page == EntryAddress(virt) && HasTable(mem, root, DirIndex(virt))
      modifies this`mem
      ensures mem == SetEntry(old(mem), root, virt, word)
    {
      EntryIsSeen(mem, root, virt);
      Store(page, word);
    }

    /** Clears the page at a mapped, page-aligned virtual address. */
    method ClearPage(va: nat)
      requires Translate(va).Some?
      modifies this`mem
      ensures mem == Zeroed(old(mem), old(Translate(va)).value / PAGE)
    {
      var p := Translate(va).value;
      mem := Zeroed(mem, p / PAGE);
    }

    /** A table has to be created for `virt`. */
    predicate NeedsTable(virt: nat, create: bool)
      reads this
    {
      create && !Present(Word(mem, root, DirIndex(virt)))
    }

    /** The frame the next single-page allocation takes, 0 when the scan finds none. */
    ghost function NextFrame(): nat
      reads pmm, pmm.bitmap
    {
      FirstRun(pmm.Used(), 1, pmm.Scanned(), 1)
    }

    /** The virtual address of the table entry for `virt`, creating the table if asked to. */
    method GetPage(virt: nat, create: bool, flags: nat) returns (r: EntryResult)
      requires Valid() && virt < WORD_LIMIT && !Large(flags)
      requires Present(Word(mem, root, DirIndex(virt))) ==> !Large(Word(mem, root, DirIndex(virt)))
      requires NeedsTable(virt, create) ==> NextFrame() != 0
      modifies this`mem, pmm`usedBlocks, pmm.bitmap
      ensures Valid()
      ensures r.Abort? <==> virt % PAGE != 0 || (old(NeedsTable(virt, create)) && old(pmm.usedBlocks) == pmm.maxBlocks)
      ensures r.Null? <==> virt % PAGE == 0 && !create && !Present(Word(old(mem), root, DirIndex(virt)))
      ensures r.At? ==> r.va == EntryAddress(virt) && HasTable(mem, root, DirIndex(virt))
      ensures forall x: nat :: x < WINDOW ==> Walk(mem, root, x) == Walk(old(mem), root, x)
      ensures forall d: nat :: d < ENTRIES && d != DirIndex(virt) ==> Word(mem, root, d) == Word(old(mem), root, d)
      ensures if r.At? && old(NeedsTable(virt, create)) then
          var f := old(NextFrame());
          && f < FRAMES && f !in old(pmm.Used()) && pmm.Used() == old(pmm.Used()) + {f}
              && pmm.usedBlocks == Wrap(old(pmm.usedBlocks) + 1)
          && mem == AddTable(old(mem), root, DirIndex(virt), f, flags)
        else
          mem == old(mem) && pmm.Used() == old(pmm.Used()) && pmm.usedBlocks == old(pmm.usedBlocks)
    {
      hide Taken, FirstRun, Large, TableEntry, Walk, Zeroed;
      if virt % PAGE != 0 {
        return Abort;
      }
      var dirIndex, tableIndex := DirIndex(virt), TableIndex(virt);
      var table := WINDOW + dirIndex * PAGE;
      DirectoryIsSeen(mem, root, dirIndex);
      if !Present(Load(DirAddress(dirIndex))) && create {
        ghost var m, f := mem, NextFrame();
        FirstRunIsLowest(pmm.Used(), 1, pmm.Scanned(), 1);
        var page := pmm.PmmAllocPage();
        if page.OutOfMemory? {
          return Abort;
        }
        var frame := page.addr / PAGE;
        assert frame == f;
        AddTableTranslates(m, root, old(pmm.Used()), dirIndex, frame, flags);
        TableEntryParts(frame, flags);
        TableEntryIsSmall(frame, flags);
        Store(DirAddress(dirIndex), TableEntry(frame, flags));
        TableIsSeen(mem, root, dirIndex);
        ClearPage(table);
        assert mem == AddTable(m, root, dirIndex, frame, flags);
      }
      DirectoryIsSeen(mem, root, dirIndex);
      if Present(Load(DirAddress(dirIndex))) {
        return At(table + 4 * tableIndex);
      }
      return Null;
    }

    /** Maps one page; false reports the kernel's abort. */
    method MapPage(virt: nat, phys: nat, flags: nat) returns (ok: bool)
      requires Valid() && virt < WINDOW && phys < WORD_LIMIT && phys % PAGE == 0 && !Large(flags)
      requires Editable(mem, root, pmm.Used(), DirIndex(virt), NextFrame())
      requires NeedsTable(virt, true) ==> NextFrame() != 0
      modifies this`mem, pmm`usedBlocks, pmm.bitmap
      ensures Valid()
      ensures ok <==> virt % PAGE == 0 && old(Translate(virt)).None?
                      && !(old(NeedsTable(virt, true)) && old(pmm.usedBlocks) == pmm.maxBlocks)
      ensures mem == if ok then MapEntry(old(mem), root, virt, FrameOf(phys), flags, old(NextFrame())) else old(mem)
      ensures pmm.Used() == if ok then old(pmm.Used()) + NewTables(old(mem), root, virt, old(NextFrame()))
          else old(pmm.Used())
      ensures pmm.usedBlocks == if ok && old(NeedsTable(virt, true)) then Wrap(old(pmm.usedBlocks) + 1)
          else old(pmm.usedBlocks)
    {
      MapEntryTranslates(mem, root, pmm.Used(), virt, FrameOf(phys), flags, NextFrame());
      hide Taken, FirstRun, Large, PageEntry, Walk, AddTable, SelfMapped, DirIndex, TableIndex, EntryAddress,
          SetEntry, Load;
      WalkSteps(mem, root, virt);
      ghost var mapped, made := Translate(virt).Some?, NeedsTable(virt, true);
      var page := GetPage(virt, true, flags);
      if page.Abort? {
        return false;
      }
      EntryIsLoaded(virt, pmm.Used());
      WalkSteps(mem, root, virt);
      assert Present(EntryOf(mem, root, virt)) == mapped;
      if Present(Load(page.va)) {
        return false;
      }
      WriteEntry(page.va, PageEntry(FrameOf(phys), flags), virt);
      ok := true;
    }

    /** Gives back the frame a page's entry names and clears the entry. */
    method DropEntry(page: nat, ghost virt: nat)
      requires Valid() && virt < WINDOW && page == EntryAddress(virt) && HasTable(mem, root, DirIndex(virt))
      modifies this`mem, pmm`usedBlocks, pmm.bitmap
      ensures mem == SetEntry(old(mem), root, virt, 0)
      ensures var f := FrameOf(EntryOf(old(mem), root, virt));
        && pmm.Used() == old(pmm.Used()) - {f} && pmm.usedBlocks == Wrap(old(pmm.usedBlocks) - 1)
        && (Valid() <==> f != 0 && !IsTable(old(mem), root, f))
    {
      hide Taken, Large, Walk, SelfMapped, IsTable, SetEntry, Load;
      EntryIsLoaded(virt, pmm.Used());
      FreeingFrame(mem, root, pmm.Used(), virt, FrameOf(EntryOf(mem, root, virt)));
      var frame := FrameOf(Load(page));
      WriteEntry(page, 0, virt);
      pmm.PmmFreePage(frame * PAGE);
    }

    /** Unmaps one page and gives its frame back; false reports the kernel's abort. The bitmap keeps bit 0 and
        the tables stay marked exactly when the entry names neither frame 0 nor a table. */
    method UnmapPage(virt: nat) returns (ok: bool)
      requires Valid() && virt < WINDOW
      requires Present(Word(mem, root, DirIndex(virt))) ==> !Large(Word(mem, root, DirIndex(virt)))
      modifies this`mem, pmm`usedBlocks, pmm.bitmap
      ensures ok <==> virt % PAGE == 0
      ensures if ok && HasTable(old(mem), root, DirIndex(virt)) then
          var f := FrameOf(EntryOf(old(mem), root, virt));
          && mem == SetEntry(old(mem), root, virt, 0)
          && pmm.Used() == old(pmm.Used()) - {f} && pmm.usedBlocks == Wrap(old(pmm.usedBlocks) - 1)
          && (Valid() <==> f != 0 && !IsTable(old(mem), root, f))
        else
          mem == old(mem) && pmm.Used() == old(pmm.Used()) && pmm.usedBlocks == old(pmm.usedBlocks) && Valid()
    {
      assert !Large(0);
      hide Taken, FirstRun, Large, Walk, SelfMapped, IsTable, DirIndex, TableIndex, EntryAddress, SetEntry,
          Load, AddTable;
      var page := GetPage(virt, false, 0);
      if page.Abort? {
        return false;
      }
      ok := true;
      if page.At? {
        DropEntry(page.va, virt);
      }
    }

    /** The tables and the bitmap as the model has them. */
    lemma Reads(va: nat)
      ensures Translate(va) == Walk(mem, root, va)
      ensures NeedsTable(va, true) <==> !Present(Word(mem, root, DirIndex(va)))
      ensures NextFrame() == FirstRun(pmm.Used(), 1, pmm.Scanned(), 1)
      ensures Valid() ==> SelfMapped(mem, root, pmm.Used())
    {
    }

    /** One round of mapping a range. */
    method MapNext(virt: nat, phys: nat, i: nat, flags: nat, ghost job: Job) returns (ok: bool)
      requires Valid() && job.InBounds() && i < job.num
      requires job.root == root && job.limit == pmm.Scanned() && job.max == pmm.maxBlocks
      requires job.virt == virt && job.phys == phys && job.flags == flags
      requires job.Progress(mem, pmm.Used(), pmm.usedBlocks, i)
      modifies this`mem, pmm`usedBlocks, pmm.bitmap
      ensures Valid() && (ok <==> job.CanMap(old(mem), old(pmm.usedBlocks), i))
      ensures job.Progress(mem, pmm.Used(), pmm.usedBlocks, if ok then i + 1 else i)
    {
      hide *;
      Reads(PageAt(virt, i));
      ProgressReady(job, mem, pmm.Used(), pmm.usedBlocks, i);
      if job.CanMap(mem, pmm.usedBlocks, i) { ProgressStep(job, mem, pmm.Used(), pmm.usedBlocks, i); }
      ok := MapPage(PageAt(virt, i), PageAt(phys, i), flags);
    }

    /** Maps `num` contiguous pages; false reports the kernel's abort. */
    method MapPages(virt: nat, phys: nat, num: nat, flags: nat) returns (ok: bool)
      requires Valid() && virt + num * PAGE <= WINDOW && phys + num * PAGE <= WORD_LIMIT && phys % PAGE == 0
          && !Large(flags)
      requires Roomy(mem, root, pmm.Used(), pmm.Scanned(), DirIndex(virt), LastDir(virt, num), 0)
      modifies this`mem, pmm`usedBlocks, pmm.bitmap
      ensures Valid()
      ensures ok <==>
        num == 0
        || (virt % PAGE == 0 && Unmapped(old(mem), root, virt, num)
            && |Missing(old(mem), root, DirIndex(virt), LastDir(virt, num))|
               <= Wrap(pmm.maxBlocks - old(pmm.usedBlocks)))
      ensures ok ==> Unmapped(old(mem), root, virt, num) && (num > 0 ==> virt % PAGE == 0)
      ensures ok ==> MapsTo(mem, root, virt, phys, num) && SameOutside(old(mem), mem, root, virt, num)
      ensures ok ==> forall j: nat, b: nat {:trigger BitOf(EntryOf(mem, root, PageAt(virt, j)), b)} ::
                j < num && b < 12 ==> (BitOf(EntryOf(mem, root, PageAt(virt, j)), b) <==> b == 0 || BitOf(flags, b))
      ensures ok ==> forall d: nat, b: nat {:trigger BitOf(Word(mem, root, d), b)} ::
                DirIndex(virt) <= d < LastDir(virt, num) && b < 12 && !Present(Word(old(mem), root, d)) ==>
                (BitOf(Word(mem, root, d), b) <==> b < 2 || BitOf(flags, b))
      ensures ok ==> forall d: nat ::
                d < ENTRIES && Present(Word(old(mem), root, d)) ==> Word(mem, root, d) == Word(old(mem), root, d)
      ensures var made := |Missing(old(mem), root, DirIndex(virt), LastDir(virt, num))|;
        ok ==> pmm.usedBlocks == Wrap(old(pmm.usedBlocks) + made)
      ensures old(pmm.Used()) <= pmm.Used() && TablesStay(old(mem), mem, root, old(pmm.Used()))
      ensures NewAreTables(mem, root, old(pmm.Used()), pmm.Used())
      ensures Roomy(mem, root, pmm.Used(), pmm.Scanned(), DirIndex(virt), LastDir(virt, num), 0)
    {
      ghost var job := Job(mem, root, pmm.Used(), pmm.Scanned(), pmm.usedBlocks, pmm.maxBlocks, virt, phys, num, flags);
      ProgressStarts(job);
      assert job.InBounds();
      hide *;
      var i := 0;
      while i < num
        invariant i <= num && Valid() && job.Progress(mem, pmm.Used(), pmm.usedBlocks, i)
      {
        ghost var m1, used1, blocks1 := mem, pmm.Used(), pmm.usedBlocks;
        ok := MapNext(virt, phys, i, flags, job);
        if !ok {
          ProgressStops(job, m1, used1, blocks1, i);
          ProgressKeeps(job, mem, pmm.Used(), pmm.usedBlocks, i);
          return;
        }
        i := i + 1;
      }
      ProgressKeeps(job, mem, pmm.Used(), pmm.usedBlocks, num);
      ProgressEnds(job, mem, pmm.Used(), pmm.usedBlocks);
      MappingEnds(job.m, mem, root, virt, phys, flags, num);
      ok := true;
    }

    /** One round of unmapping a range. */
    method UnmapNext(virt: nat, i: nat, ghost num: nat, ghost m: Memory, ghost used: set<nat>) returns (ok: bool)
      requires Valid() && virt + num * PAGE <= WINDOW && virt % PAGE == 0 && i < num
      requires Releasing(m, mem, root, virt, i, num) && pmm.Used() == used - FramesBehind(m, root, virt, i)
      modifies this`mem, pmm`usedBlocks, pmm.bitmap
      ensures ok && Valid() && Releasing(m, mem, root, virt, i + 1, num)
      ensures pmm.Used() == used - FramesBehind(m, root, virt, i + 1)
    {
      hide PageAt, FramesBehind, DirIndex, Present, FrameOf, EntryOf, HasTable, Releasing, SetEntry, SelfMapped, Walk,
          IsTable, ReleasablePage, FrameAllocator.Used, FrameAllocator.Valid;
      ReleaseStep(m, mem, root, pmm.Used(), virt, i, num);
      ReleasableMeans(mem, root, PageAt(virt, i));
      OneLess(used, pmm.Used(), FramesBehind(m, root, virt, i), FrameOf(EntryOf(mem, root, PageAt(virt, i))));
      ok := UnmapPage(PageAt(virt, i));
    }

    /** Unmaps `num` mapped pages and gives back exactly the frames behind them. */
    method UnmapPages(virt: nat, num: nat) returns (ok: bool)
      requires Valid() && virt + num * PAGE <= WINDOW && (num > 0 ==> virt % PAGE == 0)
      requires forall j: nat :: j < num ==> ReleasablePage(mem, root, PageAt(virt, j))
      modifies this`mem, pmm`usedBlocks, pmm.bitmap
      ensures ok && Valid()
      ensures Unmapped(mem, root, virt, num) && SameOutside(old(mem), mem, root, virt, num)
      ensures pmm.Used() == old(pmm.Used()) - FramesBehind(old(mem), root, virt, num)
      ensures SameTableSet(old(mem), mem, root)
    {
      hide *;
      ghost var m := mem;
      ok := true;
      var i := 0;
      ReleaseStarts(mem, root, virt, num);
      while i < num
        invariant i <= num && ok && Valid() && Releasing(m, mem, root, virt, i, num)
        invariant pmm.Used() == old(pmm.Used()) - FramesBehind(m, root, virt, i)
      {
        ok := UnmapNext(virt, i, num, m, old(pmm.Used()));
        i := i + 1;
      }
      ReleasedMeans(m, mem, root, virt, num);
    }

    /** Maps unmapped pages onto frames in use elsewhere and unmaps them again. When the mapping goes through,
        every translation below the window is what it was, exactly the mapped frames are free, and every frame
        taken on the way is a table. */
    method MapThenUnmap(virt: nat, phys: nat, num: nat, flags: nat) returns (ok: bool)
      requires Valid() && virt + num * PAGE <= WINDOW && phys + num * PAGE <= WORD_LIMIT && phys % PAGE == 0
      requires !Large(flags)
      requires Roomy(mem, root, pmm.Used(), pmm.Scanned(), DirIndex(virt), LastDir(virt, num), 0)
      requires forall f :: f in Range(FrameOf(phys), num) ==> f in pmm.Used() && f != 0 && !IsTable(mem, root, f)
      modifies this`mem, pmm`usedBlocks, pmm.bitmap
      ensures Valid()
      ensures ok <==>
        num == 0
        || (virt % PAGE == 0 && Unmapped(old(mem), root, virt, num)
            && |Missing(old(mem), root, DirIndex(virt), LastDir(virt, num))|
               <= Wrap(pmm.maxBlocks - old(pmm.usedBlocks)))
      ensures ok ==> forall x: nat :: x < WINDOW ==> Walk(mem, root, x) == Walk(old(mem), root, x)
      ensures ok ==> old(pmm.Used()) - pmm.Used() == Range(FrameOf(phys), num)
      ensures ok ==> NewAreTables(mem, root, old(pmm.Used()), pmm.Used())
    {
      hide Taken, FirstRun, Large, Walk, SelfMapped, Roomy, DirIndex, LastDir, Range, MapsTo, Unmapped, SameOutside;
      hide FramesBehind, IsTable, ReleasablePage, FrameOf, PageAt;
      ghost var m0, used0 := mem, pmm.Used();
      ok := MapPages(virt, phys, num, flags);
      if !ok {
        return;
      }
      ghost var m1, used1 := mem, pmm.Used();
      forall j: nat | j < num ensures ReleasablePage(m1, root, PageAt(virt, j)) {
        MappedIsReleasable(m1, root, used1, pmm.Scanned(), virt, phys, num, j);
      }
      FramesBehindMapping(m1, root, virt, phys, num);
      ok := UnmapPages(virt, num);
      MapThenUnmapRestores(m0, m1, mem, root, virt, phys, num);
    }

    /** Gets a page's entry and writes it, whatever it held: the second half of `paging_alloc_pages`' loop. */
    method PlacePage(virt: nat, frame: nat, flags: nat) returns (ok: bool)
      requires Valid() && virt < WINDOW && frame < FRAMES && !Large(flags)
      requires Editable(mem, root, pmm.Used(), DirIndex(virt), NextFrame())
      requires NeedsTable(virt, true) ==> NextFrame() != 0
      modifies this`mem, pmm`usedBlocks, pmm.bitmap
      ensures Valid()
      ensures ok <==> virt % PAGE == 0 && !(old(NeedsTable(virt, true)) && old(pmm.usedBlocks) == pmm.maxBlocks)
      ensures pmm.usedBlocks == if ok && old(NeedsTable(virt, true)) then Wrap(old(pmm.usedBlocks) + 1)
          else old(pmm.usedBlocks)
      ensures mem == if ok then MapEntry(old(mem), root, virt, frame, flags, old(NextFrame())) else old(mem)
      ensures pmm.Used() == if ok then old(pmm.Used()) + NewTables(old(mem), root, virt, old(NextFrame()))
          else old(pmm.Used())
    {
      MapEntryTranslates(mem, root, pmm.Used(), virt, frame, flags, NextFrame());
      hide Taken, FirstRun, Large, PageEntry, Walk, AddTable, SelfMapped, DirIndex, TableIndex, EntryAddress,
          SetEntry, Load;
      var page := GetPage(virt, true, flags);
      if page.Abort? {
        return false;
      }
      WriteEntry(page.va, PageEntry(frame, flags), virt);
      ok := true;
    }

    /** A fresh frame for a page; frame 0 stands for none. */
    method TakeFrame() returns (ok: bool, frame: nat)
      requires Valid()
      modifies pmm`usedBlocks, pmm.bitmap
      ensures Valid() && (ok <==> old(pmm.usedBlocks) != pmm.maxBlocks) && frame == if ok then old(NextFrame()) else 0
      ensures if frame == 0 then pmm.Used() == old(pmm.Used()) && pmm.usedBlocks == old(pmm.usedBlocks)
        else
          && pmm.Used() == old(pmm.Used()) + {frame} && pmm.usedBlocks == Wrap(old(pmm.usedBlocks) + 1)
          && frame < FRAMES && frame !in old(pmm.Used())
    {
      hide Taken, FirstRun, SelfMapped, IsTable, Wrap;
      if NextFrame() != 0 { FreshFrame(mem, root, pmm.Used(), pmm.Scanned()); }
      var page := pmm.PmmAllocPage();
      if page.OutOfMemory? {
        return false, 0;
      }
      return true, page.addr / PAGE;
    }

    /** The frame just taken goes behind its page. */
    method PlaceFresh(virt: nat, frame: nat, ghost used: set<nat>, ghost lo: nat, ghost hi: nat, ghost extra: nat)
      returns (ok: bool)
      requires Valid() && virt < WINDOW && lo <= DirIndex(virt) < hi <= ENTRIES
      requires Roomy(mem, root, pmm.Used(), pmm.Scanned(), lo, hi, extra) && pmm.Used() == used + {frame}
      requires frame == FirstRun(used, 1, pmm.Scanned(), 1) && 0 < frame < FRAMES && frame !in used
      modifies this`mem, pmm`usedBlocks, pmm.bitmap
      ensures Valid()
      ensures ok <==> virt % PAGE == 0 && !(old(NeedsTable(virt, true)) && old(pmm.usedBlocks) == pmm.maxBlocks)
      ensures pmm.usedBlocks == if ok && old(NeedsTable(virt, true)) then Wrap(old(pmm.usedBlocks) + 1)
          else old(pmm.usedBlocks)
      ensures ok ==> BackedOne(old(mem), used, mem, pmm.Used(), root, pmm.Scanned(), virt, frame, RW + USER)
    {
      assert !Large(RW + USER) && pmm.Scanned() <= FRAMES;
      hide *;
      Reads(virt);
      RoomForTable(mem, root, pmm.Used(), pmm.Scanned(), lo, hi, extra, DirIndex(virt));
      ghost var m, g := mem, NextFrame();
      ok := PlacePage(virt, frame, RW + USER);
      if ok {
        BackedOneIs(m, used, mem, pmm.Used(), root, pmm.Scanned(), virt, frame, RW + USER, g);
      }
    }

    /** One round of `paging_alloc_pages`: a fresh frame goes behind page `virt`. */
    method AllocOne(virt: nat, ghost lo: nat, ghost hi: nat, ghost extra: nat) returns (r: EntryResult, frame: nat)
      requires Valid() && virt < WINDOW && lo <= DirIndex(virt) < hi <= ENTRIES && extra > 0
      requires Roomy(mem, root, pmm.Used(), pmm.Scanned(), lo, hi, extra)
      modifies this`mem, pmm`usedBlocks, pmm.bitmap
      ensures r.Null? <==> old(pmm.usedBlocks) != pmm.maxBlocks && old(NextFrame()) == 0
      ensures r.Abort? <==>
        old(pmm.usedBlocks) == pmm.maxBlocks
        || (old(NextFrame()) != 0
            && (virt % PAGE != 0
                || (old(NeedsTable(virt, true)) && Wrap(old(pmm.usedBlocks) + 1) == pmm.maxBlocks)))
      ensures r.At? ==> r.va == virt
      ensures r.At? && old(NeedsTable(virt, true)) ==> pmm.usedBlocks == Wrap(old(pmm.usedBlocks) + 2)
      ensures r.At? && !old(NeedsTable(virt, true)) ==> pmm.usedBlocks == Wrap(old(pmm.usedBlocks) + 1)
      ensures r.Null? ==> pmm.usedBlocks == old(pmm.usedBlocks)
      ensures !r.Abort? ==> Valid()
      ensures r.Null? ==> mem == old(mem) && pmm.Used() == old(pmm.Used())
      ensures r.At? ==>
        BackedOne(old(mem), old(pmm.Used()), mem, pmm.Used(), root, pmm.Scanned(), virt, frame, RW + USER)
    {
      hide *;
      ghost var used := pmm.Used();
      Reads(virt);
      var got;
      got, frame := TakeFrame();
      if !got {
        return Abort, 0;
      }
      if frame == 0 {
        return Null, 0;
      }
      RoomAfterTake(mem, root, used, pmm.Scanned(), lo, hi, extra);
      Reads(virt);
      WrapTwice(old(pmm.usedBlocks));
      var ok := PlaceFresh(virt, frame, used, lo, hi, extra - 1);
      r := if ok then At(virt) else Abort;
    }

    /** One round of backing a range. */
    method BackNext(virt: nat, ghost frames: seq<nat>, ghost fill: Fill) returns (r: EntryResult, ghost now: seq<nat>)
      requires Valid() && fill.InBounds() && |frames| < fill.size
      requires fill.root == root && fill.limit == pmm.Scanned() && fill.max == pmm.maxBlocks && fill.flags == RW + USER
      requires virt == PageAt(fill.virt, |frames|) && fill.Progress(mem, pmm.Used(), pmm.usedBlocks, frames)
      modifies this`mem, pmm`usedBlocks, pmm.bitmap
      ensures !r.Abort? ==> Valid() && fill.Progress(mem, pmm.Used(), pmm.usedBlocks, now)
      ensures r.At? ==> |now| == |frames| + 1
      ensures !r.At? ==> now == frames
      ensures r.Abort? ==> fill.Aborts() && !fill.RunsOut()
      ensures r.Null? ==> fill.RunsOut() && !fill.Aborts() && NextFrame() == 0
    {
      hide *;
      Reads(virt);
      ghost var m1, used1, blocks1 := mem, pmm.Used(), pmm.usedBlocks;
      FillReady(fill, m1, used1, blocks1, frames);
      FillStops(fill, m1, used1, blocks1, frames);
      FillParts(fill, m1, used1, blocks1, frames);
      now := frames;
      var frame;
      r, frame := AllocOne(virt, DirIndex(fill.virt), LastDir(fill.virt, fill.size), fill.size - |frames|);
      if r.At? {
        BackedOneMeans(m1, used1, mem, pmm.Used(), root, pmm.Scanned(), virt, frame, RW + USER);
        FillStep(fill, m1, used1, blocks1, frames);
        now := frames + [frame];
      } else {
        Reads(virt);
      }
    }

    /** Backs `size` pages with fresh frames: the abort, NULL when the scan finds no more frames, or `virt`. */
    method AllocPages(virt: nat, size: nat) returns (r: EntryResult, ghost frames: seq<nat>)
      requires Valid() && virt + size * PAGE <= WINDOW
      requires Roomy(mem, root, pmm.Used(), pmm.Scanned(), DirIndex(virt), LastDir(virt, size), size)
      modifies this`mem, pmm`usedBlocks, pmm.bitmap
      ensures var left, free := Wrap(pmm.maxBlocks - old(pmm.usedBlocks)), |FreeFrames(old(pmm.Used()), pmm.Scanned())|;
        var needed := size + |Missing(old(mem), root, DirIndex(virt), LastDir(virt, size))|;
        && (r.Abort? <==> size > 0 && if virt % PAGE == 0 then left < needed && left <= free else left == 0 || free > 0)
        && (r.Null? <==> size > 0 && if virt % PAGE == 0 then free < needed && free < left else left > 0 && free == 0)
      ensures r.Abort? || Valid()
      ensures r.At? ==> r.va == virt && |frames| == size
      ensures r.Null? ==> |frames| < size && FirstRun(pmm.Used(), 1, pmm.Scanned(), 1) == 0
      ensures !r.Abort? ==> Backed(mem, root, virt, frames, old(pmm.Used()), pmm.Used())
      ensures !r.Abort? ==> SameOutside(old(mem), mem, root, virt, |frames|)
      ensures !r.Abort? ==> forall j: nat, b: nat {:trigger BitOf(EntryOf(mem, root, PageAt(virt, j)), b)} ::
                j < |frames| && b < 12 ==> (BitOf(EntryOf(mem, root, PageAt(virt, j)), b) <==> b < 3)
    {
      assert !Large(RW + USER);
      ghost var fill := Fill(mem, root, pmm.Used(), pmm.Scanned(), pmm.usedBlocks, pmm.maxBlocks,
                             virt, size, RW + USER);
      frames := [];
      FillStarts(fill);
      FillMeans(fill);
      assert fill.InBounds();
      hide *;
      var i := 0;
      while i < size
        invariant i <= size && |frames| == i && Valid() && fill.Progress(mem, pmm.Used(), pmm.usedBlocks, frames)
      {
        var page;
        page, frames := BackNext(PageAt(virt, i), frames, fill);
        if !page.At? {
          if page.Null? {
            Reads(virt);
            FillLeaves(fill, mem, pmm.Used(), pmm.usedBlocks, frames);
          }
          return page, frames;
        }
        i := i + 1;
      }
      FillEnds(fill, mem, pmm.Used(), pmm.usedBlocks, frames);
      FillLeaves(fill, mem, pmm.Used(), pmm.usedBlocks, frames);
      return At(virt), frames;
    }

    /** The physical address of `virt`. Where there is a table, the result is the entry's frame bits with the offset,
        present or not: for an unmapped address it is 0 only when there is no table, or the entry is clear of frame
        bits and `virt` starts a page. */
    method VirtToPhys(virt: nat) returns (r: nat)
      requires Valid() && virt < WORD_LIMIT
      requires Present(Word(mem, root, DirIndex(virt))) ==> !Large(Word(mem, root, DirIndex(virt)))
      modifies this`mem, pmm`usedBlocks, pmm.bitmap
      ensures mem == old(mem) && pmm.Used() == old(pmm.Used()) && Valid()
      ensures Translate(virt).Some? ==> r == Translate(virt).value
      ensures Present(Word(mem, root, DirIndex(virt))) ==> r == FrameOf(EntryOf(mem, root, virt)) * PAGE + virt % PAGE
      ensures Translate(virt).None? ==>
        (r == 0 <==>
         !Present(Word(mem, root, DirIndex(virt))) || (FrameOf(EntryOf(mem, root, virt)) == 0 && virt % PAGE == 0))
    {
      assert !Large(0);
      var start := virt / PAGE * PAGE;
      SamePage(start, virt);
      WalkSteps(mem, root, virt);
      hide Taken, FirstRun, Large, Walk, SelfMapped, DirIndex, TableIndex, EntryAddress, Load, AddTable;
      var page := GetPage(start, false, 0);
      if page.Null? {
        return 0;
      }
      EntryIsLoaded(start, pmm.Used());
      r := FrameOf(Load(page.va)) * PAGE + virt % PAGE;
    }
  }
}
