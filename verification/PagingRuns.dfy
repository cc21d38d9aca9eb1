/** Runs that take frames, map them, unmap them and give them back, in any order. */
module PagingRuns {
  import opened Arith
  import opened FrameModel
  import opened FrameBitmap
  import opened PagingModel
  import opened Paging

  /** A client takes one frame, gives one back it holds, maps one it holds at a page, or unmaps a page it mapped,
      which gives the frame back. Pages go by number. */
  datatype Call = Take | Give(frame: nat) | MapCall(page: nat, frame: nat, flags: nat) | UnmapCall(page: nat)

  /** `held` are the frames taken and not mapped, `mapped` the pages mapped and the frame behind each. */
  datatype World = World(m: Memory, used: set<nat>, usedBlocks: nat, held: set<nat>, mapped: map<nat, nat>)

  /** What does not change: the directory's frame and the size of memory in frames. */
  datatype Machine = Machine(root: nat, maxBlocks: nat)

  ghost function NextFree(c: Machine, used: set<nat>): nat { FirstRun(used, 1, Scan(c.maxBlocks), 1) }

  predicate NeedsTable(c: Machine, m: Memory, page: nat) { !Present(Word(m, c.root, DirIndex(page * PAGE))) }

  /** A page below the recursive window that lies in no large page; if it needs a table, a frame is free for it. */
  ghost predicate Mappable(c: Machine, w: World, page: nat) {
    && page * PAGE < WINDOW
    && if NeedsTable(c, w.m, page) then NextFree(c, w.used) != 0
       else !Large(Word(w.m, c.root, DirIndex(page * PAGE)))
  }

  ghost predicate Legal(c: Machine, w: World, call: Call) {
    match call
    case Take => true
    case Give(f) => f in w.held
    case MapCall(page, f, flags) => f in w.held && !Large(flags) && Mappable(c, w, page)
    case UnmapCall(page) => page in w.mapped
  }

  /** Where the kernel aborts nothing has changed. */
  ghost function Step(c: Machine, w: World, call: Call): World
    requires Legal(c, w, call) && c.maxBlocks < FRAMES && forall f :: f in w.held ==> f < FRAMES
  {
    var g := NextFree(c, w.used);
    match call
    case Take =>
      if w.usedBlocks == c.maxBlocks || g == 0 then w
      else w.(used := w.used + {g}, usedBlocks := Wrap(w.usedBlocks + 1), held := w.held + {g})
    case Give(f) =>
      w.(used := w.used - {f}, usedBlocks := Wrap(w.usedBlocks - 1), held := w.held - {f})
    case MapCall(page, f, flags) =>
      var va, new_ := page * PAGE, NeedsTable(c, w.m, page);
      if Walk(w.m, c.root, va).Some? || (new_ && w.usedBlocks == c.maxBlocks) then w
      else
        assert new_ ==> g < FRAMES by { if new_ { FirstRunIsLowest(w.used, 1, Scan(c.maxBlocks), 1); } }
        World(MapEntry(w.m, c.root, va, f, flags, g), w.used + NewTables(w.m, c.root, va, g),
              if new_ then Wrap(w.usedBlocks + 1) else w.usedBlocks, w.held - {f}, w.mapped[page := f])
    case UnmapCall(page) =>
      World(SetEntry(w.m, c.root, page * PAGE, 0), w.used - {w.mapped[page]}, Wrap(w.usedBlocks - 1), w.held,
            w.mapped - {page})
  }

  // ----- the invariant

  /** The page shows frame `f`, through a table. */
  ghost predicate Shows(m: Memory, root: nat, page: nat, f: nat) {
    && page * PAGE < WINDOW && HasTable(m, root, DirIndex(page * PAGE))
    && forall x: nat :: x / PAGE == page ==> Walk(m, root, x) == Some(f * PAGE + x % PAGE)
  }

  /** Frame `f` is the client's alone: taken since the start, and no table. */
  ghost predicate Client(c: Machine, w: World, base: set<nat>, f: nat) {
    f < FRAMES && f in w.used && f !in base && !IsTable(w.m, c.root, f)
  }

  /** Every frame taken since the start is held, behind a page, or a table. */
  ghost predicate Accounted(c: Machine, w: World, base: set<nat>) {
    forall f :: f in w.used && f !in base && f !in w.held && f !in w.mapped.Values ==> IsTable(w.m, c.root, f)
  }

  /** Every page the client has not mapped is translated as in `m0`. */
  ghost predicate RestAsBefore(c: Machine, w: World, m0: Memory) {
    forall x: nat :: x < WINDOW && x / PAGE !in w.mapped ==> Walk(w.m, c.root, x) == Walk(m0, c.root, x)
  }

  /** A page shows its own frame, which is the client's and shown by no other page and not held besides. */
  ghost predicate PageIsOwn(c: Machine, w: World, base: set<nat>, page: nat)
    requires page in w.mapped
  {
    && Shows(w.m, c.root, page, w.mapped[page]) && Client(c, w, base, w.mapped[page])
    && w.mapped[page] !in w.held
    && forall p :: p in w.mapped && p != page ==> w.mapped[p] != w.mapped[page]
  }

  /** Where the client has mapped, nothing was mapped in `m0`. */
  ghost predicate WasUnmapped(c: Machine, w: World, m0: Memory) {
    forall x: nat :: x < WINDOW && x / PAGE in w.mapped ==> Walk(m0, c.root, x) == None
  }

  ghost predicate Inv(c: Machine, w: World, m0: Memory, base: set<nat>) {
    && SelfMapped(w.m, c.root, w.used) && 0 in base && base <= w.used && c.maxBlocks < FRAMES
    && (forall f :: f in w.held ==> Client(c, w, base, f))
    && (forall p :: p in w.mapped ==> PageIsOwn(c, w, base, p))
    && RestAsBefore(c, w, m0) && WasUnmapped(c, w, m0) && Accounted(c, w, base)
  }

  // ----- what every call keeps

  lemma PageStarts(page: nat)
    ensures page * PAGE / PAGE == page && page * PAGE % PAGE == 0
  {
  }

  lemma PageBelowWindow(x: nat, page: nat)
    requires page * PAGE < WINDOW && x / PAGE == page
    ensures x < WINDOW
  {
  }

  lemma TakeKeeps(c: Machine, w: World, m0: Memory, base: set<nat>)
    requires Inv(c, w, m0, base)
    ensures Inv(c, Step(c, w, Take), m0, base)
  {
    hide Walk, HasTable, FirstRun, SelfMapped, IsTable, Shows;
    var g := NextFree(c, w.used);
    if g != 0 {
      FreshFrame(w.m, c.root, w.used, Scan(c.maxBlocks));
      var w' := Step(c, w, Take);
      forall p | p in w'.mapped ensures PageIsOwn(c, w', base, p) { assert PageIsOwn(c, w, base, p); }
    }
  }

  lemma LessOne(m: Memory, root: nat, used: set<nat>, f: nat)
    requires SelfMapped(m, root, used) && !IsTable(m, root, f)
    ensures SelfMapped(m, root, used - {f})
  {
  }

  lemma GiveKeeps(c: Machine, w: World, m0: Memory, base: set<nat>, f: nat)
    requires Inv(c, w, m0, base) && f in w.held
    ensures Inv(c, Step(c, w, Give(f)), m0, base)
  {
    hide Walk, HasTable, FirstRun, SelfMapped, IsTable, Shows;
    assert Client(c, w, base, f);
    LessOne(w.m, c.root, w.used, f);
    var w' := Step(c, w, Give(f));
    forall p | p in w'.mapped ensures PageIsOwn(c, w', base, p) { assert PageIsOwn(c, w, base, p); }
  }

  /** A frame for the table is there when one is needed. */
  lemma CanEdit(c: Machine, w: World, page: nat)
    requires Mappable(c, w, page) && c.maxBlocks < FRAMES
    ensures Editable(w.m, c.root, w.used, DirIndex(page * PAGE), NextFree(c, w.used))
    ensures NeedsTable(c, w.m, page) ==> NextFree(c, w.used) < FRAMES
  {
    var g := NextFree(c, w.used);
    if NeedsTable(c, w.m, page) {
      FirstRunIsLowest(w.used, 1, Scan(c.maxBlocks), 1);
      assert FreeRun(w.used, g, 1);
    }
  }

  /** What mapping a page and a table for it on the way leaves of another page. */
  lemma ShowsStill(m: Memory, m': Memory, root: nat, page: nat, p: nat, f: nat)
    requires Shows(m, root, p, f) && p != page && SameElsewhere(m, m', root, page)
    requires HasTable(m', root, DirIndex(p * PAGE))
    ensures Shows(m', root, p, f)
  {
    hide Walk, HasTable;
    forall x: nat | x / PAGE == p ensures Walk(m', root, x) == Some(f * PAGE + x % PAGE) {
      PageBelowWindow(x, p);
      assert Walk(m, root, x) == Some(f * PAGE + x % PAGE);
    }
  }

  /** No table goes away. */
  ghost predicate KeepsTables(m: Memory, m': Memory, root: nat) {
    forall d: nat :: d < ENTRIES && HasTable(m, root, d) ==> HasTable(m', root, d)
  }

  lemma MapFacts(m: Memory, root: nat, used: set<nat>, page: nat, f: nat, flags: nat, g: nat)
    requires SelfMapped(m, root, used) && page * PAGE < WINDOW && f < FRAMES && !Large(flags)
    requires Editable(m, root, used, DirIndex(page * PAGE), g)
    ensures var m', used' := MapEntry(m, root, page * PAGE, f, flags, g), used + NewTables(m, root, page * PAGE, g);
      && SelfMapped(m', root, used') && SameElsewhere(m, m', root, page) && Shows(m', root, page, f)
      && TablesStay(m, m', root, used) && NewAreTables(m', root, used, used') && KeepsTables(m, m', root)
  {
    hide Walk, SelfMapped, MapEntry, Large, HasTable, IsTable, SameElsewhere, TablesStay, NewAreTables;
    PageStarts(page);
    MapEntryTranslates(m, root, used, page * PAGE, f, flags, g);
    MapEntryTables(m, root, used, page * PAGE, f, flags, g);
    var m' := MapEntry(m, root, page * PAGE, f, flags, g);
    forall d: nat | d < ENTRIES && HasTable(m, root, d) ensures HasTable(m', root, d) {
      if d != DirIndex(page * PAGE) { SameWordSameTable(m, m', root, d); }
    }
  }

  lemma SameWordSameTable(m: Memory, m': Memory, root: nat, d: nat)
    requires Word(m', root, d) == Word(m, root, d)
    ensures HasTable(m', root, d) == HasTable(m, root, d)
  {
  }

  /** A page the client has mapped is mapped. */
  lemma MappedIsMapped(c: Machine, w: World, base: set<nat>, page: nat)
    requires page in w.mapped && PageIsOwn(c, w, base, page)
    ensures Walk(w.m, c.root, page * PAGE).Some?
  {
    PageStarts(page);
  }

  /** The frames and tables part of mapping a page. */
  lemma MapKeepsFrames(c: Machine, w: World, w': World, m0: Memory, base: set<nat>, page: nat, f: nat)
    requires Inv(c, w, m0, base) && f in w.held && page !in w.mapped
    requires w'.held == w.held - {f} && w'.mapped == w.mapped[page := f] && w.used <= w'.used
    requires SelfMapped(w'.m, c.root, w'.used)
    requires TablesStay(w.m, w'.m, c.root, w.used) && NewAreTables(w'.m, c.root, w.used, w'.used)
    ensures forall h :: h in w'.held ==> Client(c, w', base, h)
    ensures forall p :: p in w'.mapped ==> Client(c, w', base, w'.mapped[p])
    ensures Accounted(c, w', base)
  {
    hide Walk, HasTable, SelfMapped, IsTable, Shows, RestAsBefore, WasUnmapped;
    assert f == w'.mapped[page];
    forall p | p in w'.mapped ensures Client(c, w', base, w'.mapped[p]) {
      if p != page { assert PageIsOwn(c, w, base, p); }
    }
    forall p | p in w.mapped ensures w.mapped[p] in w'.mapped.Values { assert w'.mapped[p] == w.mapped[p]; }
  }

  lemma MapKeepsPages(c: Machine, w: World, w': World, m0: Memory, base: set<nat>, page: nat, f: nat)
    requires Inv(c, w, m0, base) && f in w.held && page !in w.mapped
    requires w'.held == w.held - {f} && w'.mapped == w.mapped[page := f]
    requires forall p :: p in w'.mapped ==> Client(c, w', base, w'.mapped[p])
    requires SameElsewhere(w.m, w'.m, c.root, page) && Shows(w'.m, c.root, page, f)
    requires KeepsTables(w.m, w'.m, c.root)
    ensures forall p :: p in w'.mapped ==> PageIsOwn(c, w', base, p)
  {
    hide Walk, HasTable, SelfMapped, IsTable, RestAsBefore, WasUnmapped, Client, SameElsewhere, Accounted;
    forall p | p in w'.mapped ensures PageIsOwn(c, w', base, p) {
      forall q | q in w.mapped ensures w.mapped[q] != f { assert PageIsOwn(c, w, base, q); }
      if p != page {
        assert PageIsOwn(c, w, base, p);
        ShowsStill(w.m, w'.m, c.root, page, p, w.mapped[p]);
      }
    }
  }

  lemma MapKeepsRest(c: Machine, w: World, w': World, m0: Memory, page: nat, f: nat)
    requires RestAsBefore(c, w, m0) && WasUnmapped(c, w, m0) && page !in w.mapped && page * PAGE < WINDOW
    requires Walk(w.m, c.root, page * PAGE) == None
    requires w'.mapped == w.mapped[page := f] && SameElsewhere(w.m, w'.m, c.root, page)
    ensures RestAsBefore(c, w', m0) && WasUnmapped(c, w', m0)
  {
    hide Walk;
    PageStarts(page);
    forall x: nat | x < WINDOW && x / PAGE in w'.mapped ensures Walk(m0, c.root, x) == None {
      if x / PAGE == page { WalkOfPage(m0, w.m, c.root, x, page * PAGE); }
    }
  }

  lemma MapKeeps(c: Machine, w: World, m0: Memory, base: set<nat>, page: nat, f: nat, flags: nat)
    requires Inv(c, w, m0, base) && Legal(c, w, MapCall(page, f, flags))
    ensures Inv(c, Step(c, w, MapCall(page, f, flags)), m0, base)
  {
    var w', g := Step(c, w, MapCall(page, f, flags)), NextFree(c, w.used);
    CanEdit(c, w, page);
    assert Client(c, w, base, f);
    assert w' == w || Walk(w.m, c.root, page * PAGE) == None;
    hide Walk, HasTable, SelfMapped, IsTable, RestAsBefore, WasUnmapped, Accounted, Shows, MapEntry, SameElsewhere,
        TablesStay, NewAreTables, KeepsTables, FirstRun, Editable, Large, Mappable;
    if w' != w {
      if page in w.mapped { MappedIsMapped(c, w, base, page); }
      MapFacts(w.m, c.root, w.used, page, f, flags, g);
      MapKeepsFrames(c, w, w', m0, base, page, f);
      MapKeepsPages(c, w, w', m0, base, page, f);
      MapKeepsRest(c, w, w', m0, page, f);
    }
  }

  // ----- unmapping

  lemma UnmapKeepsTables(m: Memory, root: nat, used: set<nat>, page: nat, f: nat)
    requires SelfMapped(m, root, used) && Shows(m, root, page, f) && !IsTable(m, root, f)
    ensures var m' := SetEntry(m, root, page * PAGE, 0);
      && SelfMapped(m', root, used - {f}) && SameElsewhere(m, m', root, page)
      && (forall x: nat :: x / PAGE == page ==> Walk(m', root, x) == None)
      && SameTableSet(m, m', root) && KeepsTables(m, m', root)
  {
    hide Walk, SelfMapped, SetEntry, HasTable, IsTable, SameElsewhere;
    PageStarts(page);
    var m' := SetEntry(m, root, page * PAGE, 0);
    SetEntryTranslates(m, root, used, page * PAGE, 0);
    FreeingFrame(m, root, used, page * PAGE, f);
    ClearingKeepsTables(m, m, root, used, page * PAGE);
    assert !Present(0);
    forall d: nat | d < ENTRIES && HasTable(m, root, d) ensures HasTable(m', root, d) {
      SameWordSameTable(m, m', root, d);
    }
  }

  lemma UnmapKeepsPages(c: Machine, w: World, w': World, m0: Memory, base: set<nat>, page: nat)
    requires Inv(c, w, m0, base) && page in w.mapped && w'.used == w.used - {w.mapped[page]}
    requires w'.held == w.held && w'.mapped == w.mapped - {page}
    requires SameElsewhere(w.m, w'.m, c.root, page) && KeepsTables(w.m, w'.m, c.root)
    requires SameTableSet(w.m, w'.m, c.root)
    ensures forall h :: h in w'.held ==> Client(c, w', base, h)
    ensures forall p :: p in w'.mapped ==> PageIsOwn(c, w', base, p)
    ensures Accounted(c, w', base)
  {
    hide Walk, HasTable, SelfMapped, IsTable, RestAsBefore, WasUnmapped, SameElsewhere;
    assert PageIsOwn(c, w, base, page);
    forall p | p in w'.mapped ensures PageIsOwn(c, w', base, p) {
      assert PageIsOwn(c, w, base, p);
      ShowsStill(w.m, w'.m, c.root, page, p, w.mapped[p]);
    }
    forall p | p in w.mapped && p != page ensures w.mapped[p] in w'.mapped.Values {
      assert w'.mapped[p] == w.mapped[p];
    }
  }

  lemma UnmapKeepsRest(c: Machine, w: World, w': World, m0: Memory, page: nat)
    requires RestAsBefore(c, w, m0) && WasUnmapped(c, w, m0) && page in w.mapped
    requires w'.mapped == w.mapped - {page} && SameElsewhere(w.m, w'.m, c.root, page)
    requires forall x: nat :: x / PAGE == page ==> Walk(w'.m, c.root, x) == None
    ensures RestAsBefore(c, w', m0) && WasUnmapped(c, w', m0)
  {
    hide Walk;
  }

  lemma UnmapKeeps(c: Machine, w: World, m0: Memory, base: set<nat>, page: nat)
    requires Inv(c, w, m0, base) && page in w.mapped
    ensures Inv(c, Step(c, w, UnmapCall(page)), m0, base)
  {
    var w', f := Step(c, w, UnmapCall(page)), w.mapped[page];
    assert PageIsOwn(c, w, base, page);
    hide Walk, HasTable, SelfMapped, IsTable, RestAsBefore, WasUnmapped, Accounted, Shows, SetEntry, SameElsewhere,
        SameTableSet, KeepsTables;
    UnmapKeepsTables(w.m, c.root, w.used, page, f);
    UnmapKeepsPages(c, w, w', m0, base, page);
    UnmapKeepsRest(c, w, w', m0, page);
  }

  // ----- whole runs

  lemma StepKeeps(c: Machine, w: World, m0: Memory, base: set<nat>, call: Call)
    requires Inv(c, w, m0, base) && Legal(c, w, call)
    ensures forall f :: f in w.held ==> f < FRAMES
    ensures Inv(c, Step(c, w, call), m0, base)
  {
    HeldAreFrames(c, w, m0, base);
    hide Inv, Step;
    match call
    case Take => TakeKeeps(c, w, m0, base);
    case Give(f) => GiveKeeps(c, w, m0, base, f);
    case MapCall(page, f, flags) => MapKeeps(c, w, m0, base, page, f, flags);
    case UnmapCall(page) => UnmapKeeps(c, w, m0, base, page);
  }

  lemma HeldAreFrames(c: Machine, w: World, m0: Memory, base: set<nat>)
    requires Inv(c, w, m0, base)
    ensures c.maxBlocks < FRAMES && forall f :: f in w.held ==> f < FRAMES
  {
    assert forall f :: f in w.held ==> Client(c, w, base, f);
  }

  /** `t` is reached from `s` by the calls. */
  ghost predicate Run(c: Machine, s: World, calls: seq<Call>, t: World)
    decreases |calls|
  {
    if calls == [] then s == t
    else
      && Legal(c, s, calls[0]) && c.maxBlocks < FRAMES && (forall f :: f in s.held ==> f < FRAMES)
      && Run(c, Step(c, s, calls[0]), calls[1..], t)
  }

  lemma {:induction false} RunKeeps(c: Machine, s: World, calls: seq<Call>, t: World, m0: Memory, base: set<nat>)
    requires Inv(c, s, m0, base) && Run(c, s, calls, t)
    ensures Inv(c, t, m0, base)
    decreases |calls|
  {
    hide Inv, Step, Legal;
    if calls != [] {
      StepKeeps(c, s, m0, base, calls[0]);
      RunKeeps(c, Step(c, s, calls[0]), calls[1..], t, m0, base);
    }
  }

  /** A client that holds nothing and has mapped nothing, before the run. */
  function Start(m: Memory, used: set<nat>, usedBlocks: nat): World { World(m, used, usedBlocks, {}, map[]) }

  lemma StartKeeps(c: Machine, m: Memory, used: set<nat>, usedBlocks: nat)
    requires SelfMapped(m, c.root, used) && 0 in used && c.maxBlocks < FRAMES
    ensures Inv(c, Start(m, used, usedBlocks), m, used)
  {
    hide Walk, SelfMapped, IsTable;
  }

  /** After any run: page tables are apart and marked taken; no two virtual addresses in pages the client mapped
      share a physical one; the frames behind those pages were free before, are taken, and are no tables; and
      every other page is translated as before the run. */
  lemma MappedPagesAreSeparate(c: Machine, m: Memory, used: set<nat>, usedBlocks: nat, calls: seq<Call>, t: World)
    requires SelfMapped(m, c.root, used) && 0 in used && c.maxBlocks < FRAMES
    requires Run(c, Start(m, used, usedBlocks), calls, t)
    ensures SelfMapped(t.m, c.root, t.used)
    ensures forall x: nat, y: nat :: x / PAGE in t.mapped && y / PAGE in t.mapped && x != y ==>
              Walk(t.m, c.root, x) != Walk(t.m, c.root, y)
    ensures forall x: nat :: x / PAGE in t.mapped ==>
              Walk(t.m, c.root, x).Some? && ClientFrame(c, t, used, Walk(t.m, c.root, x).value / PAGE)
    ensures forall x: nat :: x < WINDOW && x / PAGE !in t.mapped ==> Walk(t.m, c.root, x) == Walk(m, c.root, x)
  {
    hide Walk, SelfMapped, IsTable, Step;
    StartKeeps(c, m, used, usedBlocks);
    RunKeeps(c, Start(m, used, usedBlocks), calls, t, m, used);
    forall x: nat | x / PAGE in t.mapped
      ensures Walk(t.m, c.root, x).Some? && ClientFrame(c, t, used, Walk(t.m, c.root, x).value / PAGE)
    {
      ShownFrame(c, t, used, x);
    }
    forall x: nat, y: nat | x / PAGE in t.mapped && y / PAGE in t.mapped && x != y
      ensures Walk(t.m, c.root, x) != Walk(t.m, c.root, y)
    {
      ShownFrame(c, t, used, x);
      ShownFrame(c, t, used, y);
      if x / PAGE != y / PAGE { assert t.mapped[x / PAGE] != t.mapped[y / PAGE]; }
    }
  }

  /** The frame was free before the run, is taken and holds no table. */
  ghost predicate ClientFrame(c: Machine, t: World, before: set<nat>, f: nat) {
    f !in before && f in t.used && !IsTable(t.m, c.root, f)
  }

  lemma ShownFrame(c: Machine, w: World, base: set<nat>, x: nat)
    requires x / PAGE in w.mapped && PageIsOwn(c, w, base, x / PAGE)
    ensures Walk(w.m, c.root, x) == Some(w.mapped[x / PAGE] * PAGE + x % PAGE)
    ensures (w.mapped[x / PAGE] * PAGE + x % PAGE) / PAGE == w.mapped[x / PAGE]
    ensures ClientFrame(c, w, base, w.mapped[x / PAGE])
  {
    hide Walk, IsTable;
  }

  /** Once a client has given back and unmapped all it took, every translation below the window is as it was and
      the frames still taken beyond those before the run are the tables made on the way. */
  lemma NothingIsLost(c: Machine, m: Memory, used: set<nat>, usedBlocks: nat, calls: seq<Call>, t: World)
    requires SelfMapped(m, c.root, used) && 0 in used && c.maxBlocks < FRAMES
    requires Run(c, Start(m, used, usedBlocks), calls, t) && t.held == {} && t.mapped == map[]
    ensures forall x: nat :: x < WINDOW ==> Walk(t.m, c.root, x) == Walk(m, c.root, x)
    ensures used <= t.used && forall f :: f in t.used - used ==> IsTable(t.m, c.root, f)
  {
    hide Walk, SelfMapped, IsTable, Step;
    StartKeeps(c, m, used, usedBlocks);
    RunKeeps(c, Start(m, used, usedBlocks), calls, t, m, used);
  }

  // ----- the code

  function MachineOf(t: PageTables): Machine { Machine(t.root, t.pmm.maxBlocks) }

  ghost function Snapshot(t: PageTables, held: set<nat>, mapped: map<nat, nat>): World
    reads t, t.pmm, t.pmm.bitmap
  {
    World(t.mem, t.pmm.Used(), t.pmm.usedBlocks, held, mapped)
  }

  lemma EntryNames(m: Memory, root: nat, page: nat, f: nat)
    requires Shows(m, root, page, f)
    ensures HasTable(m, root, DirIndex(page * PAGE)) && FrameOf(EntryOf(m, root, page * PAGE)) == f
  {
    hide Walk;
    PageStarts(page);
    WalkSteps(m, root, page * PAGE);
    assert Walk(m, root, page * PAGE) == Some(f * PAGE);
  }

  lemma TableIsSmall(m: Memory, root: nat, d: nat)
    requires HasTable(m, root, d)
    ensures !Large(Word(m, root, d))
  {
  }

  lemma PageCanBeMapped(c: Machine, w: World, page: nat)
    requires Mappable(c, w, page)
    ensures page * PAGE < WINDOW && (NeedsTable(c, w.m, page) ==> NextFree(c, w.used) != 0)
  {
  }

  lemma FrameStarts(f: nat)
    requires f < FRAMES
    ensures f * PAGE < WORD_LIMIT && f * PAGE % PAGE == 0 && FrameOf(f * PAGE) == f
  {
  }

  lemma StillMapped(c: Machine, w: World, m0: Memory, base: set<nat>)
    requires Inv(c, w, m0, base)
    ensures SelfMapped(w.m, c.root, w.used) && 0 in w.used
  {
  }

  /** The frame a call gives back or unmaps is neither frame 0 nor a table. */
  lemma NamedIsClients(c: Machine, w: World, m0: Memory, base: set<nat>, call: Call)
    requires Inv(c, w, m0, base) && Legal(c, w, call)
    ensures call.Give? ==> 0 < call.frame < FRAMES && !IsTable(w.m, c.root, call.frame)
    ensures call.MapCall? ==> 0 < call.frame < FRAMES
    ensures call.UnmapCall? ==>
              var f := w.mapped[call.page];
              0 < f && !IsTable(w.m, c.root, f) && Shows(w.m, c.root, call.page, f)
  {
    hide Walk, SelfMapped, IsTable, HasTable, Shows;
    if call.UnmapCall? { assert PageIsOwn(c, w, base, call.page); }
  }

  method PerformTake(t: PageTables, held: set<nat>, ghost mapped: map<nat, nat>) returns (now: set<nat>)
    requires t.Valid() && forall f :: f in held ==> f < FRAMES
    modifies t.pmm`usedBlocks, t.pmm.bitmap
    ensures t.pmm.Valid()
    ensures Snapshot(t, now, mapped) == Step(MachineOf(t), old(Snapshot(t, held, mapped)), Take)
  {
    hide SelfMapped, FirstRun, Taken;
    now := held;
    var page := t.pmm.PmmAllocPage();
    if page.Page? && page.addr != 0 { now := held + {page.addr / PAGE}; }
  }

  method PerformGive(t: PageTables, f: nat, held: set<nat>, ghost mapped: map<nat, nat>) returns (now: set<nat>)
    requires t.Valid() && f in held && f != 0 && forall h :: h in held ==> h < FRAMES
    modifies t.pmm`usedBlocks, t.pmm.bitmap
    ensures t.pmm.Valid()
    ensures Snapshot(t, now, mapped) == Step(MachineOf(t), old(Snapshot(t, held, mapped)), Give(f))
  {
    hide SelfMapped, Taken;
    FrameStarts(f);
    t.pmm.PmmFreePage(f * PAGE);
    now := held - {f};
  }

  method PerformMap(t: PageTables, page: nat, f: nat, flags: nat, held: set<nat>, mapped: map<nat, nat>)
    returns (heldNow: set<nat>, mappedNow: map<nat, nat>)
    requires t.Valid() && forall h :: h in held ==> h < FRAMES
    requires Legal(MachineOf(t), Snapshot(t, held, mapped), MapCall(page, f, flags))
    modifies t`mem, t.pmm`usedBlocks, t.pmm.bitmap
    ensures t.Valid()
    ensures Snapshot(t, heldNow, mappedNow)
            == Step(MachineOf(t), old(Snapshot(t, held, mapped)), MapCall(page, f, flags))
  {
    CanEdit(MachineOf(t), Snapshot(t, held, mapped), page);
    PageCanBeMapped(MachineOf(t), Snapshot(t, held, mapped), page);
    hide Mappable, SelfMapped, Walk, FirstRun, Taken, Editable, Large, MapEntry, DirIndex, NewTables;
    FrameStarts(f);
    PageStarts(page);
    heldNow, mappedNow := held, mapped;
    var ok := t.MapPage(page * PAGE, f * PAGE, flags);
    if ok { heldNow, mappedNow := held - {f}, mapped[page := f]; }
  }

  method PerformUnmap(t: PageTables, page: nat, ghost held: set<nat>, mapped: map<nat, nat>)
    returns (now: map<nat, nat>)
    requires t.Valid() && page in mapped && Shows(t.mem, t.root, page, mapped[page])
    requires mapped[page] != 0 && !IsTable(t.mem, t.root, mapped[page]) && forall h :: h in held ==> h < FRAMES
    requires t.pmm.maxBlocks < FRAMES
    modifies t`mem, t.pmm`usedBlocks, t.pmm.bitmap
    ensures t.Valid()
    ensures Snapshot(t, held, now) == Step(MachineOf(t), old(Snapshot(t, held, mapped)), UnmapCall(page))
  {
    PageStarts(page);
    EntryNames(t.mem, t.root, page, mapped[page]);
    TableIsSmall(t.mem, t.root, DirIndex(page * PAGE));
    hide Walk, SelfMapped, IsTable, Taken, Large, SetEntry, DirIndex, EntryOf;
    var ok := t.UnmapPage(page * PAGE);
    now := mapped - {page};
  }

  /** One call of a client that keeps a record of its frames and pages, through the kernel's code. */
  method Perform(t: PageTables, call: Call, held: set<nat>, mapped: map<nat, nat>, ghost m0: Memory,
      ghost base: set<nat>) returns (heldNow: set<nat>, mappedNow: map<nat, nat>)
    requires t.Valid() && Inv(MachineOf(t), Snapshot(t, held, mapped), m0, base)
    requires Legal(MachineOf(t), Snapshot(t, held, mapped), call)
    modifies t`mem, t.pmm`usedBlocks, t.pmm.bitmap
    ensures Inv(MachineOf(t), old(Snapshot(t, held, mapped)), m0, base) && forall f :: f in held ==> f < FRAMES
    ensures t.Valid() && Snapshot(t, heldNow, mappedNow) == Step(MachineOf(t), old(Snapshot(t, held, mapped)), call)
    ensures Inv(MachineOf(t), Snapshot(t, heldNow, mappedNow), m0, base)
  {
    ghost var c, w := MachineOf(t), Snapshot(t, held, mapped);
    StepKeeps(c, w, m0, base, call);
    StillMapped(c, Step(c, w, call), m0, base);
    NamedIsClients(c, w, m0, base, call);
    heldNow, mappedNow := held, mapped;
    hide Inv, Step, Mappable, SelfMapped, IsTable, Shows, Large, Taken;
    match call {
      case Take => heldNow := PerformTake(t, held, mapped);
      case Give(f) => heldNow := PerformGive(t, f, held, mapped);
      case MapCall(page, f, flags) => heldNow, mappedNow := PerformMap(t, page, f, flags, held, mapped);
      case UnmapCall(page) => mappedNow := PerformUnmap(t, page, held, mapped);
    }
  }
}
