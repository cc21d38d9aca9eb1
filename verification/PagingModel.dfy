/** Two-level translation as the processor does it (section 4.3 of the Intel SDM, Volume 3A), and what
    edits of the tables do to it. */
module PagingModel {
  import opened Arith
  import opened FrameModel

  /** Physical memory: the 32-bit word at an index (below 1024) of a page frame. Words left out read as 0. */
  type Memory = map<(nat, nat), u32>

  const PAGE: nat := 4096
  const ENTRIES: nat := 1024
  const WINDOW: nat := 0xFFC0_0000     // the tables, seen through the self map
  const DIRECTORY: nat := 0xFFFF_F000  // the directory, seen through the self map

  datatype Option<T> = None | Some(value: T)

  function Word(m: Memory, frame: nat, index: nat): u32 {
    if (frame, index) in m then m[(frame, index)] else 0
  }

  function Put(m: Memory, frame: nat, index: nat, word: u32): Memory { m[(frame, index) := word] }

  function Zeroed(m: Memory, frame: nat): Memory {
    map k | k in m && k.0 != frame :: m[k]
  }

  // ----- entries

  predicate Present(entry: nat) { entry % 2 == 1 }

  predicate Large(entry: nat) { entry / 128 % 2 == 1 }

  function FrameOf(entry: nat): nat { entry / PAGE }

  /** `phys | PAGE_PRESENT | (flags & PAGE_FLAGS)` for a page-aligned `phys`. */
  function PageEntry(frame: nat, flags: nat): u32
    requires frame < FRAMES
  {
    var f := flags % PAGE;
    frame * PAGE + f + (1 - f % 2)
  }

  /** `table | PAGE_PRESENT | PAGE_RW | (flags & PAGE_FLAGS)`. */
  function TableEntry(frame: nat, flags: nat): u32
    requires frame < FRAMES
  {
    var f := flags % PAGE;
    frame * PAGE + f - f % 4 + 3
  }

  lemma PageEntryParts(frame: nat, flags: nat)
    requires frame < FRAMES
    ensures Present(PageEntry(frame, flags)) && FrameOf(PageEntry(frame, flags)) == frame
  {
    var f := flags % PAGE;
    var bits := f + (1 - f % 2);
    assert bits == 2 * (f / 2) + 1;
    assert PageEntry(frame, flags) == 2 * (frame * 2048 + f / 2) + 1;
  }

  lemma TableEntryParts(frame: nat, flags: nat)
    requires frame < FRAMES
    ensures Present(TableEntry(frame, flags)) && FrameOf(TableEntry(frame, flags)) == frame
  {
    var q := flags % PAGE / 4;
    assert TableEntry(frame, flags) == frame * PAGE + 4 * q + 3 == 2 * (frame * 2048 + 2 * q + 1) + 1;
  }

  predicate BitAt(n: nat, b: nat) {
    if b == 0 then n % 2 == 1 else BitAt(n / 2, b - 1)
  }

  /** Bit `b` of the number is set. */
  predicate BitOf(n: nat, b: nat) { BitAt(n, b) }

  function Power2(m: nat): nat { if m == 0 then 1 else 2 * Power2(m - 1) }

  lemma {:induction false} LowBits(k: nat, x: nat, m: nat, b: nat)
    requires b < m
    ensures BitAt(k * Power2(m) + x, b) == BitAt(x, b)
  {
    var half := k * Power2(m - 1);
    assert k * Power2(m) == 2 * half;
    if b > 0 {
      assert (2 * half + x) / 2 == half + x / 2;
      LowBits(k, x / 2, m - 1, b - 1);
    }
  }

  lemma FlagBits(frame: nat, low: nat, b: nat)
    requires b < 12
    ensures BitAt(frame * PAGE + low, b) == BitAt(low, b)
  {
    assert Power2(12) == PAGE;
    LowBits(frame, low, 12, b);
  }

  /** Below the frame the two entries are the bitwise OR the code writes: the flags asked for and present, for
      a table also writable. */
  lemma EntriesAreTheOr(frame: nat, flags: nat, b: nat)
    requires frame < FRAMES && b < 12
    ensures BitOf(PageEntry(frame, flags), b) <==> b == 0 || BitOf(flags, b)
    ensures BitOf(TableEntry(frame, flags), b) <==> b < 2 || BitOf(flags, b)
  {
    var f := flags % PAGE;
    FlagBits(flags / PAGE, f, b);
    FlagBits(frame, f + (1 - f % 2), b);
    FlagBits(frame, f - f % 4 + 3, b);
    if b >= 1 {
      assert (f + (1 - f % 2)) / 2 == f / 2;
    }
    if b >= 2 {
      assert (f - f % 4 + 3) / 2 / 2 == f / 2 / 2;
    } else if b == 1 {
      assert (f - f % 4 + 3) / 2 % 2 == 1;
    }
  }

  lemma TableEntryIsSmall(frame: nat, flags: nat)
    requires frame < FRAMES
    ensures Large(TableEntry(frame, flags)) <==> Large(flags)
  {
    var q := flags % PAGE / 4;
    assert TableEntry(frame, flags) / 4 == frame * ENTRIES + q;
    assert flags / 4 == flags / PAGE * ENTRIES + q;
    SeventhBit(TableEntry(frame, flags), frame, q);
    SeventhBit(flags, flags / PAGE, q);
  }

  lemma SeventhBit(e: nat, k: nat, q: nat)
    requires e / 4 == k * ENTRIES + q
    ensures Large(e) <==> q / 32 % 2 == 1
  {
    assert e / 128 == e / 4 / 32 == k * 32 + q / 32;
    assert k * 32 == 2 * (k * 16);
  }

  // ----- the walk

  function DirIndex(va: nat): nat { va / 0x40_0000 }

  function TableIndex(va: nat): nat { va / PAGE % ENTRIES }

  /** Directory entry `d` names a page table. */
  predicate HasTable(m: Memory, root: nat, d: nat) {
    Present(Word(m, root, d)) && !Large(Word(m, root, d))
  }

  function TableFrame(m: Memory, root: nat, d: nat): nat { FrameOf(Word(m, root, d)) }

  /** The physical address of `va`, if it is mapped. */
  function Walk(m: Memory, root: nat, va: nat): Option<nat> {
    var pde := Word(m, root, DirIndex(va));
    if !Present(pde) then None
    else if Large(pde) then Some(pde / 0x40_0000 * 0x40_0000 + va % 0x40_0000)
    else
      var pte := Word(m, FrameOf(pde), TableIndex(va));
      if Present(pte) then Some(FrameOf(pte) * PAGE + va % PAGE) else None
  }

  /** The last directory entry names the directory itself as a table. */
  predicate SelfMap(m: Memory, root: nat) {
    HasTable(m, root, 1023) && TableFrame(m, root, 1023) == root
  }

  function EntryOf(m: Memory, root: nat, va: nat): u32 {
    Word(m, TableFrame(m, root, DirIndex(va)), TableIndex(va))
  }

  lemma WalkSteps(m: Memory, root: nat, va: nat)
    ensures !Present(Word(m, root, DirIndex(va))) ==> Walk(m, root, va) == None
    ensures HasTable(m, root, DirIndex(va)) ==>
      Walk(m, root, va) == (if Present(EntryOf(m, root, va))
          then Some(FrameOf(EntryOf(m, root, va)) * PAGE + va % PAGE) else None)
  {
  }

  /** The directory maps itself, tables are distinct frames, and all of them are marked taken. */
  ghost predicate SelfMapped(m: Memory, root: nat, used: set<nat>) {
    && SelfMap(m, root)
    && (forall d: nat :: d < ENTRIES && HasTable(m, root, d) ==> TableFrame(m, root, d) in used)
    && (forall d: nat, e: nat :: d < e < ENTRIES && HasTable(m, root, d) && HasTable(m, root, e) ==>
          TableFrame(m, root, d) != TableFrame(m, root, e))
  }

  /** Where entry `i` of the directory is seen. */
  function DirAddress(i: nat): nat { DIRECTORY + 4 * i }

  /** Where the table entry for `va` is seen: `&table[table_index]`. */
  function EntryAddress(va: nat): nat { WINDOW + DirIndex(va) * PAGE + 4 * TableIndex(va) }

  lemma DirectoryIsSeen(m: Memory, root: nat, i: nat)
    requires SelfMap(m, root) && i < ENTRIES
    ensures Walk(m, root, DirAddress(i)) == Some(root * PAGE + 4 * i)
  {
    assert DirIndex(DirAddress(i)) == 1023 && TableIndex(DirAddress(i)) == 1023 && DirAddress(i) % PAGE == 4 * i;
  }

  /** The address computed for a page's entry walks to exactly that entry, for every address. */
  lemma EntryIsSeen(m: Memory, root: nat, va: nat)
    requires SelfMap(m, root) && va < WORD_LIMIT && HasTable(m, root, DirIndex(va))
    ensures var p := TableFrame(m, root, DirIndex(va)) * PAGE + 4 * TableIndex(va);
      Walk(m, root, EntryAddress(va)) == Some(p) && p / PAGE == TableFrame(m, root, DirIndex(va))
          && p % PAGE / 4 == TableIndex(va)
  {
    var a := EntryAddress(va);
    assert DirIndex(a) == 1023 && TableIndex(a) == DirIndex(va) && a % PAGE == 4 * TableIndex(va);
  }

  lemma TableIsSeen(m: Memory, root: nat, d: nat)
    requires SelfMap(m, root) && d < ENTRIES && HasTable(m, root, d)
    ensures Walk(m, root, WINDOW + d * PAGE) == Some(TableFrame(m, root, d) * PAGE)
  {
    var a := WINDOW + d * PAGE;
    assert DirIndex(a) == 1023 && TableIndex(a) == d && a % PAGE == 0;
  }

  // ----- what edits change

  /** `m'` translates every address outside the recursive window and outside page `page` as `m` does. */
  ghost predicate SameElsewhere(m: Memory, m': Memory, root: nat, page: nat) {
    forall va: nat :: va < WINDOW && va / PAGE != page ==> Walk(m', root, va) == Walk(m, root, va)
  }

  function SetEntry(m: Memory, root: nat, va: nat, entry: u32): Memory {
    Put(m, TableFrame(m, root, DirIndex(va)), TableIndex(va), entry)
  }

  lemma DirectoryDecides(m: Memory, m': Memory, root: nat, used: set<nat>)
    requires SelfMapped(m, root, used) && forall d: nat :: d < ENTRIES ==> Word(m', root, d) == Word(m, root, d)
    ensures SelfMapped(m', root, used)
  {
    assert forall d: nat :: d < ENTRIES ==>
             (HasTable(m', root, d) <==> HasTable(m, root, d)) && TableFrame(m', root, d) == TableFrame(m, root, d);
  }

  lemma TablesAreApart(m: Memory, root: nat, used: set<nat>, d: nat, e: nat)
    requires SelfMapped(m, root, used) && d < ENTRIES && e < ENTRIES && HasTable(m, root, d) && HasTable(m, root, e)
    requires TableFrame(m, root, d) == TableFrame(m, root, e)
    ensures d == e
  {
  }

  lemma DirectoryIsNoTable(m: Memory, root: nat, used: set<nat>, d: nat)
    requires SelfMapped(m, root, used) && d < 1023 && HasTable(m, root, d)
    ensures TableFrame(m, root, d) != root
  {
    assert HasTable(m, root, 1023);
  }

  lemma SetEntryTranslates(m: Memory, root: nat, used: set<nat>, va: nat, entry: u32)
    requires SelfMapped(m, root, used) && va < WINDOW && HasTable(m, root, DirIndex(va))
    ensures var m' := SetEntry(m, root, va, entry);
      && SelfMapped(m', root, used) && SameElsewhere(m, m', root, va / PAGE)
      && (forall x: nat :: x / PAGE == va / PAGE ==>
           Walk(m', root, x) == if Present(entry) then Some(FrameOf(entry) * PAGE + x % PAGE) else None)
      && (forall d: nat :: d < ENTRIES ==> Word(m', root, d) == Word(m, root, d))
  {
    var m' := SetEntry(m, root, va, entry);
    var t := TableFrame(m, root, DirIndex(va));
    DirectoryIsNoTable(m, root, used, DirIndex(va));
    DirectoryDecides(m, m', root, used);
    forall x: nat | x / PAGE == va / PAGE
      ensures Walk(m', root, x) == if Present(entry) then Some(FrameOf(entry) * PAGE + x % PAGE) else None
    {
      SamePage(x, va);
    }
    forall x: nat | x < WINDOW && x / PAGE != va / PAGE ensures Walk(m', root, x) == Walk(m, root, x) {
      EntryUntouched(m, root, used, va, entry, x);
    }
  }

  lemma EntryUntouched(m: Memory, root: nat, used: set<nat>, va: nat, entry: u32, x: nat)
    requires SelfMapped(m, root, used) && va < WINDOW && HasTable(m, root, DirIndex(va))
    requires x < WINDOW && x / PAGE != va / PAGE
    ensures Walk(SetEntry(m, root, va, entry), root, x) == Walk(m, root, x)
  {
    var t := TableFrame(m, root, DirIndex(va));
    DirectoryIsNoTable(m, root, used, DirIndex(va));
    if HasTable(m, root, DirIndex(x)) && TableFrame(m, root, DirIndex(x)) == t {
      TablesAreApart(m, root, used, DirIndex(va), DirIndex(x));
      if TableIndex(x) == TableIndex(va) { PageIsIndices(x, va); }
    }
  }

  lemma SamePage(x: nat, y: nat)
    requires x / PAGE == y / PAGE
    ensures DirIndex(x) == DirIndex(y) && TableIndex(x) == TableIndex(y)
  {
    assert DirIndex(x) == x / PAGE / ENTRIES && DirIndex(y) == y / PAGE / ENTRIES;
  }

  lemma PageIsIndices(x: nat, y: nat)
    requires DirIndex(x) == DirIndex(y) && TableIndex(x) == TableIndex(y)
    ensures x / PAGE == y / PAGE
  {
    assert DirIndex(x) == x / PAGE / ENTRIES && DirIndex(y) == y / PAGE / ENTRIES;
  }

  /** The memory after a fresh table in `frame` is entered for directory index `d` and zeroed. */
  function AddTable(m: Memory, root: nat, d: nat, frame: nat, flags: nat): Memory
    requires frame < FRAMES
  {
    Zeroed(Put(m, root, d, TableEntry(frame, flags)), frame)
  }

  /** Adding an empty table changes no translation, and keeps the tables apart. */
  lemma AddTableTranslates(m: Memory, root: nat, used: set<nat>, d: nat, frame: nat, flags: nat)
    requires SelfMapped(m, root, used) && d < 1023 && !Present(Word(m, root, d)) && !Large(flags)
        && frame !in used && frame < FRAMES
    ensures var m' := AddTable(m, root, d, frame, flags);
      && SelfMapped(m', root, used + {frame})
      && HasTable(m', root, d) && TableFrame(m', root, d) == frame
      && (forall va: nat :: va < WINDOW ==> Walk(m', root, va) == Walk(m, root, va))
      && (forall e: nat :: e < ENTRIES && e != d ==> Word(m', root, e) == Word(m, root, e))
  {
    var m' := AddTable(m, root, d, frame, flags);
    TableEntryParts(frame, flags);
    TableEntryIsSmall(frame, flags);
    hide TableEntry, Large;
    assert TableFrame(m, root, 1023) in used && frame != root;
    assert forall i: nat :: i < ENTRIES && i != d ==>
      (HasTable(m', root, i) <==> HasTable(m, root, i)) && TableFrame(m', root, i) == TableFrame(m, root, i);
    forall va: nat | va < WINDOW ensures Walk(m', root, va) == Walk(m, root, va) {
      if DirIndex(va) != d && HasTable(m, root, DirIndex(va)) {
        assert TableFrame(m, root, DirIndex(va)) in used;
      }
    }
  }

  // ----- counting what is left for new tables

  ghost function FreeFrames(used: set<nat>, limit: nat): set<nat> {
    set f: nat | f < limit && 0 < f && f !in used
  }

  /** The directory entries from `lo` to `hi` that have no table yet. */
  ghost function Missing(m: Memory, root: nat, lo: nat, hi: nat): set<nat> {
    set d: nat | d < hi && lo <= d && !Present(Word(m, root, d))
  }

  lemma FrameFound(used: set<nat>, limit: nat)
    requires |FreeFrames(used, limit)| > 0
    ensures var f := FirstRun(used, 1, limit, 1);
      f in FreeFrames(used, limit) && |FreeFrames(used + {f}, limit)| == |FreeFrames(used, limit)| - 1
  {
    var g :| g in FreeFrames(used, limit);
    assert FreeRun(used, g, 1);
    FirstRunIsLowest(used, 1, limit, 1);
    var f := FirstRun(used, 1, limit, 1);
    assert FreeRun(used, f, 1) && f !in used;
    assert FreeFrames(used + {f}, limit) == FreeFrames(used, limit) - {f};
  }

  /** What `paging_map_page` makes of the tables; `newTable` is the frame of a table created on the way. */
  function MapEntry(m: Memory, root: nat, virt: nat, frame: nat, flags: nat, newTable: nat): Memory
    requires frame < FRAMES && (!Present(Word(m, root, DirIndex(virt))) ==> newTable < FRAMES)
  {
    var m1 := if Present(Word(m, root, DirIndex(virt))) then m else AddTable(m, root, DirIndex(virt), newTable, flags);
    SetEntry(m1, root, virt, PageEntry(frame, flags))
  }

  /** Frames taken by mapping `virt`: the new table's, if one is made. */
  function NewTables(m: Memory, root: nat, virt: nat, newTable: nat): set<nat> {
    if Present(Word(m, root, DirIndex(virt))) then {} else {newTable}
  }

  /** Directory entry `d` can be edited: it names a table, or nothing yet and `newTable` is a free frame. */
  ghost predicate Editable(m: Memory, root: nat, used: set<nat>, d: nat, newTable: nat) {
    if Present(Word(m, root, d)) then !Large(Word(m, root, d)) else newTable < FRAMES && newTable !in used
  }

  /** Mapping a page gives every address in it its place in the frame, changes no other translation
      outside the window, and keeps the tables apart and marked taken. */
  lemma MapEntryTranslates(m: Memory, root: nat, used: set<nat>, virt: nat, frame: nat, flags: nat, newTable: nat)
    requires SelfMapped(m, root, used) && virt < WINDOW && frame < FRAMES && !Large(flags)
    requires Editable(m, root, used, DirIndex(virt), newTable)
    ensures var m' := MapEntry(m, root, virt, frame, flags, newTable);
      && SelfMapped(m', root, used + NewTables(m, root, virt, newTable))
      && SameElsewhere(m, m', root, virt / PAGE)
      && (forall x: nat :: x / PAGE == virt / PAGE ==> Walk(m', root, x) == Some(frame * PAGE + x % PAGE))
      && HasTable(m', root, DirIndex(virt))
      && (forall d: nat :: d < ENTRIES && d != DirIndex(virt) ==> Word(m', root, d) == Word(m, root, d))
  {
    var d := DirIndex(virt);
    assert d < 1023;
    hide Large, Walk, SelfMapped, SetEntry, AddTable, PageEntry, TableFrame;
    var used' := used + NewTables(m, root, virt, newTable);
    var m1 := if Present(Word(m, root, d)) then m else AddTable(m, root, d, newTable, flags);
    if !Present(Word(m, root, d)) {
      AddTableTranslates(m, root, used, d, newTable, flags);
    } else {
      assert used' == used;
    }
    PageEntryParts(frame, flags);
    SetEntryTranslates(m1, root, used', virt, PageEntry(frame, flags));
  }

  /** The flags mapping writes: the page's entry has those asked for and present, a table made on the way those
      and writable besides; every other directory entry stays. */
  lemma MapEntryFlags(m: Memory, root: nat, used: set<nat>, virt: nat, frame: nat, flags: nat, newTable: nat)
    requires SelfMapped(m, root, used) && virt < WINDOW && frame < FRAMES && !Large(flags)
    requires Editable(m, root, used, DirIndex(virt), newTable)
    ensures var m', d := MapEntry(m, root, virt, frame, flags, newTable), DirIndex(virt);
      && FrameOf(EntryOf(m', root, virt)) == frame
      && (forall b: nat :: b < 12 ==> (BitOf(EntryOf(m', root, virt), b) <==> b == 0 || BitOf(flags, b)))
      && (forall e: nat :: e < ENTRIES && (e != d || Present(Word(m, root, d))) ==>
            Word(m', root, e) == Word(m, root, e))
      && (!Present(Word(m, root, d)) ==>
            FrameOf(Word(m', root, d)) == newTable
            && forall b: nat :: b < 12 ==> (BitOf(Word(m', root, d), b) <==> b < 2 || BitOf(flags, b)))
  {
    var m', d := MapEntry(m, root, virt, frame, flags, newTable), DirIndex(virt);
    MapEntryWords(m, root, used, virt, frame, flags, newTable);
    hide *;
    PageEntryParts(frame, flags);
    forall b: nat | b < 12 ensures BitOf(EntryOf(m', root, virt), b) <==> b == 0 || BitOf(flags, b) {
      EntriesAreTheOr(frame, flags, b);
    }
    if !Present(Word(m, root, d)) {
      TableEntryParts(newTable, flags);
      forall b: nat | b < 12 ensures BitOf(Word(m', root, d), b) <==> b < 2 || BitOf(flags, b) {
        EntriesAreTheOr(newTable, flags, b);
      }
    }
  }

  lemma MapEntryWords(m: Memory, root: nat, used: set<nat>, virt: nat, frame: nat, flags: nat, newTable: nat)
    requires SelfMapped(m, root, used) && virt < WINDOW && frame < FRAMES && !Large(flags)
    requires Editable(m, root, used, DirIndex(virt), newTable)
    ensures var m', d := MapEntry(m, root, virt, frame, flags, newTable), DirIndex(virt);
      && EntryOf(m', root, virt) == PageEntry(frame, flags)
      && (forall e: nat :: e < ENTRIES && (e != d || Present(Word(m, root, d))) ==>
            Word(m', root, e) == Word(m, root, e))
      && (!Present(Word(m, root, d)) ==> newTable < FRAMES && Word(m', root, d) == TableEntry(newTable, flags))
  {
    var d := DirIndex(virt);
    assert d < 1023;
    hide TableEntry, PageEntry, Large, Walk;
    if Present(Word(m, root, d)) {
      DirectoryIsNoTable(m, root, used, d);
    } else {
      AddTableTranslates(m, root, used, d, newTable, flags);
      DirectoryIsNoTable(AddTable(m, root, d, newTable, flags), root, used + {newTable}, d);
      assert TableFrame(m, root, 1023) in used && newTable != root;
    }
  }

  /** The entries of other pages that have a table stay. */
  lemma EntryStays(m: Memory, root: nat, used: set<nat>, virt: nat, frame: nat, flags: nat, newTable: nat, x: nat)
    requires SelfMapped(m, root, used) && virt < WINDOW && frame < FRAMES && !Large(flags)
    requires Editable(m, root, used, DirIndex(virt), newTable)
    requires x < WINDOW && x / PAGE != virt / PAGE && HasTable(m, root, DirIndex(x))
    ensures var m' := MapEntry(m, root, virt, frame, flags, newTable);
      HasTable(m', root, DirIndex(x)) && EntryOf(m', root, x) == EntryOf(m, root, x)
  {
    var d, e := DirIndex(virt), DirIndex(x);
    MapEntryWords(m, root, used, virt, frame, flags, newTable);
    hide TableEntry, PageEntry, Large, Walk;
    assert d < 1023 && e < 1023;
    if Present(Word(m, root, d)) {
      OtherEntry(m, root, used, virt, PageEntry(frame, flags), x);
    } else {
      AddTableTranslates(m, root, used, d, newTable, flags);
      var m1 := AddTable(m, root, d, newTable, flags);
      assert TableFrame(m, root, e) in used && TableFrame(m, root, e) != newTable;
      assert TableFrame(m, root, 1023) in used;
      DirectoryIsNoTable(m, root, used, e);
      assert EntryOf(m1, root, x) == EntryOf(m, root, x);
      OtherEntry(m1, root, used + {newTable}, virt, PageEntry(frame, flags), x);
    }
  }

  lemma OtherEntry(m: Memory, root: nat, used: set<nat>, virt: nat, entry: u32, x: nat)
    requires SelfMapped(m, root, used) && virt < WINDOW && HasTable(m, root, DirIndex(virt))
    requires x < WINDOW && x / PAGE != virt / PAGE && HasTable(m, root, DirIndex(x))
    ensures EntryOf(SetEntry(m, root, virt, entry), root, x) == EntryOf(m, root, x)
  {
    DirectoryIsNoTable(m, root, used, DirIndex(virt));
    if TableFrame(m, root, DirIndex(x)) == TableFrame(m, root, DirIndex(virt)) {
      TablesAreApart(m, root, used, DirIndex(virt), DirIndex(x));
      if TableIndex(x) == TableIndex(virt) { PageIsIndices(x, virt); }
    }
  }

  // ----- ranges of pages

  /** The start of page `i` of a range. */
  function PageAt(virt: nat, i: nat): nat { virt + i * PAGE }

  predicate Inside(x: nat, virt: nat, num: nat) { virt <= x < virt + num * PAGE }

  ghost predicate MapsTo(m: Memory, root: nat, virt: nat, phys: nat, num: nat) {
    forall x: nat :: Inside(x, virt, num) ==> Walk(m, root, x) == Some(phys + (x - virt))
  }

  ghost predicate Unmapped(m: Memory, root: nat, virt: nat, num: nat) {
    forall x: nat :: Inside(x, virt, num) ==> Walk(m, root, x) == None
  }

  /** Outside the recursive window and the range, `m'` translates as `m` does. */
  ghost predicate SameOutside(m: Memory, m': Memory, root: nat, virt: nat, num: nat) {
    forall x: nat :: x < WINDOW && !Inside(x, virt, num) ==> Walk(m', root, x) == Walk(m, root, x)
  }

  /** The frames behind the pages of a range that is mapped. */
  function FramesBehind(m: Memory, root: nat, virt: nat, num: nat): set<nat> {
    if num == 0 then {}
    else
      FramesBehind(m, root, virt, num - 1)
      + match Walk(m, root, virt + (num - 1) * PAGE) case Some(p) => {FrameOf(p)} case None => {}
  }

  /** Mapping unmapped pages and unmapping them again restores every translation. */
  lemma MapThenUnmapRestores(m: Memory, m1: Memory, m2: Memory, root: nat, virt: nat, phys: nat, num: nat)
    requires virt + num * PAGE <= WINDOW
    requires Unmapped(m, root, virt, num) && SameOutside(m, m1, root, virt, num)
    requires Unmapped(m2, root, virt, num) && SameOutside(m1, m2, root, virt, num)
    ensures forall x: nat :: x < WINDOW ==> Walk(m2, root, x) == Walk(m, root, x)
  {
    hide Walk;
    forall x: nat | x < WINDOW ensures Walk(m2, root, x) == Walk(m, root, x) {
      if Inside(x, virt, num) {}
    }
  }

  /** The frames behind a contiguous mapping are the mapped ones. */
  lemma {:induction false} FramesBehindMapping(m: Memory, root: nat, virt: nat, phys: nat, num: nat)
    requires MapsTo(m, root, virt, phys, num) && phys % PAGE == 0
    ensures FramesBehind(m, root, virt, num) == Range(FrameOf(phys), num)
  {
    hide Walk;
    if num > 0 {
      var x := virt + (num - 1) * PAGE;
      assert Inside(x, virt, num);
      assert FrameOf(phys + (num - 1) * PAGE) == FrameOf(phys) + num - 1;
      FramesBehindMapping(m, root, virt, phys, num - 1);
    }
  }

  /** One more page mapped after a mapped range. */
  lemma MapOneMore(m: Memory, m1: Memory, m2: Memory, root: nat, virt: nat, phys: nat, i: nat)
    requires virt % PAGE == 0
    requires MapsTo(m1, root, virt, phys, i) && SameOutside(m, m1, root, virt, i)
    requires SameElsewhere(m1, m2, root, PageAt(virt, i) / PAGE) && PageAt(virt, i) < WINDOW
    requires forall x: nat :: x / PAGE == PageAt(virt, i) / PAGE ==>
               Walk(m2, root, x) == Some(PageAt(phys, i) + x % PAGE)
    ensures MapsTo(m2, root, virt, phys, i + 1) && SameOutside(m, m2, root, virt, i + 1)
  {
    hide Walk;
    var last := (virt + i * PAGE) / PAGE;
    forall x: nat ensures x / PAGE == last <==> Inside(x, virt + i * PAGE, 1) {}
    forall x: nat | Inside(x, virt, i + 1) ensures Walk(m2, root, x) == Some(phys + (x - virt)) {
      if Inside(x, virt, i) {} else { assert x / PAGE == last && x % PAGE == x - (virt + i * PAGE); }
    }
    forall x: nat | x < WINDOW && !Inside(x, virt, i + 1) ensures Walk(m2, root, x) == Walk(m, root, x) {
      assert !Inside(x, virt, i) && x / PAGE != last;
    }
  }

  /** Frame `f` holds a page table, or the directory. */
  ghost predicate IsTable(m: Memory, root: nat, f: nat) {
    exists d: nat :: d < ENTRIES && HasTable(m, root, d) && TableFrame(m, root, d) == f
  }

  /** Clearing an entry and giving frame `f` back keeps the tables marked taken exactly when `f` is not one. */
  lemma FreeingFrame(m: Memory, root: nat, used: set<nat>, va: nat, f: nat)
    requires SelfMapped(m, root, used) && va < WINDOW && HasTable(m, root, DirIndex(va))
    ensures SelfMapped(SetEntry(m, root, va, 0), root, used - {f}) <==> !IsTable(m, root, f)
  {
    var m' := SetEntry(m, root, va, 0);
    DirectoryIsNoTable(m, root, used, DirIndex(va));
    assert forall d: nat :: d < ENTRIES ==> Word(m', root, d) == Word(m, root, d);
    if !IsTable(m, root, f) {
      forall d: nat | d < ENTRIES && HasTable(m, root, d) ensures TableFrame(m, root, d) in used - {f} {}
      DirectoryDecides(m, m', root, used - {f});
    } else {
      var d: nat :| d < ENTRIES && HasTable(m, root, d) && TableFrame(m, root, d) == f;
      assert HasTable(m', root, d) && TableFrame(m', root, d) == f;
    }
  }

  /** No large page among directory entries `lo..hi`, and either each of them has a table or there are enough
      free frames to give each one a table and take `extra` more. */
  ghost predicate Roomy(m: Memory, root: nat, used: set<nat>, limit: nat, lo: nat, hi: nat, extra: nat) {
    && (forall d: nat :: lo <= d < hi && Present(Word(m, root, d)) ==> !Large(Word(m, root, d)))
    && (Missing(m, root, lo, hi) == {} || |Missing(m, root, lo, hi)| + extra <= |FreeFrames(used, limit)|)
  }

  lemma RoomForTable(m: Memory, root: nat, used: set<nat>, limit: nat, lo: nat, hi: nat, extra: nat, d: nat)
    requires Roomy(m, root, used, limit, lo, hi, extra) && lo <= d < hi && limit <= FRAMES
    ensures var f := FirstRun(used, 1, limit, 1);
      Editable(m, root, used, d, f) && (!Present(Word(m, root, d)) ==> f != 0)
  {
    if !Present(Word(m, root, d)) {
      assert d in Missing(m, root, lo, hi);
      FrameFound(used, limit);
    }
  }

  lemma RoomAfterMap(m: Memory, root: nat, used: set<nat>, limit: nat, lo: nat, hi: nat, extra: nat,
      virt: nat, frame: nat, flags: nat)
    requires Roomy(m, root, used, limit, lo, hi, extra) && lo <= DirIndex(virt) < hi <= ENTRIES && limit <= FRAMES
    requires SelfMapped(m, root, used) && virt < WINDOW && frame < FRAMES && !Large(flags)
    ensures var f := FirstRun(used, 1, limit, 1);
      && Editable(m, root, used, DirIndex(virt), f)
      && Roomy(MapEntry(m, root, virt, frame, flags, f), root, used + NewTables(m, root, virt, f), limit, lo, hi, extra)
      && |Missing(MapEntry(m, root, virt, frame, flags, f), root, lo, hi)|
         == |Missing(m, root, lo, hi)| - if Present(Word(m, root, DirIndex(virt))) then 0 else 1
  {
    var d, f := DirIndex(virt), FirstRun(used, 1, limit, 1);
    RoomForTable(m, root, used, limit, lo, hi, extra, d);
    MapEntryTranslates(m, root, used, virt, frame, flags, f);
    hide SelfMapped, Walk, MapEntry, FirstRun, Large;
    var m' := MapEntry(m, root, virt, frame, flags, f);
    assert d < 1023;
    if Present(Word(m, root, d)) {
      assert used + NewTables(m, root, virt, f) == used;
      assert Missing(m', root, lo, hi) == Missing(m, root, lo, hi);
    } else {
      assert d in Missing(m, root, lo, hi);
      FrameFound(used, limit);
      assert Missing(m', root, lo, hi) == Missing(m, root, lo, hi) - {d};
    }
  }

  lemma RoomAfterTake(m: Memory, root: nat, used: set<nat>, limit: nat, lo: nat, hi: nat, extra: nat)
    requires Roomy(m, root, used, limit, lo, hi, extra) && extra > 0 && FirstRun(used, 1, limit, 1) != 0
    ensures Roomy(m, root, used + {FirstRun(used, 1, limit, 1)}, limit, lo, hi, extra - 1)
  {
    if Missing(m, root, lo, hi) != {} { FrameFound(used, limit); }
  }

  /** Every page of the range has a table, and its entry the flags asked for. */
  ghost predicate PagesFlagged(m: Memory, root: nat, virt: nat, num: nat, flags: nat) {
    forall j: nat :: j < num ==>
      && HasTable(m, root, DirIndex(PageAt(virt, j)))
      && forall b: nat :: b < 12 ==> (BitOf(EntryOf(m, root, PageAt(virt, j)), b) <==> b == 0 || BitOf(flags, b))
  }

  /** The directory's entries stay, apart from new ones, which have the flags asked for and are writable. */
  ghost predicate TablesFlagged(m: Memory, m': Memory, root: nat, flags: nat) {
    forall d: nat :: d < ENTRIES ==>
      if Present(Word(m, root, d)) then Word(m', root, d) == Word(m, root, d)
      else
        Present(Word(m', root, d)) ==>
          forall b: nat :: b < 12 ==> (BitOf(Word(m', root, d), b) <==> b < 2 || BitOf(flags, b))
  }

  lemma PagesFlaggedNext(m1: Memory, root: nat, used: set<nat>, virt: nat, i: nat, frame: nat, flags: nat, g: nat)
    requires SelfMapped(m1, root, used) && PageAt(virt, i) < WINDOW && virt % PAGE == 0 && frame < FRAMES
    requires !Large(flags) && Editable(m1, root, used, DirIndex(PageAt(virt, i)), g)
    requires PagesFlagged(m1, root, virt, i, flags)
    ensures PagesFlagged(MapEntry(m1, root, PageAt(virt, i), frame, flags, g), root, virt, i + 1, flags)
  {
    hide SelfMapped, Large, HasTable, EntryOf, BitOf, MapEntry, PageAt, DirIndex;
    var m2 := MapEntry(m1, root, PageAt(virt, i), frame, flags, g);
    MapEntryFlags(m1, root, used, PageAt(virt, i), frame, flags, g);
    MapEntryTables(m1, root, used, PageAt(virt, i), frame, flags, g);
    forall j: nat | j < i
      ensures HasTable(m2, root, DirIndex(PageAt(virt, j)))
      ensures EntryOf(m2, root, PageAt(virt, j)) == EntryOf(m1, root, PageAt(virt, j))
    {
      PagesDiffer(virt, j, i);
      EntryStays(m1, root, used, PageAt(virt, i), frame, flags, g, PageAt(virt, j));
    }
  }

  lemma TablesFlaggedNext(m: Memory, m1: Memory, root: nat, used: set<nat>, x: nat, frame: nat, flags: nat, g: nat)
    requires SelfMapped(m1, root, used) && x < WINDOW && frame < FRAMES && !Large(flags)
    requires Editable(m1, root, used, DirIndex(x), g) && TablesFlagged(m, m1, root, flags)
    ensures TablesFlagged(m, MapEntry(m1, root, x, frame, flags, g), root, flags)
  {
    hide SelfMapped, Large, HasTable, EntryOf, BitOf, MapEntry, Present, Word;
    MapEntryFlags(m1, root, used, x, frame, flags, g);
  }

  /** A range whose pages all have tables misses none. */
  lemma NoneMissing(m: Memory, root: nat, virt: nat, num: nat)
    requires num > 0 ==> virt % PAGE == 0
    requires forall j: nat :: j < num ==> HasTable(m, root, DirIndex(PageAt(virt, j)))
    ensures Missing(m, root, DirIndex(virt), LastDir(virt, num)) == {}
  {
    hide HasTable, Present;
    forall d: nat | DirIndex(virt) <= d < LastDir(virt, num) ensures Present(Word(m, root, d)) {
      var j := PageOfDir(virt, num, d);
      assert HasTable(m, root, DirIndex(PageAt(virt, j)));
      TableIsPresent(m, root, d);
    }
  }

  lemma TableIsPresent(m: Memory, root: nat, d: nat)
    requires HasTable(m, root, d)
    ensures Present(Word(m, root, d))
  {
  }

  lemma PageOfDir(virt: nat, num: nat, d: nat) returns (j: nat)
    requires virt % PAGE == 0 && DirIndex(virt) <= d < LastDir(virt, num)
    ensures j < num && DirIndex(PageAt(virt, j)) == d
  {
    if d == DirIndex(virt) {
      j := 0;
    } else {
      var k := virt / PAGE;
      assert virt == k * PAGE && DirIndex(virt) == k / ENTRIES;
      j := d * ENTRIES - k;
      assert PageAt(virt, j) == d * 0x40_0000;
    }
  }

  lemma PagePlaces(virt: nat, phys: nat, num: nat, i: nat)
    requires i < num && virt + num * PAGE <= WINDOW && phys + num * PAGE <= WORD_LIMIT && phys % PAGE == 0
    ensures PageAt(virt, i) < WINDOW && PageAt(virt, i + 1) <= WINDOW
    ensures PageAt(phys, i) < WORD_LIMIT && PageAt(phys, i) % PAGE == 0 && FrameOf(PageAt(phys, i)) < FRAMES
    ensures FrameOf(PageAt(phys, i)) * PAGE == PageAt(phys, i)
    ensures PageAt(virt, i) % PAGE == 0 <==> virt % PAGE == 0
  {
  }

  lemma PagesWithin(virt: nat, num: nat, i: nat)
    requires i < num
    ensures DirIndex(virt) <= DirIndex(PageAt(virt, i)) < LastDir(virt, num)
    ensures virt + num * PAGE <= WINDOW ==> LastDir(virt, num) <= 1023
  {
  }

  /** One past the last directory entry a range of pages touches. */
  function LastDir(virt: nat, num: nat): nat {
    if num == 0 then DirIndex(virt) else DirIndex(virt + (num - 1) * PAGE) + 1
  }

  /** One more page unmapped after an unmapped range. */
  lemma UnmapOneMore(m: Memory, m1: Memory, m2: Memory, root: nat, virt: nat, i: nat)
    requires virt % PAGE == 0
    requires Unmapped(m1, root, virt, i) && SameOutside(m, m1, root, virt, i)
    requires SameElsewhere(m1, m2, root, PageAt(virt, i) / PAGE) && PageAt(virt, i) < WINDOW
    requires forall x: nat :: x / PAGE == PageAt(virt, i) / PAGE ==> Walk(m2, root, x) == None
    ensures Unmapped(m2, root, virt, i + 1) && SameOutside(m, m2, root, virt, i + 1)
  {
    hide Walk;
    var last := (virt + i * PAGE) / PAGE;
    forall x: nat ensures x / PAGE == last <==> Inside(x, virt + i * PAGE, 1) {}
    forall x: nat | Inside(x, virt, i + 1) ensures Walk(m2, root, x) == None {
      if !Inside(x, virt, i) { assert x / PAGE == last; }
    }
    forall x: nat | x < WINDOW && !Inside(x, virt, i + 1) ensures Walk(m2, root, x) == Walk(m, root, x) {
      assert !Inside(x, virt, i) && x / PAGE != last;
    }
  }

  lemma LastPage(x: nat, virt: nat, i: nat)
    requires virt % PAGE == 0 && Inside(x, virt, i + 1) && !Inside(x, virt, i)
    ensures x / PAGE == PageAt(virt, i) / PAGE && (PageAt(virt, i + 1) <= WINDOW ==> x < WINDOW)
  {
  }

  lemma WalkOfPage(m: Memory, m1: Memory, root: nat, x: nat, y: nat)
    requires x / PAGE == y / PAGE && Walk(m1, root, y) == None && Walk(m, root, x) == Walk(m1, root, x)
    ensures Walk(m, root, x) == None
  {
    SamePage(x, y);
  }

  lemma UnmappedOneMore(m: Memory, m1: Memory, root: nat, virt: nat, i: nat)
    requires virt % PAGE == 0 && PageAt(virt, i + 1) <= WINDOW
    requires Unmapped(m, root, virt, i) && SameOutside(m, m1, root, virt, i) && Walk(m1, root, PageAt(virt, i)) == None
    ensures Unmapped(m, root, virt, i + 1)
  {
    hide Walk, Inside, PageAt;
    forall x: nat | Inside(x, virt, i + 1) ensures Walk(m, root, x) == None {
      if !Inside(x, virt, i) {
        LastPage(x, virt, i);
        WalkOfPage(m, m1, root, x, PageAt(virt, i));
      }
    }
  }

  /** The page of `x` is mapped through a table, to a frame that is neither frame 0 nor a table. */
  ghost predicate ReleasablePage(m: Memory, root: nat, x: nat) {
    && HasTable(m, root, DirIndex(x)) && Present(EntryOf(m, root, x))
    && FrameOf(EntryOf(m, root, x)) != 0 && !IsTable(m, root, FrameOf(EntryOf(m, root, x)))
  }

  ghost predicate SameTableSet(m: Memory, m': Memory, root: nat) {
    forall f: nat :: IsTable(m', root, f) <==> IsTable(m, root, f)
  }

  lemma ClearingKeepsTables(m0: Memory, m: Memory, root: nat, used: set<nat>, virt: nat)
    requires SelfMapped(m, root, used) && virt < WINDOW && HasTable(m, root, DirIndex(virt))
    requires SameTableSet(m0, m, root)
    ensures SameTableSet(m0, SetEntry(m, root, virt, 0), root)
  {
    hide IsTable, SetEntry, SelfMapped;
    SetEntryTranslates(m, root, used, virt, 0);
    forall f: nat ensures IsTable(SetEntry(m, root, virt, 0), root, f) <==> IsTable(m, root, f) {
      SameTables(m, SetEntry(m, root, virt, 0), root, f);
    }
  }

  /** Unmapping a range has got to page `i`: `m1` is what has become of `m`. */
  ghost predicate Releasing(m: Memory, m1: Memory, root: nat, virt: nat, i: nat, num: nat) {
    && Unmapped(m1, root, virt, i) && SameOutside(m, m1, root, virt, i) && SameTableSet(m, m1, root)
    && (forall j: nat :: i <= j < num ==> ReleasablePage(m1, root, PageAt(virt, j)))
  }

  lemma ReleaseStarts(m: Memory, root: nat, virt: nat, num: nat)
    requires forall j: nat :: j < num ==> ReleasablePage(m, root, PageAt(virt, j))
    ensures Releasing(m, m, root, virt, 0, num) && FramesBehind(m, root, virt, 0) == {}
  {
    hide ReleasablePage, IsTable, Walk;
  }

  lemma ReleaseStep(m: Memory, m1: Memory, root: nat, used: set<nat>, virt: nat, i: nat, num: nat)
    requires SelfMapped(m1, root, used) && Releasing(m, m1, root, virt, i, num)
    requires i < num && virt % PAGE == 0 && virt + num * PAGE <= WINDOW
    ensures var x := PageAt(virt, i);
      && x < WINDOW && x % PAGE == 0 && ReleasablePage(m1, root, x)
      && Releasing(m, SetEntry(m1, root, x, 0), root, virt, i + 1, num)
      && FramesBehind(m, root, virt, i + 1) == FramesBehind(m, root, virt, i) + {FrameOf(EntryOf(m1, root, x))}
  {
    var x := PageAt(virt, i);
    assert ReleasablePage(m1, root, x);
    var m2 := SetEntry(m1, root, x, 0);
    SetEntryTranslates(m1, root, used, x, 0);
    UnmapOneMore(m, m1, m2, root, virt, i);
    ClearingKeepsTables(m, m1, root, used, x);
    hide SameTableSet;
    forall j: nat | i + 1 <= j < num ensures ReleasablePage(m2, root, PageAt(virt, j)) {
      assert ReleasablePage(m1, root, PageAt(virt, j));
      StaysReleasable(m1, root, used, x, PageAt(virt, j));
    }
    hide Present, FrameOf, HasTable, IsTable, ReleasablePage, SetEntry;
    assert Walk(m, root, x) == Walk(m1, root, x);
    WalkSteps(m1, root, x);
  }

  lemma SameTables(m: Memory, m': Memory, root: nat, f: nat)
    requires forall d: nat :: d < ENTRIES ==> Word(m', root, d) == Word(m, root, d)
    ensures IsTable(m', root, f) <==> IsTable(m, root, f)
  {
    if d: nat :| d < ENTRIES && HasTable(m, root, d) && TableFrame(m, root, d) == f {
      assert HasTable(m', root, d) && TableFrame(m', root, d) == f;
    }
    if d: nat :| d < ENTRIES && HasTable(m', root, d) && TableFrame(m', root, d) == f {
      assert HasTable(m, root, d) && TableFrame(m, root, d) == f;
    }
  }

  /** Clearing another page's entry leaves a releasable page releasable. */
  lemma StaysReleasable(m: Memory, root: nat, used: set<nat>, x: nat, y: nat)
    requires SelfMapped(m, root, used) && x < WINDOW && y < WINDOW && x / PAGE != y / PAGE
    requires HasTable(m, root, DirIndex(x)) && ReleasablePage(m, root, y)
    ensures ReleasablePage(SetEntry(m, root, x, 0), root, y)
  {
    var m' := SetEntry(m, root, x, 0);
    DirectoryIsNoTable(m, root, used, DirIndex(x));
    assert forall d: nat :: d < ENTRIES ==> Word(m', root, d) == Word(m, root, d);
    if TableFrame(m, root, DirIndex(x)) == TableFrame(m, root, DirIndex(y)) {
      TablesAreApart(m, root, used, DirIndex(x), DirIndex(y));
      if TableIndex(x) == TableIndex(y) { PageIsIndices(x, y); }
    }
    assert EntryOf(m', root, y) == EntryOf(m, root, y);
    SameTables(m, m', root, FrameOf(EntryOf(m, root, y)));
  }

  lemma ReleasableMeans(m: Memory, root: nat, x: nat)
    requires ReleasablePage(m, root, x)
    ensures HasTable(m, root, DirIndex(x)) && Present(Word(m, root, DirIndex(x))) && !Large(Word(m, root, DirIndex(x)))
    ensures FrameOf(EntryOf(m, root, x)) != 0 && !IsTable(m, root, FrameOf(EntryOf(m, root, x)))
  {
  }

  lemma ReleasedMeans(m: Memory, m1: Memory, root: nat, virt: nat, num: nat)
    requires Releasing(m, m1, root, virt, num, num)
    ensures Unmapped(m1, root, virt, num) && SameOutside(m, m1, root, virt, num) && SameTableSet(m, m1, root)
  {
  }

  /** Taking one more frame out. */
  lemma OneLess(used: set<nat>, left: set<nat>, gone: set<nat>, f: nat)
    requires left == used - gone
    ensures left - {f} == used - (gone + {f})
  {
  }

  /** Frames already taken do not become tables: new tables come from free frames. */
  ghost predicate TablesStay(m: Memory, m': Memory, root: nat, used: set<nat>) {
    forall f: nat :: f in used ==> (IsTable(m', root, f) <==> IsTable(m, root, f))
  }

  /** Every frame taken since is a table. */
  ghost predicate NewAreTables(m: Memory, root: nat, before: set<nat>, after: set<nat>) {
    forall f: nat :: f in after && f !in before ==> IsTable(m, root, f)
  }

  lemma NewAreTablesOn(m1: Memory, m2: Memory, root: nat, used0: set<nat>, used1: set<nat>, used2: set<nat>)
    requires NewAreTables(m1, root, used0, used1) && TablesStay(m1, m2, root, used1)
    requires NewAreTables(m2, root, used1, used2)
    ensures NewAreTables(m2, root, used0, used2)
  {
  }

  lemma MapEntryTables(m: Memory, root: nat, used: set<nat>, virt: nat, frame: nat, flags: nat, newTable: nat)
    requires SelfMapped(m, root, used) && virt < WINDOW && frame < FRAMES && !Large(flags)
    requires Editable(m, root, used, DirIndex(virt), newTable)
    ensures var m' := MapEntry(m, root, virt, frame, flags, newTable);
      && TablesStay(m, m', root, used) && NewAreTables(m', root, used, used + NewTables(m, root, virt, newTable))
      && HasTable(m', root, DirIndex(virt)) && EntryOf(m', root, virt) == PageEntry(frame, flags)
  {
    var d, m' := DirIndex(virt), MapEntry(m, root, virt, frame, flags, newTable);
    MapEntryTranslates(m, root, used, virt, frame, flags, newTable);
    assert d < 1023;
    if Present(Word(m, root, d)) {
      DirectoryIsNoTable(m, root, used, d);
      forall f: nat | f in used ensures IsTable(m', root, f) <==> IsTable(m, root, f) { SameTables(m, m', root, f); }
    } else {
      AddTableTranslates(m, root, used, d, newTable, flags);
      var m1 := AddTable(m, root, d, newTable, flags);
      DirectoryIsNoTable(m1, root, used + {newTable}, d);
      forall f: nat | f in used ensures IsTable(m', root, f) <==> IsTable(m, root, f) {
        SameTablesBut(m, m', root, d, f);
      }
    }
  }

  lemma SameTablesBut(m: Memory, m': Memory, root: nat, d: nat, f: nat)
    requires forall e: nat :: e < ENTRIES && e != d ==> Word(m', root, e) == Word(m, root, e)
    requires !HasTable(m, root, d) && TableFrame(m', root, d) != f
    ensures IsTable(m', root, f) <==> IsTable(m, root, f)
  {
    if e: nat :| e < ENTRIES && HasTable(m, root, e) && TableFrame(m, root, e) == f {
      assert HasTable(m', root, e) && TableFrame(m', root, e) == f;
    }
    if e: nat :| e < ENTRIES && HasTable(m', root, e) && TableFrame(m', root, e) == f {
      assert HasTable(m, root, e) && TableFrame(m, root, e) == f;
    }
  }

  lemma TablesStayOn(m: Memory, m1: Memory, m2: Memory, root: nat, used: set<nat>, used1: set<nat>)
    requires TablesStay(m, m1, root, used) && TablesStay(m1, m2, root, used1) && used <= used1
    ensures TablesStay(m, m2, root, used)
  {
  }

  /** Pages mapped through tables to frames that are neither frame 0 nor tables can be released. */
  lemma MappedIsReleasable(m: Memory, root: nat, used: set<nat>, limit: nat, virt: nat, phys: nat, num: nat, j: nat)
    requires virt % PAGE == 0 && phys % PAGE == 0 && j < num && MapsTo(m, root, virt, phys, num)
    requires Roomy(m, root, used, limit, DirIndex(virt), LastDir(virt, num), 0)
    requires forall f :: f in Range(FrameOf(phys), num) ==> f != 0 && !IsTable(m, root, f)
    ensures ReleasablePage(m, root, PageAt(virt, j))
  {
    var x := PageAt(virt, j);
    PagesWithin(virt, num, j);
    assert Inside(x, virt, num);
    WalkSteps(m, root, x);
    assert FrameOf(phys + (x - virt)) == FrameOf(phys) + j;
    assert HasTable(m, root, DirIndex(x));
    assert Walk(m, root, x) == Some(phys + (x - virt));
    assert Present(EntryOf(m, root, x));
    assert FrameOf(EntryOf(m, root, x)) * PAGE + x % PAGE == phys + (x - virt);
    assert FrameOf(EntryOf(m, root, x)) == FrameOf(phys) + j;
    assert FrameOf(phys) + j in Range(FrameOf(phys), num);
  }

  // ----- mapping a range, page by page

  /** Mapping a range has got to page `i`: `m1` is what has become of `m`. */
  ghost predicate Mapping(m: Memory, m1: Memory, root: nat, virt: nat, phys: nat, flags: nat, i: nat) {
    && Unmapped(m, root, virt, i) && MapsTo(m1, root, virt, phys, i) && SameOutside(m, m1, root, virt, i)
    && PagesFlagged(m1, root, virt, i, flags) && TablesFlagged(m, m1, root, flags)
  }

  lemma MappingStarts(m: Memory, root: nat, virt: nat, phys: nat, flags: nat)
    ensures Mapping(m, m, root, virt, phys, flags, 0)
    ensures forall used: set<nat> :: TablesStay(m, m, root, used) && NewAreTables(m, root, used, used)
  {
    hide Walk, IsTable;
  }

  lemma MappingStep(m: Memory, m1: Memory, root: nat, used: set<nat>, virt: nat, phys: nat, num: nat, flags: nat,
      i: nat, g: nat)
    requires Mapping(m, m1, root, virt, phys, flags, i) && SelfMapped(m1, root, used) && i < num && !Large(flags)
    requires virt + num * PAGE <= WINDOW && phys + num * PAGE <= WORD_LIMIT && phys % PAGE == 0 && virt % PAGE == 0
    requires PageAt(virt, i) < WINDOW && FrameOf(PageAt(phys, i)) < FRAMES
    requires Editable(m1, root, used, DirIndex(PageAt(virt, i)), g) && Walk(m1, root, PageAt(virt, i)) == None
    ensures var m2 := MapEntry(m1, root, PageAt(virt, i), FrameOf(PageAt(phys, i)), flags, g);
      && Mapping(m, m2, root, virt, phys, flags, i + 1)
      && TablesStay(m1, m2, root, used)
      && NewAreTables(m2, root, used, used + NewTables(m1, root, PageAt(virt, i), g))
  {
    var x, frame := PageAt(virt, i), FrameOf(PageAt(phys, i));
    PagePlaces(virt, phys, num, i);
    hide Walk, SelfMapped, MapEntry, TablesStay, NewAreTables, PagesFlagged, TablesFlagged, Unmapped, MapsTo,
        SameOutside, Large, PageAt, DirIndex, SameElsewhere;
    MapEntryTranslates(m1, root, used, x, frame, flags, g);
    MapEntryTables(m1, root, used, x, frame, flags, g);
    PagesFlaggedNext(m1, root, used, virt, i, frame, flags, g);
    TablesFlaggedNext(m, m1, root, used, x, frame, flags, g);
    UnmappedOneMore(m, m1, root, virt, i);
    MapOneMore(m, m1, MapEntry(m1, root, x, frame, flags, g), root, virt, phys, i);
  }

  /** A range to map, and the state it is mapped from: the counters, and how many frames are scanned. */
  datatype Job = Job(m: Memory, root: nat, used: set<nat>, limit: nat, blocks: u32, max: u32,
                     virt: nat, phys: nat, num: nat, flags: nat)
  {
    ghost function Lacks(m1: Memory): set<nat> {
      Missing(m1, root, DirIndex(virt), LastDir(virt, num))
    }

    /** As many tables have been made as were missing and are not now. */
    ghost function Made(m1: Memory): int { |Lacks(m)| - |Lacks(m1)| }

    ghost predicate HasRoom(m1: Memory, used1: set<nat>) {
      Roomy(m1, root, used1, limit, DirIndex(virt), LastDir(virt, num), 0)
    }

    ghost predicate InBounds() {
      && virt + num * PAGE <= WINDOW && phys + num * PAGE <= WORD_LIMIT && phys % PAGE == 0
      && !Large(flags) && limit <= FRAMES
    }

    /** All that holds when mapping has got to page `i`. */
    ghost predicate Progress(m1: Memory, used1: set<nat>, blocks1: u32, i: nat) {
      && Mapping(m, m1, root, virt, phys, flags, i) && (i > 0 ==> virt % PAGE == 0) && used <= used1
      && TablesStay(m, m1, root, used) && NewAreTables(m1, root, used, used1) && HasRoom(m1, used1)
      && 0 <= Made(m1) <= Wrap(max - blocks) && blocks1 == Wrap(blocks + Made(m1))
    }

    /** The page can be mapped: nothing is there, and a frame is left by the counters for a table it needs. */
    ghost predicate CanMap(m1: Memory, blocks1: u32, i: nat) {
      && virt % PAGE == 0 && Walk(m1, root, PageAt(virt, i)) == None
      && (!Present(Word(m1, root, DirIndex(PageAt(virt, i)))) ==> blocks1 != max)
    }

    /** The whole range can be. */
    ghost predicate CanMapAll() {
      num == 0 || (virt % PAGE == 0 && Unmapped(m, root, virt, num) && |Lacks(m)| <= Wrap(max - blocks))
    }
  }

  lemma ProgressStarts(job: Job)
    requires job.HasRoom(job.m, job.used)
    ensures job.Progress(job.m, job.used, job.blocks, 0)
  {
    MappingStarts(job.m, job.root, job.virt, job.phys, job.flags);
    WrapSame(job.blocks);
  }

  lemma ProgressStep(job: Job, m1: Memory, used1: set<nat>, blocks1: u32, i: nat)
    requires job.Progress(m1, used1, blocks1, i) && i < job.num && job.InBounds() && job.CanMap(m1, blocks1, i)
    requires SelfMapped(m1, job.root, used1)
    ensures var x, frame, g := PageAt(job.virt, i), FrameOf(PageAt(job.phys, i)), FirstRun(used1, 1, job.limit, 1);
      && x < WINDOW && frame < FRAMES && Editable(m1, job.root, used1, DirIndex(x), g)
      && job.Progress(MapEntry(m1, job.root, x, frame, job.flags, g), used1 + NewTables(m1, job.root, x, g),
                      if Present(Word(m1, job.root, DirIndex(x))) then blocks1 else Wrap(blocks1 + 1), i + 1)
  {
    hide *;
    var Job(m, root, used, limit, blocks, max, virt, phys, num, flags) := job;
    var x, frame, g := PageAt(virt, i), FrameOf(PageAt(phys, i)), FirstRun(used1, 1, limit, 1);
    ProgressParts(job, m1, used1, blocks1, i);
    ProgressReady(job, m1, used1, blocks1, i);
    RoomAfterMap(m1, root, used1, limit, DirIndex(virt), LastDir(virt, num), 0, x, frame, flags);
    MappingStep(m, m1, root, used1, virt, phys, num, flags, i, g);
    var m2, used2 := MapEntry(m1, root, x, frame, flags, g), used1 + NewTables(m1, root, x, g);
    TablesStayOn(m, m1, m2, root, used, used1);
    NewAreTablesOn(m1, m2, root, used, used1, used2);
    var new_ := if Present(Word(m1, root, DirIndex(x))) then 0 else 1;
    CountsStep(job, m1, m2, blocks1, new_);
    ProgressIs(job, m2, used2, if new_ == 0 then blocks1 else Wrap(blocks1 + 1), i + 1);
  }

  lemma ProgressParts(job: Job, m1: Memory, used1: set<nat>, blocks1: u32, i: nat)
    requires job.Progress(m1, used1, blocks1, i) && job.InBounds()
    ensures var Job(m, root, used, limit, blocks, max, virt, phys, num, flags) := job;
      && Mapping(m, m1, root, virt, phys, flags, i) && used <= used1 && TablesStay(m, m1, root, used)
      && NewAreTables(m1, root, used, used1) && Roomy(m1, root, used1, limit, DirIndex(virt), LastDir(virt, num), 0)
      && 0 <= job.Made(m1) <= Wrap(max - blocks) && blocks1 == Wrap(blocks + job.Made(m1))
      && virt + num * PAGE <= WINDOW && phys + num * PAGE <= WORD_LIMIT && phys % PAGE == 0 && limit <= FRAMES
    ensures i < job.num && job.CanMap(m1, blocks1, i) ==>
              job.virt % PAGE == 0 && Walk(m1, job.root, PageAt(job.virt, i)) == None
              && (!Present(Word(m1, job.root, DirIndex(PageAt(job.virt, i)))) ==> blocks1 != job.max)
    ensures forall m2: Memory :: job.Lacks(m2) == Missing(m2, job.root, DirIndex(job.virt), LastDir(job.virt, job.num))
  {
    hide Mapping, TablesStay, NewAreTables, Roomy, Walk, PageAt;
  }

  lemma ProgressIs(job: Job, m1: Memory, used1: set<nat>, blocks1: u32, i: nat)
    requires Mapping(job.m, m1, job.root, job.virt, job.phys, job.flags, i) && (i > 0 ==> job.virt % PAGE == 0)
    requires job.used <= used1 && TablesStay(job.m, m1, job.root, job.used)
    requires NewAreTables(m1, job.root, job.used, used1)
    requires Roomy(m1, job.root, used1, job.limit, DirIndex(job.virt), LastDir(job.virt, job.num), 0)
    requires 0 <= job.Made(m1) <= Wrap(job.max - job.blocks) && blocks1 == Wrap(job.blocks + job.Made(m1))
    ensures job.Progress(m1, used1, blocks1, i)
  {
    hide Mapping, TablesStay, NewAreTables, Roomy;
  }

  lemma CountsStep(job: Job, m1: Memory, m2: Memory, blocks1: u32, new_: nat)
    requires 0 <= job.Made(m1) <= Wrap(job.max - job.blocks) && blocks1 == Wrap(job.blocks + job.Made(m1))
    requires |job.Lacks(m2)| == |job.Lacks(m1)| - new_ && new_ <= 1 && (new_ == 1 ==> blocks1 != job.max)
    ensures 0 <= job.Made(m2) <= Wrap(job.max - job.blocks)
    ensures Wrap(job.blocks + job.Made(m2)) == if new_ == 0 then blocks1 else Wrap(blocks1 + 1)
  {
    hide Missing, Wrap;
    CountersMeet(job.blocks, job.max, job.Made(m1));
    WrapAdd(job.blocks + job.Made(m1), 1);
  }

  /** What mapping the next page asks for. */
  lemma ProgressReady(job: Job, m1: Memory, used1: set<nat>, blocks1: u32, i: nat)
    requires job.Progress(m1, used1, blocks1, i) && i < job.num && job.InBounds()
    ensures var x, y := PageAt(job.virt, i), PageAt(job.phys, i);
      && x < WINDOW && (x % PAGE == 0 <==> job.virt % PAGE == 0) && y < WORD_LIMIT && y % PAGE == 0 && !Large(job.flags)
      && Editable(m1, job.root, used1, DirIndex(x), FirstRun(used1, 1, job.limit, 1))
      && (!Present(Word(m1, job.root, DirIndex(x))) ==> 0 < FirstRun(used1, 1, job.limit, 1) < FRAMES)
      && DirIndex(job.virt) <= DirIndex(x) < LastDir(job.virt, job.num) <= ENTRIES && FrameOf(y) < FRAMES
      && (job.CanMap(m1, blocks1, i) <==>
          x % PAGE == 0 && Walk(m1, job.root, x).None?
          && !(!Present(Word(m1, job.root, DirIndex(x))) && blocks1 == job.max))
  {
    PagesWithin(job.virt, job.num, i);
    PagePlaces(job.virt, job.phys, job.num, i);
    hide Mapping, TablesStay, NewAreTables, FirstRun, PageAt, DirIndex, LastDir, Large, Roomy, Walk, Present;
    RoomForTable(m1, job.root, used1, job.limit, DirIndex(job.virt), LastDir(job.virt, job.num), 0,
      DirIndex(PageAt(job.virt, i)));
  }

  /** Where mapping stops the range cannot be mapped: a page already mapped when its turn comes was mapped before,
      and one without a table is among the missing. */
  lemma ProgressStops(job: Job, m1: Memory, used1: set<nat>, blocks1: u32, i: nat)
    requires job.Progress(m1, used1, blocks1, i) && i < job.num && job.InBounds() && !job.CanMap(m1, blocks1, i)
    ensures !job.CanMapAll()
  {
    var Job(m, root, used, limit, blocks, max, virt, phys, num, flags) := job;
    hide Walk, PagesFlagged, TablesFlagged, LastDir, Present, TablesStay, NewAreTables, Roomy, Wrap;
    var x := PageAt(virt, i);
    PagesWithin(virt, num, i);
    assert Inside(x, virt, num) && !Inside(x, virt, i) && x < WINDOW;
    assert Walk(m, root, x) == Walk(m1, root, x);
    if !Present(Word(m1, root, DirIndex(x))) {
      assert DirIndex(x) in job.Lacks(m1);
    }
    CountersMeet(blocks, max, job.Made(m1));
  }

  lemma ProgressEnds(job: Job, m1: Memory, used1: set<nat>, blocks1: u32)
    requires job.Progress(m1, used1, blocks1, job.num) && job.InBounds()
    ensures job.CanMapAll() && blocks1 == Wrap(job.blocks + |job.Lacks(job.m)|)
    ensures Mapping(job.m, m1, job.root, job.virt, job.phys, job.flags, job.num)
    ensures job.num > 0 ==> job.virt % PAGE == 0
  {
    hide Walk, TablesStay, NewAreTables, Roomy, Missing;
    MappingEnds(job.m, m1, job.root, job.virt, job.phys, job.flags, job.num);
  }

  lemma ProgressKeeps(job: Job, m1: Memory, used1: set<nat>, blocks1: u32, i: nat)
    requires job.Progress(m1, used1, blocks1, i)
    ensures job.used <= used1 && TablesStay(job.m, m1, job.root, job.used)
    ensures NewAreTables(m1, job.root, job.used, used1) && job.HasRoom(m1, used1)
  {
  }

  /** What a whole range mapped leaves, bit by bit. */
  lemma MappingEnds(m: Memory, m1: Memory, root: nat, virt: nat, phys: nat, flags: nat, num: nat)
    requires Mapping(m, m1, root, virt, phys, flags, num) && (num > 0 ==> virt % PAGE == 0)
    requires virt + num * PAGE <= WINDOW
    ensures Unmapped(m, root, virt, num) && MapsTo(m1, root, virt, phys, num) && SameOutside(m, m1, root, virt, num)
    ensures Missing(m1, root, DirIndex(virt), LastDir(virt, num)) == {}
    ensures forall j: nat, b: nat :: j < num && b < 12 ==>
              (BitOf(EntryOf(m1, root, PageAt(virt, j)), b) <==> b == 0 || BitOf(flags, b))
    ensures forall d: nat, b: nat {:trigger BitOf(Word(m1, root, d), b)} ::
              DirIndex(virt) <= d < LastDir(virt, num) && b < 12 && !Present(Word(m, root, d)) ==>
                (BitOf(Word(m1, root, d), b) <==> b < 2 || BitOf(flags, b))
    ensures forall d: nat :: d < ENTRIES && Present(Word(m, root, d)) ==> Word(m1, root, d) == Word(m, root, d)
  {
    hide Walk, HasTable, EntryOf, BitOf, Present, Word, Unmapped, MapsTo, SameOutside;
    NoneMissing(m1, root, virt, num);
    LastDirIsLow(virt, num);
    forall j: nat, b: nat | j < num && b < 12
      ensures BitOf(EntryOf(m1, root, PageAt(virt, j)), b) <==> b == 0 || BitOf(flags, b)
    {
      PageBit(m1, root, virt, num, flags, j, b);
    }
    forall d: nat, b: nat | DirIndex(virt) <= d < LastDir(virt, num) && b < 12 && !Present(Word(m, root, d))
      ensures BitOf(Word(m1, root, d), b) <==> b < 2 || BitOf(flags, b)
    {
      assert d !in Missing(m1, root, DirIndex(virt), LastDir(virt, num));
      TableBit(m, m1, root, flags, d, b);
    }
  }

  lemma PageBit(m: Memory, root: nat, virt: nat, num: nat, flags: nat, j: nat, b: nat)
    requires PagesFlagged(m, root, virt, num, flags) && j < num && b < 12
    ensures BitOf(EntryOf(m, root, PageAt(virt, j)), b) <==> b == 0 || BitOf(flags, b)
  {
    hide HasTable, EntryOf, BitOf;
    assert HasTable(m, root, DirIndex(PageAt(virt, j)));
  }

  lemma TableBit(m: Memory, m': Memory, root: nat, flags: nat, d: nat, b: nat)
    requires TablesFlagged(m, m', root, flags) && d < ENTRIES && b < 12
    requires !Present(Word(m, root, d)) && Present(Word(m', root, d))
    ensures BitOf(Word(m', root, d), b) <==> b < 2 || BitOf(flags, b)
  {
    hide Present, Word;
  }

  lemma LastDirIsLow(virt: nat, num: nat)
    requires virt + num * PAGE <= WINDOW
    ensures num > 0 ==> LastDir(virt, num) <= 1023
    ensures num == 0 ==> LastDir(virt, num) == DirIndex(virt)
  {
    if num > 0 { PagesWithin(virt, num, 0); }
  }

  // ----- fresh frames behind a range

  /** Page `i` of the range shows frame `f`. */
  ghost predicate Shows(m: Memory, root: nat, virt: nat, i: nat, f: nat) {
    forall x: nat :: x / PAGE == PageAt(virt, i) / PAGE ==> Walk(m, root, x) == Some(f * PAGE + x % PAGE)
  }

  /** The pages of the range show the given frames in order; the frames are distinct, were free in `used0`,
      are taken now and hold no table. */
  ghost predicate Backed(m: Memory, root: nat, virt: nat, frames: seq<nat>, used0: set<nat>, used: set<nat>) {
    && (forall i: nat :: i < |frames| ==> Shows(m, root, virt, i, frames[i]))
    && (forall i: nat :: i < |frames| ==> frames[i] !in used0 && frames[i] in used && !IsTable(m, root, frames[i]))
    && (forall i: nat, j: nat :: i < j < |frames| ==> frames[i] != frames[j])
  }

  lemma PagesDiffer(virt: nat, i: nat, j: nat)
    requires i < j
    ensures PageAt(virt, i) / PAGE < PageAt(virt, j) / PAGE && PageAt(virt, i) <= PageAt(virt, j)
  {
  }

  lemma BackOneMore(m1: Memory, m2: Memory, root: nat, virt: nat, frames: seq<nat>, f: nat,
      used0: set<nat>, used1: set<nat>, used2: set<nat>)
    requires Backed(m1, root, virt, frames, used0, used1) && used0 <= used1
    requires f !in used1 && used1 + {f} <= used2 && !IsTable(m1, root, f) && TablesStay(m1, m2, root, used1 + {f})
    requires PageAt(virt, |frames|) < WINDOW && SameElsewhere(m1, m2, root, PageAt(virt, |frames|) / PAGE)
    requires Shows(m2, root, virt, |frames|, f)
    ensures Backed(m2, root, virt, frames + [f], used0, used2)
  {
    hide Walk, PageAt, IsTable;
    var fs := frames + [f];
    forall i: nat | i < |fs| ensures Shows(m2, root, virt, i, fs[i]) {
      if i < |frames| {
        assert Shows(m1, root, virt, i, frames[i]);
        ShowsStill(m1, m2, root, virt, i, |frames|, frames[i]);
      }
    }
    forall i: nat | i < |fs| ensures fs[i] !in used0 && fs[i] in used2 && !IsTable(m2, root, fs[i]) {
      assert IsTable(m2, root, fs[i]) <==> IsTable(m1, root, fs[i]);
    }
  }

  lemma ShowsStill(m1: Memory, m2: Memory, root: nat, virt: nat, i: nat, n: nat, f: nat)
    requires i < n && Shows(m1, root, virt, i, f) && PageAt(virt, n) < WINDOW
        && SameElsewhere(m1, m2, root, PageAt(virt, n) / PAGE)
    ensures Shows(m2, root, virt, i, f)
  {
    hide Walk;
    PagesDiffer(virt, i, n);
    forall x: nat | x / PAGE == PageAt(virt, i) / PAGE ensures Walk(m2, root, x) == Some(f * PAGE + x % PAGE) {
      assert x < WINDOW;
      assert Walk(m1, root, x) == Some(f * PAGE + x % PAGE);
    }
  }

  lemma SameOneMore(m: Memory, m1: Memory, m2: Memory, root: nat, virt: nat, i: nat)
    requires virt % PAGE == 0 && SameOutside(m, m1, root, virt, i)
        && SameElsewhere(m1, m2, root, PageAt(virt, i) / PAGE)
    ensures SameOutside(m, m2, root, virt, i + 1)
  {
    hide Walk;
    forall x: nat | x < WINDOW && !Inside(x, virt, i + 1) ensures Walk(m2, root, x) == Walk(m, root, x) {
      NotInside(x, virt, i);
    }
  }

  lemma NotInside(x: nat, virt: nat, i: nat)
    requires virt % PAGE == 0 && !Inside(x, virt, i + 1)
    ensures !Inside(x, virt, i) && x / PAGE != PageAt(virt, i) / PAGE
  {
  }

  lemma FreeIsNoTable(m: Memory, root: nat, used: set<nat>, f: nat)
    requires SelfMapped(m, root, used) && f !in used
    ensures !IsTable(m, root, f)
  {
  }

  /** The single frame an allocation finds is free; taking it keeps the tables marked. */
  lemma FreshFrame(m: Memory, root: nat, used: set<nat>, limit: nat)
    requires SelfMapped(m, root, used) && limit <= FRAMES && FirstRun(used, 1, limit, 1) != 0
    ensures var f := FirstRun(used, 1, limit, 1);
      f < FRAMES && f !in used && !IsTable(m, root, f) && SelfMapped(m, root, used + {f})
  {
    FirstRunIsLowest(used, 1, limit, 1);
    var f := FirstRun(used, 1, limit, 1);
    assert FreeRun(used, f, 1) && f !in used;
    FreeIsNoTable(m, root, used, f);
  }

  /** One round of `paging_alloc_pages`, once frame `f` is taken: the frame goes behind the next page. */
  lemma BackStep(m: Memory, m1: Memory, root: nat, virt: nat, frames: seq<nat>, used0: set<nat>, used1: set<nat>,
      f: nat, limit: nat, lo: nat, hi: nat, extra: nat, flags: nat)
    requires var x := PageAt(virt, |frames|);
      virt % PAGE == 0 && x < WINDOW && lo <= DirIndex(x) < hi <= ENTRIES && limit <= FRAMES && !Large(flags)
    requires SelfMapped(m1, root, used1 + {f}) && used0 <= used1 && f < FRAMES && f !in used1 && !IsTable(m1, root, f)
    requires Backed(m1, root, virt, frames, used0, used1) && SameOutside(m, m1, root, virt, |frames|)
    requires Roomy(m1, root, used1 + {f}, limit, lo, hi, extra)
    ensures var x, g := PageAt(virt, |frames|), FirstRun(used1 + {f}, 1, limit, 1);
      && Editable(m1, root, used1 + {f}, DirIndex(x), g)
      && var m2, used2 := MapEntry(m1, root, x, f, flags, g), used1 + {f} + NewTables(m1, root, x, g);
      && Backed(m2, root, virt, frames + [f], used0, used2)
      && SameOutside(m, m2, root, virt, |frames| + 1)
      && Roomy(m2, root, used2, limit, lo, hi, extra)
  {
    hide Walk, SelfMapped, Backed, SameOutside, Roomy, MapEntry, Shows, Large, FirstRun, TablesStay, IsTable,
        SameElsewhere;
    var x, used := PageAt(virt, |frames|), used1 + {f};
    var g := FirstRun(used, 1, limit, 1);
    RoomAfterMap(m1, root, used, limit, lo, hi, extra, x, f, flags);
    MapEntryTranslates(m1, root, used, x, f, flags, g);
    MapEntryTables(m1, root, used, x, f, flags, g);
    var m2, used2 := MapEntry(m1, root, x, f, flags, g), used + NewTables(m1, root, x, g);
    ShowsAre(m2, root, virt, |frames|, f);
    BackOneMore(m1, m2, root, virt, frames, f, used0, used1, used2);
    SameOneMore(m, m1, m2, root, virt, |frames|);
  }

  lemma ShowsAre(m: Memory, root: nat, virt: nat, i: nat, f: nat)
    requires forall x: nat :: x / PAGE == PageAt(virt, i) / PAGE ==> Walk(m, root, x) == Some(f * PAGE + x % PAGE)
    ensures Shows(m, root, virt, i, f)
  {
  }

  /** The page at `virt` has been given the lowest free frame, and its table, if it needs one, the next. */
  ghost predicate BackedOne(m: Memory, used: set<nat>, m': Memory, used': set<nat>, root: nat, limit: nat, virt: nat,
      frame: nat, flags: nat)
  {
    && virt % PAGE == 0 && frame == FirstRun(used, 1, limit, 1) && 0 < frame < FRAMES && frame !in used
    && var g := FirstRun(used + {frame}, 1, limit, 1);
    && Editable(m, root, used + {frame}, DirIndex(virt), g)
    && m' == MapEntry(m, root, virt, frame, flags, g) && used' == used + {frame} + NewTables(m, root, virt, g)
  }

  lemma BackedOneMeans(m: Memory, used: set<nat>, m': Memory, used': set<nat>, root: nat, limit: nat, virt: nat,
      frame: nat, flags: nat)
    requires BackedOne(m, used, m', used', root, limit, virt, frame, flags)
    ensures virt % PAGE == 0 && frame == FirstRun(used, 1, limit, 1) && 0 < frame < FRAMES && frame !in used
    ensures var g := FirstRun(used + {frame}, 1, limit, 1);
      && Editable(m, root, used + {frame}, DirIndex(virt), g)
      && m' == MapEntry(m, root, virt, frame, flags, g) && used' == used + {frame} + NewTables(m, root, virt, g)
  {
  }

  lemma BackedOneIs(m: Memory, used: set<nat>, m': Memory, used': set<nat>, root: nat, limit: nat, virt: nat,
      frame: nat, flags: nat, g: nat)
    requires virt % PAGE == 0 && frame == FirstRun(used, 1, limit, 1) && 0 < frame < FRAMES && frame !in used
    requires g == FirstRun(used + {frame}, 1, limit, 1) && Editable(m, root, used + {frame}, DirIndex(virt), g)
    requires m' == MapEntry(m, root, virt, frame, flags, g) && used' == used + {frame} + NewTables(m, root, virt, g)
    ensures BackedOne(m, used, m', used', root, limit, virt, frame, flags)
  {
  }

  /** Pages to back with fresh frames, and the state that starts from. */
  datatype Fill = Fill(m: Memory, root: nat, used: set<nat>, limit: nat, blocks: u32, max: u32,
                       virt: nat, size: nat, flags: nat)
  {
    ghost function Lacks(m1: Memory): nat { |Missing(m1, root, DirIndex(virt), LastDir(virt, size))| }

    /** The frames the counters leave. */
    ghost function Left(): nat { Wrap(max - blocks) }

    /** The frames the scan finds. */
    ghost function Free(used1: set<nat>): nat { |FreeFrames(used1, limit)| }

    /** The frames taken for `i` pages and the tables made. */
    ghost function Spent(m1: Memory, i: nat): int { i + Lacks(m) - Lacks(m1) }

    ghost predicate InBounds() { virt + size * PAGE <= WINDOW && !Large(flags) && limit <= FRAMES }

    ghost predicate HasRoom(m1: Memory, used1: set<nat>, i: nat)
      requires i <= size
    {
      Roomy(m1, root, used1, limit, DirIndex(virt), LastDir(virt, size), size - i)
    }

    ghost predicate Counted(m1: Memory, used1: set<nat>, blocks1: u32, i: nat) {
      && 0 <= Spent(m1, i) <= Left() && (i == 0 ==> Spent(m1, i) == 0)
      && blocks1 == Wrap(blocks + Spent(m1, i)) && Free(used1) == Free(used) - Spent(m1, i)
    }

    /** All that holds when the frames are behind the first pages. */
    ghost predicate Progress(m1: Memory, used1: set<nat>, blocks1: u32, frames: seq<nat>) {
      && |frames| <= size && (frames != [] ==> virt % PAGE == 0) && used <= used1
      && Backed(m1, root, virt, frames, used, used1) && SameOutside(m, m1, root, virt, |frames|)
      && PagesFlagged(m1, root, virt, |frames|, flags) && TablesFlagged(m, m1, root, flags)
      && HasRoom(m1, used1, |frames|) && Counted(m1, used1, blocks1, |frames|)
    }

    /** The counters meet too early, or a page that is none asks for an entry. */
    ghost predicate Aborts() {
      size > 0 && if virt % PAGE == 0 then Left() < size + Lacks(m) && Left() <= Free(used)
                  else Left() == 0 || Free(used) > 0
    }

    /** The scan finds no more frames. */
    ghost predicate RunsOut() {
      size > 0 && if virt % PAGE == 0 then Free(used) < size + Lacks(m) && Free(used) < Left()
                  else Left() > 0 && Free(used) == 0
    }
  }

  lemma FillStarts(fill: Fill)
    requires fill.HasRoom(fill.m, fill.used, 0)
    ensures fill.Progress(fill.m, fill.used, fill.blocks, [])
  {
    hide Walk, IsTable, Roomy, Missing, FreeFrames;
    WrapSame(fill.blocks);
  }

  lemma FrameFoundExactly(used: set<nat>, limit: nat)
    ensures FirstRun(used, 1, limit, 1) == 0 <==> |FreeFrames(used, limit)| == 0
  {
    hide FirstRun;
    LowestFrame(used, limit);
    if |FreeFrames(used, limit)| > 0 {
      FrameFound(used, limit);
    }
    assert FirstRun(used, 1, limit, 1) != 0 ==> FirstRun(used, 1, limit, 1) in FreeFrames(used, limit);
  }

  /** What the next page asks for and costs. */
  lemma FillReady(fill: Fill, m1: Memory, used1: set<nat>, blocks1: u32, frames: seq<nat>)
    requires fill.Progress(m1, used1, blocks1, frames) && |frames| < fill.size && fill.InBounds()
    ensures var x, f := PageAt(fill.virt, |frames|), FirstRun(used1, 1, fill.limit, 1);
      && x < WINDOW && (x % PAGE == 0 <==> fill.virt % PAGE == 0)
      && DirIndex(fill.virt) <= DirIndex(x) < LastDir(fill.virt, fill.size) <= ENTRIES
      && (f == 0 <==> fill.Free(used1) == 0)
      && (!Present(Word(m1, fill.root, DirIndex(x))) ==> fill.Lacks(m1) > 0 && fill.Free(used1) >= 2)
  {
    var x := PageAt(fill.virt, |frames|);
    PagesWithin(fill.virt, fill.size, |frames|);
    FrameFoundExactly(used1, fill.limit);
    hide Backed, SameOutside, PagesFlagged, TablesFlagged, FreeFrames, FirstRun, Present, LastDir;
    if !Present(Word(m1, fill.root, DirIndex(x))) {
      assert DirIndex(x) in Missing(m1, fill.root, DirIndex(fill.virt), LastDir(fill.virt, fill.size));
    }
  }

  lemma FillParts(fill: Fill, m1: Memory, used1: set<nat>, blocks1: u32, frames: seq<nat>)
    requires fill.Progress(m1, used1, blocks1, frames) && |frames| < fill.size && fill.InBounds()
    ensures var Fill(m, root, used, limit, blocks, max, virt, size, flags) := fill;
      && used <= used1 && Backed(m1, root, virt, frames, used, used1) && SameOutside(m, m1, root, virt, |frames|)
      && PagesFlagged(m1, root, virt, |frames|, flags) && TablesFlagged(m, m1, root, flags)
      && Roomy(m1, root, used1, limit, DirIndex(virt), LastDir(virt, size), size - |frames|)
      && fill.Counted(m1, used1, blocks1, |frames|) && !Large(flags) && limit <= FRAMES
    ensures forall u: set<nat> :: fill.Free(u) == |FreeFrames(u, fill.limit)|
    ensures forall m2: Memory ::
              fill.Lacks(m2) == |Missing(m2, fill.root, DirIndex(fill.virt), LastDir(fill.virt, fill.size))|
  {
    hide Backed, SameOutside, PagesFlagged, TablesFlagged, Roomy, Missing, FreeFrames, LastDir, DirIndex;
  }

  lemma FillIs(fill: Fill, m1: Memory, used1: set<nat>, blocks1: u32, frames: seq<nat>)
    requires |frames| <= fill.size && (frames != [] ==> fill.virt % PAGE == 0) && fill.used <= used1
    requires Backed(m1, fill.root, fill.virt, frames, fill.used, used1)
    requires SameOutside(fill.m, m1, fill.root, fill.virt, |frames|)
    requires PagesFlagged(m1, fill.root, fill.virt, |frames|, fill.flags)
    requires TablesFlagged(fill.m, m1, fill.root, fill.flags)
    requires Roomy(m1, fill.root, used1, fill.limit, DirIndex(fill.virt), LastDir(fill.virt, fill.size),
                   fill.size - |frames|)
    requires fill.Counted(m1, used1, blocks1, |frames|)
    ensures fill.Progress(m1, used1, blocks1, frames)
  {
    hide Backed, SameOutside, PagesFlagged, TablesFlagged, Roomy, LastDir, DirIndex, Fill.Counted;
  }

  lemma FillCounts(fill: Fill, m1: Memory, used1: set<nat>, blocks1: u32, m2: Memory, used2: set<nat>, i: nat,
      new_: nat)
    requires fill.Counted(m1, used1, blocks1, i) && blocks1 != fill.max && new_ <= 1
    requires new_ == 1 ==> Wrap(blocks1 + 1) != fill.max
    requires fill.Lacks(m2) == fill.Lacks(m1) - new_ && fill.Free(used2) == fill.Free(used1) - 1 - new_
    ensures fill.Counted(m2, used2, Wrap(blocks1 + 1 + new_), i + 1)
  {
    hide Missing, FreeFrames, Wrap;
    var spent := fill.Spent(m1, i);
    CountersMeet(fill.blocks, fill.max, spent);
    WrapAdd(fill.blocks + spent, 1);
    WrapAdd(fill.blocks + spent, 1 + new_);
    if spent < fill.Left() { CountersMeet(fill.blocks, fill.max, spent + 1); }
  }

  lemma EditableFrame(m: Memory, root: nat, used: set<nat>, d: nat, g: nat)
    requires Editable(m, root, used, d, g)
    ensures !Present(Word(m, root, d)) ==> g < FRAMES
  {
  }

  lemma FramesTaken(m: Memory, root: nat, used: set<nat>, limit: nat, x: nat)
    requires FirstRun(used, 1, limit, 1) != 0
    requires !Present(Word(m, root, DirIndex(x))) ==> |FreeFrames(used, limit)| >= 2
    ensures var f := FirstRun(used, 1, limit, 1);
      var g := FirstRun(used + {f}, 1, limit, 1);
      |FreeFrames(used + {f} + NewTables(m, root, x, g), limit)|
      == |FreeFrames(used, limit)| - (if Present(Word(m, root, DirIndex(x))) then 1 else 2)
  {
    hide FirstRun, FreeFrames, Present;
    var f := FirstRun(used, 1, limit, 1);
    FrameFoundExactly(used, limit);
    FrameFound(used, limit);
    if Present(Word(m, root, DirIndex(x))) {
      assert used + {f} + {} == used + {f};
    } else {
      FrameFound(used + {f}, limit);
    }
  }

  /** One more page backed. */
  lemma FillStep(fill: Fill, m1: Memory, used1: set<nat>, blocks1: u32, frames: seq<nat>)
    requires fill.Progress(m1, used1, blocks1, frames) && |frames| < fill.size && fill.InBounds()
    requires SelfMapped(m1, fill.root, used1) && fill.virt % PAGE == 0 && FirstRun(used1, 1, fill.limit, 1) != 0
    requires blocks1 != fill.max
    requires !Present(Word(m1, fill.root, DirIndex(PageAt(fill.virt, |frames|)))) ==> Wrap(blocks1 + 1) != fill.max
    ensures var x, f := PageAt(fill.virt, |frames|), FirstRun(used1, 1, fill.limit, 1);
      var g := FirstRun(used1 + {f}, 1, fill.limit, 1);
      && f < FRAMES && Editable(m1, fill.root, used1 + {f}, DirIndex(x), g)
      && fill.Progress(MapEntry(m1, fill.root, x, f, fill.flags, g), used1 + {f} + NewTables(m1, fill.root, x, g),
                       Wrap(blocks1 + 1 + if Present(Word(m1, fill.root, DirIndex(x))) then 0 else 1), frames + [f])
  {
    hide *;
    var Fill(m, root, used, limit, blocks, max, virt, size, flags) := fill;
    var i := |frames|;
    var x, f := PageAt(virt, i), FirstRun(used1, 1, limit, 1);
    var g := FirstRun(used1 + {f}, 1, limit, 1);
    FillParts(fill, m1, used1, blocks1, frames);
    FillReady(fill, m1, used1, blocks1, frames);
    FreshFrame(m1, root, used1, limit);
    RoomAfterTake(m1, root, used1, limit, DirIndex(virt), LastDir(virt, size), size - i);
    BackStep(m, m1, root, virt, frames, used, used1, f, limit, DirIndex(virt), LastDir(virt, size), size - i - 1,
      flags);
    RoomAfterMap(m1, root, used1 + {f}, limit, DirIndex(virt), LastDir(virt, size), size - i - 1, x, f, flags);
    EditableFrame(m1, root, used1 + {f}, DirIndex(x), g);
    var new_ := if Present(Word(m1, root, DirIndex(x))) then 0 else 1;
    FramesTaken(m1, root, used1, limit, x);
    PagesFlaggedNext(m1, root, used1 + {f}, virt, i, f, flags, g);
    TablesFlaggedNext(m, m1, root, used1 + {f}, x, f, flags, g);
    var m2, used2 := MapEntry(m1, root, x, f, flags, g), used1 + {f} + NewTables(m1, root, x, g);
    FillCounts(fill, m1, used1, blocks1, m2, used2, i, new_);
    FillIs(fill, m2, used2, Wrap(blocks1 + 1 + new_), frames + [f]);
  }

  lemma FillMeans(fill: Fill)
    ensures var left, free := Wrap(fill.max - fill.blocks), |FreeFrames(fill.used, fill.limit)|;
      var needed := fill.size + |Missing(fill.m, fill.root, DirIndex(fill.virt), LastDir(fill.virt, fill.size))|;
      && (fill.Aborts() <==>
          fill.size > 0 && if fill.virt % PAGE == 0 then left < needed && left <= free else left == 0 || free > 0)
      && (fill.RunsOut() <==>
          fill.size > 0 && if fill.virt % PAGE == 0 then free < needed && free < left else left > 0 && free == 0)
  {
    hide FreeFrames, Missing, Wrap, LastDir, DirIndex;
  }

  /** What the backed pages look like. With the flags 6, present, writable and open to the user. */
  lemma FillLeaves(fill: Fill, m1: Memory, used1: set<nat>, blocks1: u32, frames: seq<nat>)
    requires fill.Progress(m1, used1, blocks1, frames)
    ensures Backed(m1, fill.root, fill.virt, frames, fill.used, used1)
    ensures SameOutside(fill.m, m1, fill.root, fill.virt, |frames|) && |frames| <= fill.size
    ensures fill.flags == 6 ==>
              forall j: nat, b: nat {:trigger BitOf(EntryOf(m1, fill.root, PageAt(fill.virt, j)), b)} ::
                j < |frames| && b < 12 ==> (BitOf(EntryOf(m1, fill.root, PageAt(fill.virt, j)), b) <==> b < 3)
  {
    hide Backed, SameOutside, TablesFlagged, Roomy, Fill.Counted, EntryOf, HasTable;
    forall j: nat, b: nat {:trigger BitOf(EntryOf(m1, fill.root, PageAt(fill.virt, j)), b)}
      | fill.flags == 6 && j < |frames| && b < 12
      ensures BitOf(EntryOf(m1, fill.root, PageAt(fill.virt, j)), b) <==> b < 3
    {
      PageBit(m1, fill.root, fill.virt, |frames|, fill.flags, j, b);
      SixHas(b);
    }
  }

  lemma SixHas(b: nat)
    requires b < 12
    ensures b == 0 || BitOf(6, b) <==> b < 3
    ensures b == 0 || BitOf(2, b) <==> b < 2
  {
    SmallBits(b);
  }

  lemma SmallBits(b: nat)
    ensures !BitAt(0, b) && (BitAt(1, b) <==> b == 0) && (BitAt(2, b) <==> b == 1) && (BitAt(3, b) <==> b < 2)
    ensures BitAt(6, b) <==> b == 1 || b == 2
    decreases b
  {
    if b > 0 {
      SmallBits(b - 1);
    }
  }

  /** Where a page cannot be backed, the whole range cannot, for the same reason. */
  lemma FillStops(fill: Fill, m1: Memory, used1: set<nat>, blocks1: u32, frames: seq<nat>)
    requires fill.Progress(m1, used1, blocks1, frames) && |frames| < fill.size && fill.InBounds()
    ensures var needs := !Present(Word(m1, fill.root, DirIndex(PageAt(fill.virt, |frames|))));
      var f := FirstRun(used1, 1, fill.limit, 1);
      && (blocks1 == fill.max
          || (f != 0 && (fill.virt % PAGE != 0 || (needs && Wrap(blocks1 + 1) == fill.max))) ==>
            fill.Aborts() && !fill.RunsOut())
      && (blocks1 != fill.max && f == 0 ==> fill.RunsOut() && !fill.Aborts())
  {
    FillReady(fill, m1, used1, blocks1, frames);
    hide Backed, SameOutside, PagesFlagged, TablesFlagged, Roomy, Missing, FreeFrames, FirstRun, Present, LastDir, Wrap;
    var spent := fill.Spent(m1, |frames|);
    CountersMeet(fill.blocks, fill.max, spent);
    WrapAdd(fill.blocks + spent, 1);
    if spent < fill.Left() { CountersMeet(fill.blocks, fill.max, spent + 1); }
  }

  lemma FillEnds(fill: Fill, m1: Memory, used1: set<nat>, blocks1: u32, frames: seq<nat>)
    requires fill.Progress(m1, used1, blocks1, frames) && |frames| == fill.size
    ensures !fill.Aborts() && !fill.RunsOut() && blocks1 == Wrap(fill.blocks + fill.size + fill.Lacks(fill.m))
  {
    hide Walk, HasTable, EntryOf, BitOf, FreeFrames, IsTable, Roomy;
    NoneMissing(m1, fill.root, fill.virt, fill.size);
  }

  // ----- a table with nothing in it

  /** A directory in frame 5 that maps itself and names one table, frame 6, in which nothing is mapped. */
  const EMPTY_TABLE: Memory := map[(5, 1023) := 5 * PAGE + 3, (5, 0) := 6 * PAGE + 3]

  /** There no address of the first table is mapped and every entry is 0: asked for the physical address of
      0x123, the code answers 0x123; told to unmap page 0, it gives frame 0 back. */
  lemma EmptyTableAnswers()
    ensures SelfMapped(EMPTY_TABLE, 5, {0, 5, 6}) && HasTable(EMPTY_TABLE, 5, DirIndex(0x123))
    ensures Walk(EMPTY_TABLE, 5, 0x123) == None && EntryOf(EMPTY_TABLE, 5, 0x123) == 0 == EntryOf(EMPTY_TABLE, 5, 0)
  {
    assert (5 * PAGE + 3) / 128 == 160 && (6 * PAGE + 3) / 128 == 192;
    assert forall d: nat :: HasTable(EMPTY_TABLE, 5, d) ==> d == 0 || d == 1023;
  }
}
