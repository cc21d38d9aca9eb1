/** The kernel heap as an address-ordered list of blocks: what `aligned_alloc` and `kfree`
    do to it, and what every run of the two keeps. */
module HeapModel {
  import opened Arith

  const HEADER: nat := 8        // offsetof(mem_block_t, data)
  const STRUCT_SIZE: nat := 12  // sizeof(mem_block_t), one padded data byte included
  const MIN_ALIGN: nat := 4
  const HEAP_BEGIN: nat := 0xC040_0000
  const HEAP_SIZE: nat := 0x1E0_0000
  const HEAP_LIMIT: nat := HEAP_BEGIN + HEAP_SIZE
  const MAX_ALIGN: nat := 0x3DDF_FFE0  // up to here no address near the heap wraps when it is rounded

  datatype Block = Block(addr: nat, size: nat, used: bool) {
    function Data(): nat { addr + HEADER }
    function PayloadEnd(): nat { addr + HEADER + size }
    // Where the allocator believes the block ends: four bytes past its payload.
    function End(): nat { addr + STRUCT_SIZE + size }
  }

  // No blocks at all is the state before the first allocation.
  datatype HeapState = HeapState(blocks: seq<Block>, usedMemory: nat)

  datatype AllocResult =
    | Allocated(state: HeapState, ptr: nat)
    | OutOfMemory(state: HeapState)  // the kernel logs and aborts

  /** Every power of two is a valid alignment, and so is every multiple of four. */
  predicate ValidAlign(align: nat) {
    align > 0 && MeetsWords(align)
  }

  predicate MeetsWords(align: nat)
    requires align > 0
  {
    align % 4 == 0 || 4 % align == 0
  }

  /** The request leaves the 32-bit limit check free of wrap-around in every heap state. */
  predicate FitsAddressSpace(size: nat, align: nat) {
    size + align <= MAX_ALIGN
  }

  // ----- the operations

  /** `mem_is_aligned`. */
  predicate IsAligned(addr: nat, align: nat)
    requires align > 0
  {
    addr % align == 0
  }

  predicate Fits(b: Block, size: nat, align: nat)
    requires align > 0
  {
    b.size >= size && !b.used && IsAligned(b.Data(), align)
  }

  /** The index of the first fitting block at or after `i`, or `|h|`. */
  function FirstFit(h: seq<Block>, size: nat, align: nat, i: nat): (k: nat)
    requires align > 0 && i <= |h|
    ensures i <= k <= |h|
    decreases |h| - i
  {
    if i == |h| || Fits(h[i], size, align) then i else FirstFit(h, size, align, i + 1)
  }

  function Top(h: seq<Block>): Block
    requires |h| > 0
  {
    h[|h| - 1]
  }

  function Rounded(addr: nat, align: nat): u32
    requires align > 0
  {
    Wrap(AlignTo(addr + HEADER, align) - HEADER)
  }

  /** `mem_new_block`: one block, preceded by a free filler when the alignment leaves room for it. */
  function Append(h: seq<Block>, size: nat, align: nat): seq<Block>
    requires |h| > 0 && align > 0
  {
    Extend(h, Rounded(Top(h).End(), MIN_ALIGN), Rounded(Top(h).End(), align), size)
  }

  /** The distance to the aligned address is an unsigned one. */
  function Extend(h: seq<Block>, next: nat, nextAligned: nat, size: nat): seq<Block> {
    var gap := Wrap(nextAligned - next);
    var block := Block(nextAligned, size, true);
    if gap > STRUCT_SIZE + MIN_ALIGN then h + [OfWord(next, gap - STRUCT_SIZE), block] else h + [block]
  }

  /** The block whose size word holds `word`. */
  function OfWord(addr: nat, word: nat): Block { Block(addr, word - word % 2, word % 2 == 1) }

  function Init(s: HeapState): HeapState {
    if s.blocks == [] then s.(blocks := [Block(HEAP_BEGIN, 0, true)]) else s
  }

  function NewEnd(h: seq<Block>, size: nat, align: nat): nat
    requires |h| > 0 && align > 0
  {
    (AlignTo(Top(h).End() + HEADER, align) + size) % WORD_LIMIT
  }

  /** `aligned_alloc`. */
  function Alloc(s: HeapState, request: nat, align: nat): AllocResult
    requires align > 0
  {
    var size := AlignTo(request, 8);
    var s1 := Init(s);
    var h := s1.blocks;
    var k := FirstFit(h, size, align, 0);
    if k < |h| then
      Allocated(HeapState(h[k := h[k].(used := true)], (s1.usedMemory + h[k].size) % WORD_LIMIT), h[k].Data())
    else if NewEnd(h, size, align) > HEAP_LIMIT then
      OutOfMemory(s1)
    else
      var h' := Append(h, size, align);
      Allocated(HeapState(h', (s1.usedMemory + size) % WORD_LIMIT), Top(h').Data())
  }

  /** The block whose payload starts at `p`. */
  predicate Holds(h: seq<Block>, p: nat, k: nat) {
    0 < k < |h| && h[k].used && h[k].Data() == p
  }

  /** The index of the block whose payload starts at `p`. */
  function Find(h: seq<Block>, p: nat): (k: nat)
    ensures k <= |h| && (k < |h| ==> h[k].Data() == p)
  {
    if h == [] then 0
    else if Top(h).Data() == p then |h| - 1
    else var k := Find(h[..|h| - 1], p); if k < |h| - 1 then k else |h|
  }

  function Release(s: HeapState, k: nat): HeapState
    requires k < |s.blocks|
  {
    HeapState(s.blocks[k := s.blocks[k].(used := false)],
              (s.usedMemory - s.blocks[k].size) % WORD_LIMIT)
  }

  // ----- the heap invariant

  // Blocks follow each other, and a gap large enough for a filler never stays.
  predicate Adjacent(h: seq<Block>, i: nat)
    requires i + 1 < |h|
  {
    h[i].End() <= h[i + 1].addr <= h[i].End() + STRUCT_SIZE + MIN_ALIGN
  }

  predicate InBounds(b: Block) {
    b.addr % 4 == 0 && b.size % 4 == 0 && b.PayloadEnd() <= HEAP_LIMIT
  }

  ghost predicate Wellplaced(h: seq<Block>) {
    && |h| > 0 && h[0] == Block(HEAP_BEGIN, 0, true)
    && (forall i :: 0 <= i < |h| ==> InBounds(h[i]))
    && (forall i: nat :: i + 1 < |h| ==> Adjacent(h, i))
  }

  function SumUsed(h: seq<Block>): nat {
    if h == [] then 0
    else SumUsed(h[..|h| - 1]) + if h[|h| - 1].used then h[|h| - 1].size else 0
  }

  ghost predicate Valid(s: HeapState) {
    && s.usedMemory == SumUsed(s.blocks)
    && (s.blocks != [] ==> Wellplaced(s.blocks))
  }

  // ----- geometry

  lemma {:induction false} Ordered(h: seq<Block>, i: nat, j: nat)
    requires Wellplaced(h) && i < j < |h|
    ensures h[i].End() <= h[j].addr
    decreases j
  {
    assert Adjacent(h, j - 1);
    if j > i + 1 { Ordered(h, i, j - 1); }
  }

  /** Headers and payloads of different blocks never share a byte. */
  lemma BlocksDisjoint(h: seq<Block>, i: nat, j: nat, a: nat)
    requires Wellplaced(h) && i < |h| && j < |h|
    requires h[i].addr <= a < h[i].PayloadEnd() && h[j].addr <= a < h[j].PayloadEnd()
    ensures i == j
  {
    if i < j { Ordered(h, i, j); } else if j < i { Ordered(h, j, i); }
  }

  lemma InsideHeap(h: seq<Block>, k: nat)
    requires Wellplaced(h) && k < |h|
    ensures HEAP_BEGIN <= h[k].addr && h[k].PayloadEnd() <= HEAP_LIMIT
  {
    assert InBounds(h[k]);
    if k > 0 { Ordered(h, 0, k); }
  }

  lemma SameStart(h: seq<Block>, i: nat, j: nat)
    requires Wellplaced(h) && i < |h| && j < |h| && h[i].addr == h[j].addr
    ensures i == j
  {
    BlocksDisjoint(h, i, j, h[i].addr);
  }

  lemma {:induction false} SumBound(h: seq<Block>, n: nat)
    requires Wellplaced(h) && 0 < n <= |h|
    ensures SumUsed(h[..n]) <= h[n - 1].End() - HEAP_BEGIN
  {
    assert h[..n][..n - 1] == h[..n - 1];
    if n > 1 {
      assert Adjacent(h, n - 2);
      SumBound(h, n - 1); } else { assert SumUsed(h[..0]) == 0; }
  }

  lemma {:induction false} SumUpdate(h: seq<Block>, k: nat, b: Block)
    requires k < |h|
    ensures SumUsed(h[k := b]) == SumUsed(h) - (if h[k].used then h[k].size else 0) + (if b.used then b.size else 0)
  {
    var n := |h| - 1;
    if k == n {
      assert h[k := b][..n] == h[..n];
    } else {
      assert h[k := b][..n] == h[..n][k := b];
      SumUpdate(h[..n], k, b);
    }
  }

  lemma SumAppend(h: seq<Block>, b: Block)
    ensures SumUsed(h + [b]) == SumUsed(h) + if b.used then b.size else 0
  {
    assert (h + [b])[..|h|] == h;
  }

  // ----- the search

  lemma FindFinds(h: seq<Block>, p: nat, k: nat)
    requires Wellplaced(h) && k < |h| && h[k].Data() == p
    ensures Find(h, p) == k
  {
    var j := Find(h, p);
    FindComplete(h, p, k);
    SameStart(h, j, k);
  }

  lemma {:induction false} FindComplete(h: seq<Block>, p: nat, k: nat)
    requires k < |h| && h[k].Data() == p
    ensures Find(h, p) < |h|
  {
    if Top(h).Data() != p {
      assert h[..|h| - 1][k] == h[k];
      FindComplete(h[..|h| - 1], p, k);
    }
  }

  lemma {:induction false} FirstFitIsFirst(h: seq<Block>, size: nat, align: nat, i: nat)
    requires align > 0 && i <= |h|
    ensures var k := FirstFit(h, size, align, i);
      && (k < |h| ==> Fits(h[k], size, align))
      && (forall j :: i <= j < k ==> !Fits(h[j], size, align))
    ensures var k := FirstFit(h, size, align, i);
      && (k < |h| ==> size <= h[k].size && !h[k].used && (h[k].addr + 8) % align == 0)
      && (forall j :: i <= j < k ==> h[j].size < size || h[j].used || (h[j].addr + 8) % align != 0)
    decreases |h| - i
  {
    if i < |h| && !Fits(h[i], size, align) { FirstFitIsFirst(h, size, align, i + 1); }
  }

  // ----- appending a block

  lemma SmallAlignIsExact(n: nat, align: nat)
    requires n % 4 == 0 && (align == 1 || align == 2)
    ensures AlignTo(n, align) == n
  {
    assert n == 2 * (2 * (n / 4));
  }

  lemma AlignToKeepsWords(n: nat, align: nat)
    requires ValidAlign(align) && n % 4 == 0 && n + align <= WORD_LIMIT
    ensures AlignTo(n, align) % 4 == 0
  {
    hide AlignTo;
    if align % 4 == 0 {
      AlignToIsMultiple(n, align);
      MultipleOfMultiple(AlignTo(n, align), align, 4);
    } else {
      assert align == 1 || align == 2;
      SmallAlignIsExact(n, align);
    }
  }

  lemma RoundedFacts(addr: nat, align: nat)
    requires ValidAlign(align) && addr % 4 == 0 && addr + HEADER + align <= WORD_LIMIT
    ensures addr <= Rounded(addr, align) < addr + align
    ensures AlignTo(addr + HEADER, align) == Rounded(addr, align) + HEADER
    ensures Rounded(addr, align) % 4 == 0
    ensures (Rounded(addr, align) + HEADER) % align == 0
  {
    var n := addr + HEADER;
    var to := AlignTo(n, align);
    AlignToIsMultiple(n, align);
    AlignToKeepsWords(n, align);
    WrapSame(to - HEADER);
    TwoWordsLess(to);
    hide MeetsWords, AlignTo, Wrap;
  }

  lemma TwoWordsLess(n: int)
    requires n % 4 == 0
    ensures (n - HEADER) % 4 == 0
  {
  }

  lemma RoundedToWords(addr: nat)
    requires addr % 4 == 0 && addr + HEADER < WORD_LIMIT
    ensures Rounded(addr, MIN_ALIGN) == addr
  {
  }

  lemma TopEndsAtWord(h: seq<Block>)
    requires Wellplaced(h)
    ensures Top(h).End() % 4 == 0 && Top(h).End() <= HEAP_LIMIT + 4
  {
    assert InBounds(Top(h));
  }

  lemma TopRounded(h: seq<Block>, align: nat)
    requires Wellplaced(h) && ValidAlign(align) && align <= MAX_ALIGN
    ensures var end := Top(h).End();
      && Top(h).size % 4 == 0
      && end == Rounded(end, MIN_ALIGN) <= Rounded(end, align)
      && Rounded(end, align) % 4 == 0 && (Rounded(end, align) + HEADER) % align == 0
  {
    assert InBounds(Top(h));
    hide MeetsWords, AlignTo, Rounded;
    RoundedFacts(Top(h).End(), align);
    RoundedToWords(Top(h).End());
  }

  /** The limit check sees the mathematical end of the new payload. */
  lemma NewEndExact(h: seq<Block>, request: nat, align: nat)
    requires Wellplaced(h) && ValidAlign(align) && FitsAddressSpace(request, align)
    ensures var size := AlignTo(request, 8);
      && request <= size < request + 8 && size % 8 == 0 && size % 4 == 0
      && NewEnd(h, size, align) == Rounded(Top(h).End(), align) + HEADER + size
  {
    hide AlignTo, Rounded, MeetsWords, IsAligned;
    AlignToIsMultiple(request, 8);
    MultipleOfMultiple(AlignTo(request, 8), 8, 4);
    assert InBounds(Top(h));
    RoundedFacts(Top(h).End(), align);
  }

  lemma PlaceOne(h: seq<Block>, b: Block)
    requires Wellplaced(h) && InBounds(b)
    requires Top(h).End() <= b.addr <= Top(h).End() + STRUCT_SIZE + MIN_ALIGN
    ensures Wellplaced(h + [b]) && SumUsed(h + [b]) == SumUsed(h) + if b.used then b.size else 0
  {
    SumAppend(h, b);
    forall i: nat | i + 1 < |h + [b]| ensures Adjacent(h + [b], i) {
      if i + 1 < |h| { assert Adjacent(h, i); }
    }
  }

  /** Between words in order the distance does not wrap and the filler's size word has no flag in it. */
  lemma ExtendIs(h: seq<Block>, next: nat, nextAligned: nat, size: nat)
    requires next <= nextAligned < WORD_LIMIT && next % 4 == 0 && nextAligned % 4 == 0
    ensures Extend(h, next, nextAligned, size) ==
            if nextAligned > next + STRUCT_SIZE + MIN_ALIGN
            then h + [Block(next, nextAligned - next - STRUCT_SIZE, false), Block(nextAligned, size, true)]
            else h + [Block(nextAligned, size, true)]
  {
    WrapSame(nextAligned - next);
    hide Wrap;
    WordsApart(next, nextAligned);
  }

  lemma WordsApart(a: nat, b: nat)
    requires a <= b && a % 4 == 0 && b % 4 == 0
    ensures (b - a - STRUCT_SIZE) % 4 == 0 && (b - a - STRUCT_SIZE) % 2 == 0
  {
    var k := b / 4 - a / 4 - 3;
    assert b - a - STRUCT_SIZE == k * 4;
    MultipleMod(k, 4);
    MultipleOfMultiple(k * 4, 4, 2);
  }

  lemma ExtendKeeps(h: seq<Block>, nextAligned: nat, size: nat)
    requires Wellplaced(h) && size % 4 == 0 && nextAligned % 4 == 0
    requires Top(h).End() <= nextAligned && nextAligned + HEADER + size <= HEAP_LIMIT
    ensures var h' := Extend(h, Top(h).End(), nextAligned, size);
      && Wellplaced(h') && h == h'[..|h|] && |h| < |h'| <= |h| + 2
      && Top(h') == Block(nextAligned, size, true)
      && (|h'| == |h| + 2 ==> !h'[|h|].used)
      && SumUsed(h') == SumUsed(h) + size
  {
    TopEndsAtWord(h);
    var end, block := Top(h).End(), Block(nextAligned, size, true);
    ExtendIs(h, end, nextAligned, size);
    WordsApart(end, nextAligned);
    hide Extend, SumUsed, Wellplaced;
    if nextAligned > end + STRUCT_SIZE + MIN_ALIGN {
      var filler := Block(end, nextAligned - end - STRUCT_SIZE, false);
      PlaceOne(h, filler);
      PlaceOne(h + [filler], block);
      assert h + [filler, block] == h + [filler] + [block];
    } else {
      PlaceOne(h, block);
    }
  }

  lemma AppendKeeps(h: seq<Block>, size: nat, align: nat)
    requires Wellplaced(h) && ValidAlign(align) && align <= MAX_ALIGN && size % 4 == 0
    requires Rounded(Top(h).End(), align) + HEADER + size <= HEAP_LIMIT
    ensures var h' := Append(h, size, align);
      && Wellplaced(h') && h == h'[..|h|] && |h| < |h'| <= |h| + 2
      && Top(h') == Block(Rounded(Top(h).End(), align), size, true) && Top(h').Data() % align == 0
      && (|h'| == |h| + 2 ==> !h'[|h|].used)
      && SumUsed(h') == SumUsed(h) + size
  {
    hide Rounded, MeetsWords;
    var end := Top(h).End();
    TopRounded(h, align);
    ExtendKeeps(h, Rounded(end, align), size);
  }

  /** The appended list spelled out, with all that placing it needs. */
  lemma AppendIs(h: seq<Block>, size: nat, align: nat)
    requires Wellplaced(h) && ValidAlign(align) && align <= MAX_ALIGN && size % 4 == 0
    requires Rounded(Top(h).End(), align) + HEADER + size <= HEAP_LIMIT
    ensures var end, at, h' := Top(h).End(), Rounded(Top(h).End(), align), Append(h, size, align);
      && end == Rounded(end, MIN_ALIGN) <= at && 0 <= at - end < WORD_LIMIT
      && h' == (if at > end + STRUCT_SIZE + MIN_ALIGN
                then h + [Block(end, at - end - STRUCT_SIZE, false), Block(at, size, true)]
                else h + [Block(at, size, true)])
      && Wellplaced(h') && |h| < |h'| && h == h'[..|h|] && Top(h') == Block(at, size, true)
  {
    TopEndsAtWord(h);
    TopRounded(h, align);
    AppendKeeps(h, size, align);
    ExtendIs(h, Top(h).End(), Rounded(Top(h).End(), align), size);
    hide Rounded, MeetsWords, Extend, Wellplaced, IsAligned, SumUsed, Wrap;
  }

  lemma MarkKeeps(h: seq<Block>, k: nat, used: bool)
    requires Wellplaced(h) && 0 < k < |h|
    ensures var h' := h[k := h[k].(used := used)];
      && Wellplaced(h')
      && SumUsed(h') == SumUsed(h) - (if h[k].used then h[k].size else 0) + (if used then h[k].size else 0)
      && SumUsed(h') < WORD_LIMIT
  {
    var h' := h[k := h[k].(used := used)];
    SumUpdate(h, k, h[k].(used := used));
    forall i: nat | i + 1 < |h'| ensures Adjacent(h', i) {
      assert Adjacent(h, i);
    }
    SumBelow(h');
  }

  lemma SumBelow(h: seq<Block>)
    requires Wellplaced(h)
    ensures SumUsed(h) < WORD_LIMIT
  {
    assert h[..|h|] == h;
    SumBound(h, |h|);
  }

  lemma InitKeeps(s: HeapState)
    requires Valid(s)
    ensures Valid(Init(s)) && Wellplaced(Init(s).blocks)
  {
    assert SumUsed([Block(HEAP_BEGIN, 0, true)][..0]) == 0;
  }

  lemma MarkedIsValid(s: HeapState, k: nat)
    requires Valid(s) && 0 < k < |s.blocks| && !s.blocks[k].used
    ensures Valid(HeapState(s.blocks[k := s.blocks[k].(used := true)],
                            (s.usedMemory + s.blocks[k].size) % WORD_LIMIT))
    ensures (s.usedMemory + s.blocks[k].size) % WORD_LIMIT == s.usedMemory + s.blocks[k].size
  {
    hide SumUsed, Wellplaced;
    MarkKeeps(s.blocks, k, true);
    WrapSame(s.usedMemory + s.blocks[k].size);
    assert s.blocks[k := s.blocks[k].(used := true)] != [];
  }

  lemma AppendedIsValid(s: HeapState, h: seq<Block>, size: nat)
    requires Valid(s) && h != [] && Wellplaced(h) && SumUsed(h) == SumUsed(s.blocks) + size
    ensures Valid(HeapState(h, (s.usedMemory + size) % WORD_LIMIT))
    ensures (s.usedMemory + size) % WORD_LIMIT == s.usedMemory + size
  {
    hide SumUsed, Wellplaced;
    SumBelow(h);
    WrapSame(s.usedMemory + size);
  }

  /** Where the block handed out by a successful `Alloc` sits. */
  function SlotOf(s: HeapState, request: nat, align: nat): nat
    requires align > 0 && Alloc(s, request, align).Allocated?
  {
    var k := FirstFit(Init(s).blocks, AlignTo(request, 8), align, 0);
    if k < |Init(s).blocks| then k else |Alloc(s, request, align).state.blocks| - 1
  }

  /** A successful allocation hands out an aligned, large enough, unused payload inside the heap,
      touches no used block, and appends only when no free block fits. */
  lemma AllocIsSound(s: HeapState, request: nat, align: nat)
    requires Valid(s) && ValidAlign(align) && FitsAddressSpace(request, align)
    requires Alloc(s, request, align).Allocated?
    ensures var Allocated(s', p) := Alloc(s, request, align);
      var old_, new_, k := Init(s).blocks, s'.blocks, SlotOf(s, request, align);
      && Valid(s')
      && Holds(new_, p, k) && p % align == 0 && new_[k].size >= AlignTo(request, 8) >= request
          && p + request <= HEAP_LIMIT
      && |old_| <= |new_| && (k < |old_| ==> !old_[k].used)
      && (forall i :: 0 <= i < |old_| && i != k ==> new_[i] == old_[i])
      && (forall i :: |old_| <= i < |new_| && i != k ==> !new_[i].used)
      && (|old_| < |new_| <==> forall i :: 0 <= i < |old_| ==>
            old_[i].used || old_[i].size < AlignTo(request, 8) || (old_[i].addr + 8) % align != 0)
  {
    hide AlignTo, Rounded, NewEnd, Append, IsAligned, MeetsWords, SumUsed, Valid;
    var size := AlignTo(request, 8);
    var h := Init(s).blocks;
    InitKeeps(s);
    var k := FirstFit(h, size, align, 0);
    FirstFitIsFirst(h, size, align, 0);
    NewEndExact(h, request, align);
    if k < |h| {
      MarkedIsValid(Init(s), k);
      assert InBounds(h[k]);
    } else {
      AppendKeeps(h, size, align);
      AppendedIsValid(Init(s), Append(h, size, align), size);
    }
  }

  /** Where the pointer handed out lies. */
  lemma AllocPlaces(s: HeapState, request: nat, align: nat)
    requires Valid(s) && ValidAlign(align) && FitsAddressSpace(request, align)
    ensures var r := Alloc(s, request, align);
      r.Allocated? ==> r.ptr % align == 0 && HEAP_BEGIN < r.ptr && r.ptr + request <= HEAP_LIMIT
  {
    assert align > 0;
    hide Alloc, SlotOf, Init, Valid, Wellplaced, AlignTo, FitsAddressSpace, ValidAlign;
    if Alloc(s, request, align).Allocated? {
      AllocIsSound(s, request, align);
      BlocksArePlaced(Alloc(s, request, align).state);
      InsideHeap(Alloc(s, request, align).state.blocks, SlotOf(s, request, align));
    }
  }

  lemma BlocksArePlaced(s: HeapState)
    requires Valid(s) && s.blocks != []
    ensures Wellplaced(s.blocks)
  {
  }

  /** The three ways out of `aligned_alloc`, each with what the code relies on there. */
  lemma AllocCases(s: HeapState, request: nat, align: nat)
    requires Valid(s) && ValidAlign(align) && FitsAddressSpace(request, align)
    ensures var size, s1, r := AlignTo(request, 8), Init(s), Alloc(s, request, align);
      var h := s1.blocks;
      var k := FirstFit(h, size, align, 0);
      && size % 4 == 0 && Valid(r.state)
      && (k < |h| ==> 0 < k && !h[k].used && r == Allocated(
            HeapState(h[k := h[k].(used := true)], (s1.usedMemory + h[k].size) % WORD_LIMIT), h[k].Data()))
      && (k == |h| && NewEnd(h, size, align) > HEAP_LIMIT ==> r == OutOfMemory(s1))
      && (k == |h| && NewEnd(h, size, align) <= HEAP_LIMIT ==>
            && Rounded(Top(h).End(), align) + HEADER + size <= HEAP_LIMIT
            && r == Allocated(HeapState(Append(h, size, align), (s1.usedMemory + size) % WORD_LIMIT),
                Top(Append(h, size, align)).Data()))
  {
    hide AlignTo, Rounded, MeetsWords, IsAligned, Append;
    InitKeeps(s);
    NewEndExact(Init(s).blocks, request, align);
    FirstFitIsFirst(Init(s).blocks, AlignTo(request, 8), align, 0);
    if Alloc(s, request, align).Allocated? { AllocIsSound(s, request, align); }
  }

  lemma {:induction false} FirstFitAt(h: seq<Block>, size: nat, align: nat, i: nat, k: nat)
    requires align > 0 && i <= k <= |h| && (k < |h| ==> Fits(h[k], size, align))
    requires forall j :: i <= j < k ==> !Fits(h[j], size, align)
    ensures FirstFit(h, size, align, i) == k
    decreases k - i
  {
    hide Fits;
    if i < k { FirstFitAt(h, size, align, i + 1, k); }
  }

  /** `aligned_alloc` in full, by numbers alone: `size` is the request rounded up to eight bytes, `k` the first free
      block that is large enough and aligned, if there is one, and `p` the aligned address a new payload gets. */
  lemma AllocExactly(s: HeapState, request: nat, align: nat, size: nat, k: nat, p: nat)
    requires Valid(s) && ValidAlign(align) && FitsAddressSpace(request, align)
    requires size % 8 == 0 && request <= size < request + 8
    requires var h := Init(s).blocks;
      && k <= |h|
      && (forall i :: 0 <= i < k ==> h[i].used || h[i].size < size || (h[i].addr + 8) % align != 0)
      && (k < |h| ==> !h[k].used && h[k].size >= size && (h[k].addr + 8) % align == 0)
    requires var top := Top(Init(s).blocks);
      p % align == 0 && top.addr + top.size + 20 <= p < top.addr + top.size + 20 + align
    ensures var h, u, r := Init(s).blocks, s.usedMemory, Alloc(s, request, align);
      var end := Top(h).addr + Top(h).size + 12;
      r == if k < |h| then Allocated(HeapState(h[k := h[k].(used := true)], u + h[k].size), h[k].addr + 8)
           else if p + size > HEAP_LIMIT then OutOfMemory(HeapState(h, u))
           else
             var block := Block(p - 8, size, true);
             Allocated(HeapState(h + if p - 8 - end > 16 then [Block(end, p - 20 - end, false), block] else [block],
                                 u + size), p)
  {
    hide AlignTo, Rounded, NewEnd, Append, MeetsWords, SumUsed, Valid, Wellplaced, FirstFit, Fits, Alloc;
    var h := Init(s).blocks;
    RoundsTo(request, 8, size);
    InitKeeps(s);
    TopRoundsTo(h, align, p);
    FirstFitIs(h, size, align, k);
    AllocCases(s, request, align);
    NewEndExact(h, request, align);
    if k < |h| {
      MarkedIsValid(Init(s), k);
    } else if p + size <= HEAP_LIMIT {
      AppendIs(h, size, align);
      AppendKeeps(h, size, align);
      AppendedIsValid(Init(s), Append(h, size, align), size);
    }
  }

  lemma TopRoundsTo(h: seq<Block>, align: nat, p: nat)
    requires Wellplaced(h) && ValidAlign(align) && align <= MAX_ALIGN && p % align == 0
    requires Top(h).addr + Top(h).size + 20 <= p < Top(h).addr + Top(h).size + 20 + align
    ensures Rounded(Top(h).End(), align) == p - 8 && AlignTo(Top(h).End() + HEADER, align) == p
  {
    TopEndsAtWord(h);
    hide AlignTo, MeetsWords, Wellplaced;
    RoundedFacts(Top(h).End(), align);
    RoundsTo(Top(h).End() + HEADER, align, p);
  }

  lemma FirstFitIs(h: seq<Block>, size: nat, align: nat, k: nat)
    requires align > 0 && k <= |h|
    requires forall i :: 0 <= i < k ==> h[i].used || h[i].size < size || (h[i].addr + 8) % align != 0
    requires k < |h| ==> !h[k].used && h[k].size >= size && (h[k].addr + 8) % align == 0
    ensures FirstFit(h, size, align, 0) == k
  {
    hide FirstFit;
    FirstFitAt(h, size, align, 0, k);
  }

  /** `kfree` in full: the block whose payload starts at `p` becomes free, and its size leaves the sum. */
  lemma FreeExactly(s: HeapState, p: nat, k: nat)
    requires Valid(s) && k < |s.blocks| && s.blocks[k].addr + 8 == p && k > 0 && s.blocks[k].used
    ensures Find(s.blocks, p) == k
    ensures Release(s, k).blocks == s.blocks[k := s.blocks[k].(used := false)]
    ensures Release(s, k).usedMemory == s.usedMemory - s.blocks[k].size
  {
    hide SumUsed, Wellplaced;
    FindFinds(s.blocks, p, k);
    MarkKeeps(s.blocks, k, false);
    SumBelow(s.blocks);
    WrapSame(s.usedMemory - s.blocks[k].size);
  }
}
