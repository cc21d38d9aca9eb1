/** The allocator as it runs: block headers are words of kernel memory, linked through `next`. */
module KernelHeap {
  import opened Arith
  import opened HeapModel

  /** Kernel memory, one 32-bit word per address. */
  type Memory = nat -> nat

  function Store(m: Memory, a: nat, v: nat): Memory {
    (x: nat) => if x == a then v else m(x)
  }

  function Cleared(word: nat): nat { word - word % 2 }  // size & ~1

  function SetUsed(word: nat): nat { Cleared(word) + 1 }  // size | 1

  function SizeWord(b: Block): nat { b.size + if b.used then 1 else 0 }

  /** The headers in memory spell out the block list `h`. */
  ghost predicate Linked(m: Memory, h: seq<Block>) {
    forall i: nat :: i < |h| ==> HeaderAt(m, h, i)
  }

  ghost predicate HeaderAt(m: Memory, h: seq<Block>, i: nat)
    requires i < |h|
  {
    && m(h[i].addr) == (if i + 1 < |h| then h[i + 1].addr else 0)
    && m(h[i].addr + 4) == SizeWord(h[i])
  }

  ghost predicate IsHeaderWord(h: seq<Block>, a: nat) {
    exists b :: b in h && (a == b.addr || a == b.addr + 4)
  }

  lemma Parity(half: nat)
    ensures (2 * half) % 2 == 0 && (2 * half + 1) % 2 == 1
  {
  }

  lemma FlagBit(size: nat)
    requires size % 4 == 0
    ensures Cleared(size) == size && Cleared(size + 1) == size
    ensures size % 2 == 0 && (size + 1) % 2 == 1
  {
    var half := 2 * (size / 4);
    assert size == 2 * half;
    Parity(half);
  }

  lemma FlagWords(b: Block)
    requires b.size % 4 == 0
    ensures SizeWord(b) % 2 == (if b.used then 1 else 0) && Cleared(SizeWord(b)) == b.size
    ensures SetUsed(b.size) == b.size + 1
  {
    hide Cleared;
    FlagBit(b.size);
  }

  /** The search's test on memory is the fitting test on the block. */
  lemma FitsInMemory(m: Memory, h: seq<Block>, k: nat, size: nat, align: nat)
    requires k < |h| && HeaderAt(m, h, k) && Wellplaced(h) && align > 0
    ensures var w := m(h[k].addr + 4);
      (Cleared(w) < size || w % 2 == 1 || !IsAligned(h[k].addr + HEADER, align)) <==> !Fits(h[k], size, align)
  {
    hide Cleared, IsAligned;
    assert InBounds(h[k]);
    FlagWords(h[k]);
  }

  lemma FirstFitNext(h: seq<Block>, size: nat, align: nat, k: nat)
    requires k < |h| && align > 0 && !Fits(h[k], size, align)
    ensures FirstFit(h, size, align, k) == FirstFit(h, size, align, k + 1)
    ensures k + 1 == |h| ==> FirstFit(h, size, align, k) == |h|
  {
    hide Fits;
  }

  lemma FirstFitHere(h: seq<Block>, size: nat, align: nat, k: nat)
    requires k < |h| && align > 0 && Fits(h[k], size, align)
    ensures FirstFit(h, size, align, k) == k
  {
    hide Fits;
  }

  lemma HeaderOf(m: Memory, h: seq<Block>, k: nat)
    requires Linked(m, h) && k < |h|
    ensures HeaderAt(m, h, k)
  {
  }

  lemma NextWord(m: Memory, h: seq<Block>, k: nat)
    requires k < |h| && HeaderAt(m, h, k)
    ensures m(h[k].addr) == if k + 1 < |h| then h[k + 1].addr else 0
  {
  }

  lemma TopWord(m: Memory, h: seq<Block>)
    requires Linked(m, h) && |h| > 0 && Top(h).size % 4 == 0
    ensures Top(h).addr + STRUCT_SIZE + Cleared(m(Top(h).addr + 4)) == Top(h).End()
  {
    hide Cleared, SizeWord;
    assert HeaderAt(m, h, |h| - 1);
    FlagWords(Top(h));
  }

  /** Writing only at or above the top header keeps the headers below it. */
  lemma LinkMore(m: Memory, m': Memory, h: seq<Block>, h': seq<Block>)
    requires Linked(m, h) && |h| > 0 && |h| <= |h'| && h == h'[..|h|] && Wellplaced(h')
    requires forall a: nat :: a < Top(h).addr ==> m'(a) == m(a)
    requires forall i: nat :: |h| - 1 <= i < |h'| ==> HeaderAt(m', h', i)
    ensures Linked(m', h')
  {
    forall i: nat | i < |h'| ensures HeaderAt(m', h', i) {
      if i < |h| - 1 {
        assert HeaderAt(m, h, i);
        Ordered(h', i, |h| - 1);
      }
    }
  }

  lemma PlainSpelled(m: Memory, h: seq<Block>, at: nat, size: nat)
    requires |h| > 0 && Linked(m, h) && size % 2 == 0 && Wellplaced(h + [Block(at, size, true)])
    ensures var m' := Store(Store(Store(m, at + 4, SetUsed(size)), at, 0), Top(h).addr, at);
      var h' := h + [Block(at, size, true)];
      Linked(m', h') && forall a: nat :: !IsHeaderWord(h', a) ==> m'(a) == m(a)
  {
    hide Adjacent, InBounds;
    var h', n := h + [Block(at, size, true)], |h|;
    var m' := Store(Store(Store(m, at + 4, SetUsed(size)), at, 0), Top(h).addr, at);
    assert HeaderAt(m, h, n - 1);
    Ordered(h', n - 1, n);
    LinkMore(m, m', h, h');
    assert h'[n - 1] in h' && h'[n] in h';
  }

  lemma FilledSpelled(m: Memory, h: seq<Block>, filler: Block, at: nat, size: nat)
    requires |h| > 0 && Linked(m, h) && size % 2 == 0 && !filler.used
    requires Wellplaced(h + [filler, Block(at, size, true)])
    ensures var m1 := Store(Store(m, at + 4, SetUsed(size)), at, 0);
      var m' := Store(Store(Store(m1, filler.addr + 4, filler.size), Top(h).addr, filler.addr), filler.addr, at);
      var h' := h + [filler, Block(at, size, true)];
      Linked(m', h') && forall a: nat :: !IsHeaderWord(h', a) ==> m'(a) == m(a)
  {
    hide Adjacent, InBounds;
    var h', n := h + [filler, Block(at, size, true)], |h|;
    var m1 := Store(Store(m, at + 4, SetUsed(size)), at, 0);
    var m' := Store(Store(Store(m1, filler.addr + 4, filler.size), Top(h).addr, filler.addr), filler.addr, at);
    assert HeaderAt(m, h, n - 1);
    Ordered(h', n - 1, n);
    Ordered(h', n, n + 1);
    LinkMore(m, m', h, h');
    assert h'[n - 1] in h' && h'[n] in h' && h'[n + 1] in h';
  }

  /** Rewriting the flag of one block leaves every other header word alone. */
  lemma MarkSpelled(m: Memory, h: seq<Block>, k: nat, used: bool)
    requires Linked(m, h) && Wellplaced(h) && k < |h|
    ensures var b := h[k].(used := used);
      var m' := Store(m, h[k].addr + 4, SizeWord(b));
      Linked(m', h[k := b]) && forall a: nat :: !IsHeaderWord(h[k := b], a) ==> m'(a) == m(a)
  {
    hide Adjacent, InBounds, SizeWord;
    var b := h[k].(used := used);
    var m', h' := Store(m, h[k].addr + 4, SizeWord(b)), h[k := b];
    assert h'[k] in h';
    forall i: nat | i < |h'| ensures HeaderAt(m', h', i) {
      assert HeaderAt(m, h, i);
      if i < k { Ordered(h, i, k); } else if i > k { Ordered(h, k, i); }
    }
  }

  lemma HeaderWordsStay(h: seq<Block>, h': seq<Block>)
    requires |h| <= |h'| && forall i :: 0 <= i < |h| ==> h'[i].addr == h[i].addr
    ensures forall a :: IsHeaderWord(h, a) ==> IsHeaderWord(h', a)
  {
    forall a | IsHeaderWord(h, a) ensures IsHeaderWord(h', a) {
      var b :| b in h && (a == b.addr || a == b.addr + 4);
      var i :| 0 <= i < |h| && h[i] == b;
      assert h'[i] in h';
    }
  }

  /** Writes confined to one block's payload leave every header in place. */
  lemma PayloadWritesKeepLinks(m: Memory, m': Memory, h: seq<Block>, k: nat)
    requires Linked(m, h) && Wellplaced(h) && k < |h|
    requires forall a: nat :: !(h[k].Data() <= a < h[k].PayloadEnd()) ==> m'(a) == m(a)
    ensures Linked(m', h)
  {
    hide Adjacent, InBounds;
    forall i: nat | i < |h| ensures HeaderAt(m', h, i) {
      assert HeaderAt(m, h, i);
      if i < k { Ordered(h, i, k); } else if i > k { Ordered(h, k, i); }
    }
  }

  function WordAt(base: nat, i: nat): nat { base + 4 * i }

  /** The first `n` words at `dst` are those of `m` at `src`, and nothing else changed. */
  ghost predicate Copied(m: Memory, m': Memory, dst: nat, src: nat, n: nat) {
    && (forall i: nat :: i < n ==> m'(WordAt(dst, i)) == m(WordAt(src, i)))
    && (forall a: nat :: !(dst <= a < WordAt(dst, n)) ==> m'(a) == m(a))
  }

  lemma PayloadIsNoHeader(h: seq<Block>, k: nat, a: nat)
    requires Wellplaced(h) && k < |h| && h[k].Data() <= a < h[k].PayloadEnd()
    ensures !IsHeaderWord(h, a)
  {
    if IsHeaderWord(h, a) {
      var b :| b in h && (a == b.addr || a == b.addr + 4);
      var i :| 0 <= i < |h| && h[i] == b;
      if i < k { Ordered(h, i, k); } else if k < i { Ordered(h, k, i); }
    }
  }

  /** Where a growing `krealloc` copies from and to. */
  lemma ReallocGeometry(s: HeapState, p: nat, j: nat, request: nat)
    requires Valid(s) && Holds(s.blocks, p, j) && FitsAddressSpace(request, MIN_ALIGN)
    requires Alloc(s, request, MIN_ALIGN).Allocated? && s.blocks[j].size <= AlignTo(request, 8)
    ensures var r, k, n := Alloc(s, request, MIN_ALIGN), SlotOf(s, request, MIN_ALIGN), s.blocks[j].size;
      var h := r.state.blocks;
      && Wellplaced(h) && n % 4 == 0
      && Holds(h, p, j) && h[j] == s.blocks[j] && Find(h, p) == Find(s.blocks, p) == j
      && Holds(h, r.ptr, k) && n <= h[k].size
      && (r.ptr + n <= p || p + n <= r.ptr)
  {
    hide AlignTo, MeetsWords, Alloc;
    assert MeetsWords(MIN_ALIGN) by { MinAlignMeets(); }
    AllocIsSound(s, request, MIN_ALIGN);
    var r, k := Alloc(s, request, MIN_ALIGN), SlotOf(s, request, MIN_ALIGN);
    var h := r.state.blocks;
    assert InBounds(h[j]);
    FindFinds(h, p, j);
    FindFinds(s.blocks, p, j);
    if j < k { Ordered(h, j, k); } else { Ordered(h, k, j); }
  }

  /** Words of a block's payload survive whatever changes only header words. */
  lemma PayloadSurvives(m: Memory, m': Memory, h: seq<Block>, j: nat)
    requires Wellplaced(h) && j < |h|
    requires forall a: nat :: !IsHeaderWord(h, a) ==> m'(a) == m(a)
    ensures forall i: nat :: i < h[j].size / 4 ==> m'(WordAt(h[j].Data(), i)) == m(WordAt(h[j].Data(), i))
  {
    forall i: nat | i < h[j].size / 4 ensures m'(WordAt(h[j].Data(), i)) == m(WordAt(h[j].Data(), i)) {
      PayloadIsNoHeader(h, j, WordAt(h[j].Data(), i));
    }
  }

  lemma WordsByAddress(m: Memory, m': Memory, dst: nat, src: nat, n: nat)
    requires n % 4 == 0 && forall i: nat :: i < n / 4 ==> m'(WordAt(dst, i)) == m(WordAt(src, i))
    ensures forall a: nat :: src <= a < src + n && (a - src) % 4 == 0 ==> m'(dst + (a - src)) == m(a)
  {
    forall a: nat | src <= a < src + n && (a - src) % 4 == 0 ensures m'(dst + (a - src)) == m(a) {
      var i := (a - src) / 4;
      assert a == WordAt(src, i) && dst + (a - src) == WordAt(dst, i);
    }
  }

  lemma HeldSize(m: Memory, h: seq<Block>, p: nat, j: nat)
    requires Linked(m, h) && Wellplaced(h) && Holds(h, p, j)
    ensures Cleared(m(p - HEADER + 4)) == h[j].size
  {
    hide Cleared;
    assert HeaderAt(m, h, j) && InBounds(h[j]);
    FlagWords(h[j]);
  }

  lemma MinAlignMeets()
    ensures ValidAlign(MIN_ALIGN)
  {
  }

  class Allocator {
    var mem: Memory
    var bottom: nat
    var top: nat
    var usedMemory: nat
    ghost var blocks: seq<Block>

    ghost function State(): HeapState
      reads this
    {
      HeapState(blocks, usedMemory)
    }

    ghost predicate Valid()
      reads this
    {
      && HeapModel.Valid(State())
      && Linked(mem, blocks)
      && (top == 0 <==> blocks == [])
      && (blocks != [] ==> bottom == HEAP_BEGIN && top == Top(blocks).addr)
    }

    constructor (memory: Memory)
      ensures Valid() && State() == HeapState([], 0) && mem == memory
    {
      mem := memory;
      bottom, top, usedMemory := 0, 0, 0;
      blocks := [];
    }

    /** Walks the list for the first fitting block; 0 stands for NULL. */
    method MemFindBlock(size: nat, align: nat) returns (block: nat, ghost k: nat)
      requires Valid() && align > 0 && blocks != []
      ensures k == FirstFit(blocks, size, align, 0)
      ensures var f := FirstFit(blocks, size, align, 0); block == if f < |blocks| then blocks[f].addr else 0
      ensures k <= |blocks| && (k == |blocks| <==> block == 0)
      ensures forall i :: 0 <= i < k ==> blocks[i].used || blocks[i].size < size || (blocks[i].addr + 8) % align != 0
      ensures k < |blocks| ==> !blocks[k].used && blocks[k].size >= size && (blocks[k].addr + 8) % align == 0
    {
      block := bottom;
      k := 0;
      HeaderOf(mem, blocks, 0);
      FitsInMemory(mem, blocks, 0, size, align);
      FirstFitIsFirst(blocks, size, align, 0);
      assert Linked(mem, blocks) && Wellplaced(blocks) && block == blocks[0].addr;
      hide *;
      while Cleared(mem(block + 4)) < size || mem(block + 4) % 2 == 1 || !IsAligned(block + HEADER, align)
        invariant k < |blocks| && block == blocks[k].addr && HeaderAt(mem, blocks, k)
        invariant (Cleared(mem(block + 4)) < size || mem(block + 4) % 2 == 1 || !IsAligned(block + HEADER, align))
                  <==> !Fits(blocks[k], size, align)
        invariant FirstFit(blocks, size, align, k) == FirstFit(blocks, size, align, 0)
        decreases |blocks| - k
      {
        FirstFitNext(blocks, size, align, k);
        NextWord(mem, blocks, k);
        if k + 1 < |blocks| {
          HeaderOf(mem, blocks, k + 1);
          InsideHeap(blocks, k + 1);
          FitsInMemory(mem, blocks, k + 1, size, align);
        }
        block := mem(block);
        k := k + 1;
        if block == 0 {
          return;
        }
      }
      FirstFitHere(blocks, size, align, k);
      InsideHeap(blocks, k);
    }

    /** A header with no next block. */
    method WriteHeader(block: nat, word: nat)
      modifies this`mem
      ensures mem == Store(Store(old(mem), block + 4, word), block, 0)
    {
      mem := Store(mem, block + 4, word);
      mem := Store(mem, block, 0);
    }

    /** A filler after `top`, whose own next block is still to be set. */
    method WriteFiller(filler: nat, word: nat)
      modifies this`mem, this`top
      ensures mem == Store(Store(old(mem), filler + 4, word), old(top), filler) && top == filler
    {
      mem := Store(mem, filler + 4, word);
      mem := Store(mem, top, filler);
      top := filler;
    }

    /** Links one new block, and a filler before it when there is room, after `top`. */
    method MemNewBlock(size: nat, align: nat) returns (block: nat)
      requires Valid() && blocks != [] && ValidAlign(align) && align <= MAX_ALIGN && size % 4 == 0
      requires Rounded(Top(blocks).End(), align) + HEADER + size <= HEAP_LIMIT
      modifies this
      ensures blocks == Append(old(blocks), size, align) && Wellplaced(blocks) && Linked(mem, blocks)
      ensures |old(blocks)| < |blocks| && old(blocks) == blocks[..|old(blocks)|]
      ensures block == top == Top(blocks).addr && bottom == old(bottom) && usedMemory == old(usedMemory)
      ensures forall a: nat :: !IsHeaderWord(blocks, a) ==> mem(a) == old(mem)(a)
    {
      hide Rounded, SumUsed, MeetsWords, IsAligned, Adjacent, Linked, Cleared, SetUsed, IsHeaderWord, Store, Append;
      ghost var h, before := blocks, mem;
      ghost var end, at := Top(h).End(), Rounded(Top(h).End(), align);
      FlagWords(Block(0, size, false));
      TopWord(mem, h);
      AppendIs(h, size, align);
      WrapSame(at - end);
      blocks := Append(h, size, align);
      hide Wellplaced, Extend, Wrap;

      var next := top + STRUCT_SIZE + Cleared(mem(top + 4));
      var nextAligned := Rounded(next, align);
      block := nextAligned;
      WriteHeader(block, SetUsed(size));
      next := Rounded(next, MIN_ALIGN);
      var gap := Wrap(nextAligned - next);
      if gap > STRUCT_SIZE + MIN_ALIGN {
        var filler := next;
        WriteFiller(filler, gap - STRUCT_SIZE);
        FilledSpelled(before, h, Block(filler, gap - STRUCT_SIZE, false), nextAligned, size);
      } else {
        PlainSpelled(before, h, nextAligned, size);
      }
      mem := Store(mem, top, block);
      top := block;
    }

    /** The block list starts with an empty used block, which spares the search edge cases. */
    method SetUpList()
      requires Valid()
      modifies this
      ensures Valid() && State() == Init(old(State())) && blocks != []
      ensures blocks == if old(blocks) == [] then [Block(HEAP_BEGIN, 0, true)] else old(blocks)
      ensures forall a: nat :: !IsHeaderWord(blocks, a) ==> mem(a) == old(mem)(a)
    {
      InitKeeps(State());
      if top == 0 {
        bottom := HEAP_BEGIN;
        top := bottom;
        mem := Store(mem, top + 4, 1);
        mem := Store(mem, top, 0);
        blocks := [Block(HEAP_BEGIN, 0, true)];
        assert blocks[0] in blocks && old(State()) == HeapState([], old(usedMemory));
      } else {
        assert Top(blocks) in blocks;
      }
    }

    /** Reuses the free block found by the search. */
    method TakeBlock(block: nat, ghost k: nat)
      requires Valid() && 0 < k < |blocks| && block == blocks[k].addr && !blocks[k].used
      modifies this
      ensures Valid()
      ensures State() == HeapState(old(blocks)[k := old(blocks)[k].(used := true)],
          (old(usedMemory) + old(blocks)[k].size) % WORD_LIMIT)
      ensures forall a: nat :: !IsHeaderWord(blocks, a) ==> mem(a) == old(mem)(a)
    {
      hide Cleared, SumUsed, Adjacent, IsHeaderWord;
      ghost var b := blocks[k].(used := true);
      assert HeaderAt(mem, blocks, k) && InBounds(blocks[k]);
      FlagWords(blocks[k]);
      MarkKeeps(blocks, k, true);
      MarkSpelled(mem, blocks, k, true);
      usedMemory := (usedMemory + mem(block + 4)) % WORD_LIMIT;
      mem := Store(mem, block + 4, SetUsed(mem(block + 4)));
      blocks := blocks[k := b];
    }

    /** `aligned_alloc`; 0 reports the abort on exhaustion. */
    method AlignedAlloc(align: nat, request: nat) returns (ptr: nat)
      requires Valid() && ValidAlign(align) && FitsAddressSpace(request, align)
      modifies this
      ensures Valid() && State() == Alloc(old(State()), request, align).state
      ensures ptr == if Alloc(old(State()), request, align).Allocated?
          then Alloc(old(State()), request, align).ptr else 0
      ensures ptr != 0 ==> ptr % align == 0 && HEAP_BEGIN < ptr && ptr + request <= HEAP_LIMIT
      ensures forall a: nat :: !IsHeaderWord(blocks, a) ==> mem(a) == old(mem)(a)
    {
      hide AlignTo, Rounded, IsAligned, MeetsWords, Adjacent, Linked, Cleared, IsHeaderWord, FirstFit, Append,
          Alloc, Init, SumUsed;
      AllocCases(State(), request, align);
      AllocPlaces(State(), request, align);
      var size := AlignTo(request, 8);
      SetUpList();
      ghost var h := blocks;
      var block, k := MemFindBlock(size, align);
      if k < |h| { Ordered(h, 0, k); }
      if block != 0 {
        TakeBlock(block, k);
        HeaderWordsStay(h, blocks);
        return block + HEADER;
      }
      TopWord(mem, h);
      var end := top + STRUCT_SIZE + Cleared(mem(top + 4)) + HEADER;
      end := (AlignTo(end, align) + size) % WORD_LIMIT;
      if end > HEAP_LIMIT {
        return 0;
      }
      block := MemNewBlock(size, align);
      Ordered(blocks, 0, |blocks| - 1);
      HeaderWordsStay(h, blocks);
      usedMemory := (usedMemory + size) % WORD_LIMIT;
      ptr := block + HEADER;
    }

    /** `kfree` of a pointer the caller holds, or of NULL. */
    method Kfree(pointer: nat)
      requires Valid()
      requires pointer != 0 ==> Holds(blocks, pointer, Find(blocks, pointer))
      modifies this
      ensures Valid()
      ensures State() == if pointer == 0 then old(State()) else Release(old(State()), Find(old(blocks), pointer))
      ensures forall a: nat :: !IsHeaderWord(blocks, a) ==> mem(a) == old(mem)(a)
    {
      hide Cleared, SumUsed, Adjacent, IsHeaderWord;
      if pointer == 0 {
        return;
      }
      ghost var k := Find(blocks, pointer);
      assert HeaderAt(mem, blocks, k) && InBounds(blocks[k]);
      FlagWords(blocks[k]);
      MarkKeeps(blocks, k, false);
      MarkSpelled(mem, blocks, k, false);
      SumBelow(blocks);
      var block := pointer - HEADER;
      mem := Store(mem, block + 4, Cleared(mem(block + 4)));
      usedMemory := (usedMemory - mem(block + 4)) % WORD_LIMIT;
      blocks := blocks[k := blocks[k].(used := false)];
    }

    /** A client stores a word into a payload it holds. */
    method ClientStore(ghost k: nat, a: nat, v: nat)
      requires Valid() && k < |blocks| && blocks[k].Data() <= a < blocks[k].PayloadEnd() && a % 4 == 0
      modifies this`mem
      ensures Valid() && mem(a) == v && forall x: nat :: x != a ==> mem(x) == old(mem)(x)
    {
      PayloadWritesKeepLinks(mem, Store(mem, a, v), blocks, k);
      mem := Store(mem, a, v);
    }

    method Memcpy(dst: nat, src: nat, n: nat)
      requires n % 4 == 0 && (dst + n <= src || src + n <= dst)
      modifies this`mem
      ensures Copied(old(mem), mem, dst, src, n / 4)
    {
      var words := n / 4;
      var i := 0;
      while i < words
        invariant i <= words
        invariant Copied(old(mem), mem, dst, src, i)
      {
        mem := Store(mem, WordAt(dst, i), mem(WordAt(src, i)));
        i := i + 1;
      }
    }

    /** `krealloc` to no smaller a size: the old contents are kept and the old block is free again. */
    method Krealloc(pointer: nat, request: nat) returns (ptr: nat)
      requires Valid() && FitsAddressSpace(request, MIN_ALIGN)
      requires pointer != 0 ==> Holds(blocks, pointer, Find(blocks, pointer))
      requires pointer != 0 && request != 0 ==> blocks[Find(blocks, pointer)].size <= AlignTo(request, 8)
      modifies this
      ensures Valid()
      ensures pointer != 0 && request == 0 ==> ptr == 0 && State() == Release(old(State()), Find(old(blocks), pointer))
      ensures pointer == 0 || request != 0 ==>
        var r := Alloc(old(State()), request, MIN_ALIGN);
        && ptr == (if r.Allocated? then r.ptr else 0)
        && State() == (if pointer == 0 || r.OutOfMemory? then r.state else Release(r.state, Find(old(blocks), pointer)))
      ensures pointer != 0 && ptr != 0 ==>
                var size := old(blocks)[Find(old(blocks), pointer)].size;
                forall a: nat :: pointer <= a < pointer + size && (a - pointer) % 4 == 0 ==>
                  mem(ptr + (a - pointer)) == old(mem)(a)
    {
      hide AlignTo, MeetsWords, Alloc, SumUsed, Wellplaced, Linked, Cleared, IsHeaderWord,
          FitsAddressSpace, SlotOf, Find;
      MinAlignMeets();
      if pointer == 0 {
        ptr := AlignedAlloc(MIN_ALIGN, request);
        return;
      }
      if request == 0 {
        Kfree(pointer);
        return 0;
      }
      ghost var s, before, j := State(), mem, Find(blocks, pointer);
      ghost var n := blocks[j].size;
      ptr := AlignedAlloc(MIN_ALIGN, request);
      if Alloc(s, request, MIN_ALIGN).Allocated? { AllocIsSound(s, request, MIN_ALIGN); }
      if ptr == 0 {
        return;
      }
      ghost var k := SlotOf(s, request, MIN_ALIGN);
      ReallocGeometry(s, pointer, j, request);
      HeldSize(mem, blocks, pointer, j);
      PayloadSurvives(before, mem, blocks, j);
      ghost var grown := mem;
      Memcpy(ptr, pointer, Cleared(mem(pointer - HEADER + 4)));
      PayloadWritesKeepLinks(grown, mem, blocks, k);
      ghost var filled := mem;
      Kfree(pointer);
      PayloadSurvives(filled, mem, blocks, k);
      forall i: nat | i < n / 4 ensures mem(WordAt(ptr, i)) == before(WordAt(pointer, i)) {
        assert filled(WordAt(ptr, i)) == grown(WordAt(pointer, i));
        assert i < blocks[k].size / 4;
      }
      WordsByAddress(before, mem, ptr, pointer, n);
    }
  }
}
