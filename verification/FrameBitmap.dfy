/** The physical memory manager: one bit per frame in an array of 32-bit words. */
module FrameBitmap {
  import opened Arith
  import opened FrameModel

  function NthBit(n: nat): bv32
    requires n < 32
  {
    (1 as bv32) << n
  }

  predicate Has(w: bv32, j: nat)
    requires j < 32
  {
    w & NthBit(j) != 0
  }

  predicate Bit(words: seq<bv32>, b: nat)
    requires b < 32 * |words|
  {
    Has(words[b / 32], b % 32)
  }

  /** The frames whose bit is set. */
  ghost function Taken(words: seq<bv32>): set<nat> {
    set b: nat | b < 32 * |words| && Bit(words, b)
  }

  // ----- single bits

  lemma OwnBit(i: nat)
    requires i < 32
    ensures NthBit(i) != 0
  {
  }

  lemma BitsAreApart(i: nat, j: nat)
    requires i < 32 && j < 32 && i != j
    ensures NthBit(i) & NthBit(j) == 0
  {
  }

  lemma SetElsewhere(w: bv32, x: bv32, y: bv32)
    requires x & y == 0
    ensures (w | x) & y == w & y
  {
  }

  lemma ClearElsewhere(w: bv32, x: bv32, y: bv32)
    requires x & y == 0
    ensures (w & !x) & y == w & y
  {
  }

  lemma MaskHere(w: bv32, x: bv32)
    requires x != 0
    ensures (w | x) & x != 0 && (w & !x) & x == 0
  {
  }

  lemma HasAfterSet(w: bv32, i: nat, j: nat)
    requires i < 32 && j < 32 && i != j
    ensures Has(w | NthBit(i), j) <==> Has(w, j)
  {
    BitsAreApart(i, j);
    hide NthBit;
    SetElsewhere(w, NthBit(i), NthBit(j));
  }

  lemma HasAfterClear(w: bv32, i: nat, j: nat)
    requires i < 32 && j < 32 && i != j
    ensures Has(w & !NthBit(i), j) <==> Has(w, j)
  {
    BitsAreApart(i, j);
    hide NthBit;
    ClearElsewhere(w, NthBit(i), NthBit(j));
  }

  lemma HasHere(w: bv32, i: nat)
    requires i < 32
    ensures Has(w | NthBit(i), i) && !Has(w & !NthBit(i), i)
  {
    OwnBit(i);
    hide NthBit;
    MaskHere(w, NthBit(i));
  }

  lemma LowByte(w: bv32)
    requires forall j: nat :: j < 8 ==> Has(w, j)
    ensures w & 0xFF == 0xFF
  {
    assert Has(w, 0) && Has(w, 1) && Has(w, 2) && Has(w, 3) && Has(w, 4) && Has(w, 5) && Has(w, 6) && Has(w, 7);
  }

  lemma SecondByte(w: bv32)
    requires forall j: nat :: 8 <= j < 16 ==> Has(w, j)
    ensures w & 0xFF00 == 0xFF00
  {
    assert Has(w, 8) && Has(w, 9) && Has(w, 10) && Has(w, 11) && Has(w, 12) && Has(w, 13) && Has(w, 14) && Has(w, 15);
  }

  lemma ThirdByte(w: bv32)
    requires forall j: nat :: 16 <= j < 24 ==> Has(w, j)
    ensures w & 0xFF_0000 == 0xFF_0000
  {
    assert Has(w, 16) && Has(w, 17) && Has(w, 18) && Has(w, 19) && Has(w, 20) && Has(w, 21) && Has(w, 22) && Has(w, 23);
  }

  lemma HighByte(w: bv32)
    requires forall j: nat :: 24 <= j < 32 ==> Has(w, j)
    ensures w & 0xFF00_0000 == 0xFF00_0000
  {
    assert Has(w, 24) && Has(w, 25) && Has(w, 26) && Has(w, 27) && Has(w, 28) && Has(w, 29) && Has(w, 30) && Has(w, 31);
  }

  /** A word equals all ones exactly when each of its bits is set. */
  lemma FullWord(w: bv32)
    ensures w == 0xFFFF_FFFF <==> forall j: nat :: j < 32 ==> Has(w, j)
  {
    if w == 0xFFFF_FFFF {
      forall j: nat | j < 32 ensures Has(w, j) { OwnBit(j); }
    }
    hide Has;
    if forall j: nat :: j < 32 ==> Has(w, j) {
      LowByte(w);
      SecondByte(w);
      ThirdByte(w);
      HighByte(w);
    }
  }

  /** Changing bit `b` of its word changes the membership of frame `b` alone. */
  lemma WordChange(words: seq<bv32>, b: nat, w: bv32, on: bool)
    requires b < 32 * |words|
    requires forall j: nat :: j < 32 ==> (Has(w, j) <==> if j == b % 32 then on else Has(words[b / 32], j))
    ensures Taken(words[b / 32 := w]) == if on then Taken(words) + {b} else Taken(words) - {b}
  {
    hide Has;
    var words' := words[b / 32 := w];
    forall c: nat | c < 32 * |words| ensures Bit(words', c) <==> if c == b then on else Bit(words, c) {
      assert c == 32 * (c / 32) + c % 32 && b == 32 * (b / 32) + b % 32;
    }
    hide Bit;
    assert forall c :: c in Taken(words') <==> if c == b then on else c in Taken(words);
  }

  /** Setting one bit adds exactly that frame. */
  lemma BitSet(words: seq<bv32>, b: nat)
    requires b < 32 * |words|
    ensures Taken(words[b / 32 := words[b / 32] | NthBit(b % 32)]) == Taken(words) + {b}
  {
    hide Has, NthBit, Taken;
    var i, w := b % 32, words[b / 32];
    forall j: nat | j < 32 ensures Has(w | NthBit(i), j) <==> if j == i then true else Has(w, j) {
      if j == i { HasHere(w, i); } else { HasAfterSet(w, i, j); }
    }
    WordChange(words, b, w | NthBit(i), true);
  }

  /** Clearing one bit removes exactly that frame. */
  lemma BitCleared(words: seq<bv32>, b: nat)
    requires b < 32 * |words|
    ensures Taken(words[b / 32 := words[b / 32] & !NthBit(b % 32)]) == Taken(words) - {b}
  {
    hide Has, NthBit, Taken;
    var i, w := b % 32, words[b / 32];
    forall j: nat | j < 32 ensures Has(w & !NthBit(i), j) <==> if j == i then false else Has(w, j) {
      if j == i { HasHere(w, i); } else { HasAfterClear(w, i, j); }
    }
    WordChange(words, b, w & !NthBit(i), false);
  }

  datatype PageResult = OutOfMemory /* the kernel aborts */ | Page(addr: nat)

  class FrameAllocator {
    const bitmap: array<bv32>
    const maxBlocks: nat
    var usedBlocks: u32

    /** Takes over a bitmap and counters as boot leaves them. */
    constructor (bitmap: array<bv32>, maxBlocks: nat, usedBlocks: u32)
      ensures this.bitmap == bitmap && this.maxBlocks == maxBlocks && this.usedBlocks == usedBlocks
    {
      this.bitmap, this.maxBlocks, this.usedBlocks := bitmap, maxBlocks, usedBlocks;
    }

    ghost predicate Valid()
      reads this, bitmap
    {
      bitmap.Length == FRAMES / 32 && maxBlocks < FRAMES && 0 in Used()
    }

    /** The taken frames. Frame 0 is always one of them. */
    ghost function Used(): set<nat>
      reads this, bitmap
    {
      Taken(bitmap[..])
    }

    /** The searches look at whole words only. */
    function Scanned(): nat { Scan(maxBlocks) }

    method MmapSet(bit: nat)
      requires bit < 32 * bitmap.Length
      modifies this`usedBlocks, bitmap
      ensures Used() == old(Used()) + {bit} && usedBlocks == Wrap(old(usedBlocks) + 1)
    {
      hide Taken, NthBit;
      BitSet(bitmap[..], bit);
      bitmap[bit / 32] := bitmap[bit / 32] | NthBit(bit % 32);
      usedBlocks := Wrap(usedBlocks + 1);
    }

    method MmapUnset(bit: nat)
      requires bit < 32 * bitmap.Length
      modifies this`usedBlocks, bitmap
      ensures Used() == old(Used()) - {bit} && usedBlocks == Wrap(old(usedBlocks) - 1)
    {
      hide Taken, NthBit;
      BitCleared(bitmap[..], bit);
      bitmap[bit / 32] := bitmap[bit / 32] & !NthBit(bit % 32);
      usedBlocks := Wrap(usedBlocks - 1);
    }

    lemma BitOfWord(i: nat, j: nat)
      requires i < bitmap.Length && j < 32
      ensures Has(bitmap[i], j) <==> i * 32 + j in Used()
    {
      assert (i * 32 + j) / 32 == i && (i * 32 + j) % 32 == j;
      assert bitmap[..][i] == bitmap[i];
    }

    /** A word of all ones holds no free frame. */
    lemma FullWordTaken(i: nat)
      requires i < bitmap.Length && bitmap[i] == 0xFFFF_FFFF
      ensures forall b: nat :: i * 32 <= b < i * 32 + 32 ==> b in Used()
    {
      FullWord(bitmap[i]);
      forall b: nat | i * 32 <= b < i * 32 + 32 ensures b in Used() {
        BitOfWord(i, b - i * 32);
      }
    }

    /** The lowest free frame the scan reaches, or 0. */
    method MmapFindFree() returns (r: nat)
      requires Valid()
      ensures r == FirstRun(Used(), 1, Scanned(), 1)
    {
      hide Has, NthBit, Taken, FirstRun;
      ghost var used := Used();
      var i := 0;
      while i < maxBlocks / 32
        invariant i <= maxBlocks / 32 && used == Used()
        invariant forall b: nat :: b < 32 * i ==> b in used
      {
        if bitmap[i] != 0xFFFF_FFFF {
          var j := 0;
          while j < 32
            invariant j <= 32 && used == Used()
            invariant forall b: nat :: b < 32 * i + j ==> b in used
          {
            BitOfWord(i, j);
            if !Has(bitmap[i], j) {
              LowestFree(used, Scanned(), i * 32 + j);
              return i * 32 + j;
            }
            j := j + 1;
          }
        } else {
          FullWordTaken(i);
        }
        i := i + 1;
      }
      NoneFree(used, Scanned());
      return 0;
    }

    /** The lowest start of `frameSize` free frames the scan reaches, or 0 when there is none. */
    method MmapFindFreeFrame(frameSize: nat) returns (r: nat)
      requires Valid()
      ensures r == FirstRun(Used(), frameSize, Scanned(), 1)
    {
      hide Has, NthBit, Taken, FirstRun, Scanning;
      ghost var used := Used();
      ghost var limit := Scanned();
      var first: nat, count: nat := 0, 0;
      ScanStarts(used, frameSize, limit);
      var i := 0;
      while i < maxBlocks / 32
        invariant i <= maxBlocks / 32 && used == Used()
        invariant frameSize > 0 ==> Scanning(used, frameSize, limit, 32 * i, first, count)
        invariant first == 0 <==> count == 0
      {
        if bitmap[i] != 0xFFFF_FFFF {
          var j := 0;
          while j < 32
            invariant j <= 32 && used == Used()
            invariant frameSize > 0 ==> Scanning(used, frameSize, limit, 32 * i + j, first, count)
            invariant first == 0 <==> count == 0
          {
            BitOfWord(i, j);
            if !Has(bitmap[i], j) {
              if frameSize > 0 { ScanFree(used, frameSize, limit, i * 32 + j, first, count); }
              if first == 0 {
                first := i * 32 + j;
              }
              count := count + 1;
            } else {
              if frameSize > 0 { ScanTaken(used, frameSize, limit, i * 32 + j, first, count); }
              first := 0;
              count := 0;
            }
            if count == frameSize {
              return first;
            }
            j := j + 1;
          }
        } else {
          FullWordTaken(i);
          if frameSize > 0 { ScanTakenWord(used, frameSize, limit, 32 * i, first, count, 32); }
          first := 0;
          count := 0;
        }
        i := i + 1;
      }
      if frameSize > 0 { ScanEnds(used, frameSize, limit, first, count); }
      return 0;
    }

    method PmmInitRegion(addr: nat, size: nat)
      requires bitmap.Length == FRAMES / 32 && addr < WORD_LIMIT && size < WORD_LIMIT && addr + size <= WORD_LIMIT
      modifies this`usedBlocks, bitmap
      ensures Used() == old(Used()) - Range(FirstFrame(addr), FrameCount(addr, size)) + {0}
      ensures usedBlocks == Wrap(old(usedBlocks) - FrameCount(addr, size) + 1)
    {
      hide Taken, Wrap;
      var base, num := addr / BLOCK_SIZE, DivideUp(size + addr % BLOCK_SIZE, BLOCK_SIZE);
      var i := 0;
      WrapSame(usedBlocks);
      while i < num
        invariant i <= num
        invariant Used() == old(Used()) - Range(base, i)
        invariant usedBlocks == Wrap(old(usedBlocks) - i)
      {
        WrapAdd(old(usedBlocks) - i, -1);
        MmapUnset(base + i);
        i := i + 1;
      }
      WrapAdd(old(usedBlocks) - num, 1);
      MmapSet(0);
    }

    method PmmDeinitRegion(addr: nat, size: nat)
      requires bitmap.Length == FRAMES / 32 && addr < WORD_LIMIT && size < WORD_LIMIT && addr + size <= WORD_LIMIT
      modifies this`usedBlocks, bitmap
      ensures Used() == old(Used()) + Range(FirstFrame(addr), FrameCount(addr, size))
      ensures usedBlocks == Wrap(old(usedBlocks) + FrameCount(addr, size))
    {
      hide Taken, Wrap;
      var base, num := addr / BLOCK_SIZE, DivideUp(size + addr % BLOCK_SIZE, BLOCK_SIZE);
      TakeRange(base, num);
    }

    /** Sets `num` bits in turn. */
    method TakeRange(base: nat, num: nat)
      requires base + num <= 32 * bitmap.Length
      modifies this`usedBlocks, bitmap
      ensures Used() == old(Used()) + Range(base, num)
      ensures usedBlocks == Wrap(old(usedBlocks) + num)
    {
      hide Taken, Wrap;
      var i := 0;
      WrapSame(usedBlocks);
      while i < num
        invariant i <= num
        invariant Used() == old(Used()) + Range(base, i)
        invariant usedBlocks == Wrap(old(usedBlocks) + i)
      {
        WrapAdd(old(usedBlocks) + i, 1);
        MmapSet(base + i);
        i := i + 1;
      }
    }

    /** One frame, zero when the scan finds none, or the abort when the counters say none is left. */
    method PmmAllocPage() returns (r: PageResult)
      requires Valid()
      modifies this`usedBlocks, bitmap
      ensures Valid()
      ensures r.OutOfMemory? <==> old(usedBlocks) == maxBlocks
      ensures var f := FirstRun(old(Used()), 1, Scanned(), 1);
        if r.OutOfMemory? || f == 0
        then Used() == old(Used()) && usedBlocks == old(usedBlocks) && (r.Page? ==> r.addr == 0)
        else r.addr == f * BLOCK_SIZE && f !in old(Used()) && Used() == old(Used()) + {f}
             && usedBlocks == Wrap(old(usedBlocks) + 1)
    {
      hide Taken, FirstRun;
      if Wrap(maxBlocks - usedBlocks) == 0 {
        return OutOfMemory;
      }
      var block := MmapFindFree();
      if block == 0 {
        return Page(0);
      }
      FirstRunIsLowest(Used(), 1, Scanned(), 1);
      assert FreeRun(Used(), block, 1) && block !in Used();
      MmapSet(block);
      r := Page(block * BLOCK_SIZE);
    }

    method PmmAllocPages(num: nat) returns (addr: nat)
      requires Valid()
      modifies this`usedBlocks, bitmap
      ensures Valid()
      ensures var f := PagesChoice(old(Used()), maxBlocks, old(usedBlocks), num);
        && addr == f * BLOCK_SIZE && f < FRAMES
        && (f == 0 ==> Used() == old(Used()) && usedBlocks == old(usedBlocks))
        && (f != 0 ==> Used() == old(Used()) + Range(f, num) && usedBlocks == Wrap(old(usedBlocks) + num))
      ensures var s := addr / BLOCK_SIZE;
        if num == 0 || Wrap(maxBlocks - old(usedBlocks)) < num then addr == 0
        else
          && (s != 0 ==> s + num <= maxBlocks / 32 * 32 && Range(s, num) !! old(Used()))
          && forall t: nat :: 0 < t && t + num <= maxBlocks / 32 * 32 && (s == 0 || t < s) ==>
               !(Range(t, num) !! old(Used()))
    {
      hide Taken, FirstRun;
      PagesChoiceIsFree(Used(), maxBlocks, usedBlocks, num);
      PagesChoiceIsLowest(Used(), maxBlocks, usedBlocks, num);
      if Wrap(maxBlocks - usedBlocks) < num {
        return 0;
      }
      var first := MmapFindFreeFrame(num);
      if first == 0 {
        return 0;
      }
      TakeRange(first, num);
      addr := first * BLOCK_SIZE;
    }

    method PmmAllocAlignedLargePage() returns (addr: nat)
      requires Valid()
      modifies this`usedBlocks, bitmap
      ensures Valid()
      ensures var f := LargeChoice(old(Used()), maxBlocks, old(usedBlocks));
        && addr == f * BLOCK_SIZE && f < FRAMES
        && (f == 0 ==> Used() == old(Used()) && usedBlocks == old(usedBlocks))
        && (f != 0 ==> Used() == old(Used()) + Range(f, LARGE) && usedBlocks == Wrap(old(usedBlocks) + LARGE))
      ensures var run := FirstRun(old(Used()), 2048, Scanned(), 1);
        addr == if Wrap(maxBlocks - old(usedBlocks)) < 2048 || run == 0 then 0 else (run / 1024 + 1) * 0x40_0000
    {
      hide Taken, FirstRun;
      LargeChoiceIsFree(Used(), maxBlocks, usedBlocks);
      if Wrap(maxBlocks - usedBlocks) < 2 * 1024 {
        return 0;
      }
      var free := MmapFindFreeFrame(2 * 1024);
      if free == 0 {
        return 0;
      }
      var aligned := (free / 1024 + 1) * 1024;
      TakeRange(aligned, 1024);
      addr := aligned * BLOCK_SIZE;
    }

    /** Gives one frame back. Bit 0 stays set exactly when the frame is not frame 0. */
    method PmmFreePage(addr: nat)
      requires Valid() && addr < WORD_LIMIT
      modifies this`usedBlocks, bitmap
      ensures Used() == old(Used()) - {FirstFrame(addr)} && usedBlocks == Wrap(old(usedBlocks) - 1)
      ensures Valid() <==> FirstFrame(addr) != 0
    {
      hide Taken, Wrap;
      MmapUnset(addr / BLOCK_SIZE);
    }

    method PmmFreePages(addr: nat, num: nat)
      requires Valid() && addr / BLOCK_SIZE + num <= FRAMES
      modifies this`usedBlocks, bitmap
      ensures Used() == old(Used()) - Range(FirstFrame(addr), num)
      ensures usedBlocks == Wrap(old(usedBlocks) - num)
      ensures Valid() <==> num == 0 || FirstFrame(addr) != 0
    {
      hide Taken, Wrap;
      var first := addr / BLOCK_SIZE;
      var i := 0;
      WrapSame(usedBlocks);
      while i < num
        invariant i <= num
        invariant Used() == old(Used()) - Range(first, i)
        invariant usedBlocks == Wrap(old(usedBlocks) - i)
      {
        WrapAdd(old(usedBlocks) - i, -1);
        MmapUnset(first + i);
        i := i + 1;
      }
    }
  }
}
