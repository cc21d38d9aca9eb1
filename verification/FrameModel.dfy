/** Physical frames as a set of taken frame numbers: what the allocator looks for and hands out. */
module FrameModel {
  import opened Arith

  const BLOCK_SIZE: nat := 4096  // PMM_BLOCK_SIZE
  const FRAMES: nat := 0x10_0000

  ghost predicate FreeRun(used: set<nat>, start: nat, n: nat) {
    forall f: nat :: start <= f < start + n ==> f !in used
  }

  /** The lowest start, from `from` on, of `n` free frames below `limit`; 0 when there is none. */
  ghost function FirstRun(used: set<nat>, n: nat, limit: nat, from: nat): nat
    decreases limit - from
  {
    if n == 0 || from + n > limit then 0
    else if FreeRun(used, from, n) then from
    else FirstRun(used, n, limit, from + 1)
  }

  /** `FirstRun` is what a plain scan would find: a run when it is not 0, the lowest one, and 0 only
      when no run exists. */
  lemma {:induction false} FirstRunIsLowest(used: set<nat>, n: nat, limit: nat, from: nat)
    requires from > 0 && n > 0
    ensures var r := FirstRun(used, n, limit, from);
      && (r != 0 ==> from <= r && r + n <= limit && FreeRun(used, r, n))
      && (forall s: nat :: from <= s && s + n <= limit && (r == 0 || s < r) ==> !FreeRun(used, s, n))
    decreases limit - from
  {
    if from + n <= limit && !FreeRun(used, from, n) {
      FirstRunIsLowest(used, n, limit, from + 1);
    }
  }

  /** Starts known to be blocked can be skipped. */
  lemma {:induction false} SkipBlocked(used: set<nat>, n: nat, limit: nat, from: nat, until: nat)
    requires from <= until && forall s: nat :: from <= s < until ==> !FreeRun(used, s, n)
    ensures FirstRun(used, n, limit, from) == FirstRun(used, n, limit, until)
    decreases until - from
  {
    if from < until {
      SkipBlocked(used, n, limit, from + 1, until);
    }
  }

  function Range(start: nat, n: nat): (r: set<nat>)
    ensures forall f: nat :: f in r <==> start <= f < start + n
  {
    if n == 0 then {} else Range(start, n - 1) + {start + n - 1}
  }

  lemma LowestFree(used: set<nat>, limit: nat, f: nat)
    requires 0 < f < limit && f !in used && forall b: nat :: b < f ==> b in used
    ensures FirstRun(used, 1, limit, 1) == f
  {
    forall s: nat | 1 <= s < f ensures !FreeRun(used, s, 1) { assert s in used; }
    SkipBlocked(used, 1, limit, 1, f);
  }

  lemma NoneFree(used: set<nat>, limit: nat)
    requires forall b: nat :: b < limit ==> b in used
    ensures FirstRun(used, 1, limit, 1) == 0
  {
    forall s: nat | 1 <= s < limit ensures !FreeRun(used, s, 1) { assert s in used; }
    if limit > 1 { SkipBlocked(used, 1, limit, 1, limit); }
  }

  /** Where the next run can start once the scan stands at `pos` with `count` free frames behind it. */
  function Candidate(first: nat, pos: nat): nat {
    if first != 0 then first else if pos == 0 then 1 else pos
  }

  /** The scan at `pos`: `count` frames are free just before it, starting at `first`, fewer than `n`,
      and no run starts earlier. `first` and `count` are 0 together. */
  ghost predicate Scanning(used: set<nat>, n: nat, limit: nat, pos: nat, first: nat, count: nat) {
    && (first == 0 <==> count == 0) && (first != 0 ==> first + count == pos) && count < n
    && FreeRun(used, first, count)
    && FirstRun(used, n, limit, Candidate(first, pos)) == FirstRun(used, n, limit, 1)
  }

  lemma ScanStarts(used: set<nat>, n: nat, limit: nat)
    ensures n > 0 ==> Scanning(used, n, limit, 0, 0, 0)
    ensures n == 0 ==> FirstRun(used, n, limit, 1) == 0
  {
  }

  lemma ScanFree(used: set<nat>, n: nat, limit: nat, pos: nat, first: nat, count: nat)
    requires 0 in used && Scanning(used, n, limit, pos, first, count) && pos < limit && pos !in used
    ensures var first' := if first == 0 then pos else first;
      if count + 1 == n then FirstRun(used, n, limit, 1) == first'
          else Scanning(used, n, limit, pos + 1, first', count + 1)
  {
  }

  lemma ScanTaken(used: set<nat>, n: nat, limit: nat, pos: nat, first: nat, count: nat)
    requires Scanning(used, n, limit, pos, first, count) && pos in used
    ensures Scanning(used, n, limit, pos + 1, 0, 0)
  {
    if pos > 0 {
      forall s: nat | Candidate(first, pos) <= s < pos + 1 ensures !FreeRun(used, s, n) {
        assert s <= pos < s + n;
      }
      SkipBlocked(used, n, limit, Candidate(first, pos), pos + 1);
    }
  }

  lemma {:induction false} ScanTakenWord(used: set<nat>, n: nat, limit: nat, pos: nat, first: nat, count: nat, k: nat)
    requires Scanning(used, n, limit, pos, first, count) && k > 0
    requires forall b: nat :: pos <= b < pos + k ==> b in used
    ensures Scanning(used, n, limit, pos + k, 0, 0)
    decreases k
  {
    ScanTaken(used, n, limit, pos, first, count);
    if k > 1 { ScanTakenWord(used, n, limit, pos + 1, 0, 0, k - 1); }
  }

  lemma ScanEnds(used: set<nat>, n: nat, limit: nat, first: nat, count: nat)
    requires Scanning(used, n, limit, limit, first, count)
    ensures FirstRun(used, n, limit, 1) == 0
  {
  }

  // ----- regions of bytes

  function FirstFrame(addr: nat): nat { addr / BLOCK_SIZE }

  function FrameCount(addr: nat, size: nat): nat {
    DivideUp(size + addr % BLOCK_SIZE, BLOCK_SIZE)
  }

  /** Some byte of the region lies in frame `f`. */
  ghost predicate Touches(f: nat, addr: nat, size: nat) {
    exists a: nat :: addr <= a < addr + size && FirstFrame(a) == f
  }

  /** The frames marked for a region are those it touches, exactly unless the region is empty and
      starts inside a frame, when one frame is marked all the same. */
  lemma RegionFrames(addr: nat, size: nat)
    ensures (forall f: nat :: f in Range(FirstFrame(addr), FrameCount(addr, size)) <==> Touches(f, addr, size))
            <==> size > 0 || addr % BLOCK_SIZE == 0
    ensures size > 0 ==> forall f: nat :: f in Range(FirstFrame(addr), FrameCount(addr, size)) <==>
                                          4096 * f < addr + size && addr < 4096 * f + 4096
  {
    var first, num := FirstFrame(addr), FrameCount(addr, size);
    if size > 0 || addr % BLOCK_SIZE == 0 {
      forall f: nat ensures f in Range(first, num) <==> Touches(f, addr, size) {
        if f in Range(first, num) {
          var a := if f == first then addr else f * BLOCK_SIZE;
          assert FirstFrame(a) == f;
        }
      }
    } else {
      assert first in Range(first, num);
    }
  }

  /** The frames of a region are in the bitmap exactly when the region ends within 4 GiB. */
  lemma RegionFitsExactly(addr: nat, size: nat)
    requires addr < WORD_LIMIT
    ensures FirstFrame(addr) + FrameCount(addr, size) <= FRAMES <==> addr + size <= WORD_LIMIT
  {
    var q, r := addr / BLOCK_SIZE, addr % BLOCK_SIZE;
    var n := size + r;
    assert addr == q * BLOCK_SIZE + r && n == n / BLOCK_SIZE * BLOCK_SIZE + n % BLOCK_SIZE;
  }

  lemma RegionCovers(addr: nat, size: nat, a: nat)
    requires addr <= a < addr + size
    ensures FirstFrame(a) in Range(FirstFrame(addr), FrameCount(addr, size))
  {
    RegionFrames(addr, size);
    assert Touches(FirstFrame(a), addr, size);
  }

  // ----- what the allocation calls choose

  const LARGE: nat := 1024  // frames in a 4 MiB page

  /** Blocks left by the counters, in unsigned 32-bit arithmetic. */
  function Left(maxBlocks: nat, usedBlocks: nat): nat { Wrap(maxBlocks - usedBlocks) }

  function Scan(maxBlocks: nat): nat { maxBlocks / 32 * 32 }

  /** `pmm_alloc_pages`: the first of the `n` frames it takes, or 0. */
  ghost function PagesChoice(used: set<nat>, maxBlocks: nat, usedBlocks: nat, n: nat): nat {
    if Left(maxBlocks, usedBlocks) < n then 0 else FirstRun(used, n, Scan(maxBlocks), 1)
  }

  /** `pmm_alloc_aligned_large_page`: the 4 MiB boundary inside an 8 MiB run. */
  ghost function LargeChoice(used: set<nat>, maxBlocks: nat, usedBlocks: nat): nat {
    var f := PagesChoice(used, maxBlocks, usedBlocks, 2 * LARGE);
    if f == 0 then 0 else (f / LARGE + 1) * LARGE
  }

  /** The frames chosen are free and lie where the scan looks. */
  lemma PagesChoiceIsFree(used: set<nat>, maxBlocks: nat, usedBlocks: nat, n: nat)
    ensures var f := PagesChoice(used, maxBlocks, usedBlocks, n);
      f != 0 ==> n > 0 && f + n <= Scan(maxBlocks) && Range(f, n) !! used && 0 !in Range(f, n)
  {
    if n > 0 { FirstRunIsLowest(used, n, Scan(maxBlocks), 1); }
  }

  /** The aligned large page lies inside the free run found, so all its frames are free. */
  lemma LargeChoiceIsFree(used: set<nat>, maxBlocks: nat, usedBlocks: nat)
    ensures var run, f := PagesChoice(used, maxBlocks, usedBlocks, 2 * LARGE), LargeChoice(used, maxBlocks, usedBlocks);
      f != 0 ==> f % LARGE == 0 && run <= f && f + LARGE <= run + 2 * LARGE
                 && f + LARGE <= Scan(maxBlocks) && Range(f, LARGE) !! used && 0 !in Range(f, LARGE)
  {
    hide FirstRun;
    PagesChoiceIsFree(used, maxBlocks, usedBlocks, 2 * LARGE);
    var run, f := PagesChoice(used, maxBlocks, usedBlocks, 2 * LARGE), LargeChoice(used, maxBlocks, usedBlocks);
    if f != 0 {
      forall g | g in Range(f, LARGE) ensures g !in used { assert g in Range(run, 2 * LARGE); }
    }
  }

  lemma FreeRunIs(used: set<nat>, s: nat, n: nat)
    ensures FreeRun(used, s, n) <==> Range(s, n) !! used
  {
    if FreeRun(used, s, n) {
      assert forall f :: f in Range(s, n) ==> f !in used;
    } else {
      var f: nat :| s <= f < s + n && f in used;
      assert f in Range(s, n);
    }
  }

  /** `pmm_alloc_pages` chooses the lowest run of free frames among the words scanned when the counters leave as
      many, and no frame when they do not or there is no run. */
  lemma PagesChoiceIsLowest(used: set<nat>, maxBlocks: nat, usedBlocks: nat, n: nat)
    ensures var f := PagesChoice(used, maxBlocks, usedBlocks, n);
      if n == 0 || Wrap(maxBlocks - usedBlocks) < n then f == 0
      else
        && (f != 0 ==> f + n <= maxBlocks / 32 * 32 && Range(f, n) !! used)
        && forall s: nat :: 0 < s && s + n <= maxBlocks / 32 * 32 && (f == 0 || s < f) ==> !(Range(s, n) !! used)
  {
    hide FirstRun, FreeRun, Range;
    var f := PagesChoice(used, maxBlocks, usedBlocks, n);
    if n > 0 && Wrap(maxBlocks - usedBlocks) >= n {
      FirstRunIsLowest(used, n, Scan(maxBlocks), 1);
      if f != 0 { FreeRunIs(used, f, n); }
      forall s: nat | 0 < s && s + n <= maxBlocks / 32 * 32 && (f == 0 || s < f) ensures !(Range(s, n) !! used) {
        FreeRunIs(used, s, n);
      }
    } else {
      NoFramesNoRun(used, Scan(maxBlocks));
    }
  }

  /** `pmm_alloc_aligned_large_page` chooses the first 4 MiB boundary past the start of the lowest run of 2048 free
      frames. */
  lemma LargeChoiceIsLowest(used: set<nat>, maxBlocks: nat, usedBlocks: nat)
    ensures var f := LargeChoice(used, maxBlocks, usedBlocks);
      && (f == 0 <==>
          Wrap(maxBlocks - usedBlocks) < 2048
          || forall t: nat :: 0 < t && t + 2048 <= maxBlocks / 32 * 32 ==> !(Range(t, 2048) !! used))
      && (f != 0 ==>
          exists s: nat ::
            && 0 < s && s + 2048 <= maxBlocks / 32 * 32 && Range(s, 2048) !! used
            && (forall t: nat :: 0 < t < s ==> !(Range(t, 2048) !! used))
            && f == (s / 1024 + 1) * 1024)
  {
    hide Range, PagesChoice;
    PagesChoiceIsLowest(used, maxBlocks, usedBlocks, 2 * LARGE);
    var s := PagesChoice(used, maxBlocks, usedBlocks, 2 * LARGE);
    if s != 0 { assert Range(s, 2048) !! used; }
  }

  /** The single frame allocated is the lowest free one among those scanned, and none exactly when all are taken. */
  lemma LowestFrame(used: set<nat>, limit: nat)
    ensures var f := FirstRun(used, 1, limit, 1);
      && (f != 0 ==> f < limit && f !in used)
      && forall g: nat :: 0 < g < limit && (f == 0 || g < f) ==> g in used
  {
    hide FirstRun;
    FirstRunIsLowest(used, 1, limit, 1);
    var f := FirstRun(used, 1, limit, 1);
    forall g: nat | 0 < g < limit && (f == 0 || g < f) ensures g in used {
      assert !FreeRun(used, g, 1);
    }
  }

  lemma NoFramesNoRun(used: set<nat>, limit: nat)
    ensures FirstRun(used, 0, limit, 1) == 0
  {
  }
}
