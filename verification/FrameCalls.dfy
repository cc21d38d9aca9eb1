/** The frame allocator's methods do what the runs of `FrameRuns` say. */
module FrameCalls {
  import opened Arith
  import opened FrameModel
  import opened FrameBitmap
  import opened FrameRuns

  /** The allocator, and what its clients hold. */
  ghost function Snapshot(pmm: FrameAllocator, held: map<nat, nat>): World
    reads pmm, pmm.bitmap
  {
    World(pmm.Used(), pmm.usedBlocks, held)
  }

  /** A held range lies in the bitmap and does not hold frame 0. */
  lemma HeldRangeFits(words: seq<bv32>, w: World, base: set<nat>, owner: map<nat, nat>, start: nat)
    requires Owned(w, base, owner) && start in w.held && w.used == Taken(words) && |words| == FRAMES / 32
    ensures w.held[start] > 0 ==> 0 < start && start + w.held[start] <= FRAMES
  {
    hide Range, Bit;
    var n := w.held[start];
    if n > 0 {
      assert Owns(w.held, start, start) && Owns(w.held, start, start + n - 1);
    }
  }

  /** One call of a client that keeps a record of what it holds. */
  method Perform(pmm: FrameAllocator, c: Call, held: map<nat, nat>, ghost base: set<nat>, ghost owner: map<nat, nat>)
    returns (now: map<nat, nat>)
    requires pmm.Valid() && Legal(Snapshot(pmm, held), c) && Owned(Snapshot(pmm, held), base, owner)
    requires forall s :: s in held ==> held[s] > 0
    modifies pmm`usedBlocks, pmm.bitmap
    ensures pmm.Valid() && Snapshot(pmm, now) == Step(old(Snapshot(pmm, held)), pmm.maxBlocks, c)
    ensures forall s :: s in now ==> now[s] > 0
  {
    hide Taken, Range, FirstRun, PagesChoice, LargeChoice, Owned;
    ghost var w := Snapshot(pmm, held);
    ChoiceIsFree(w, pmm.maxBlocks, c);
    now := held;
    match c {
      case PageCall =>
        var page := pmm.PmmAllocPage();
        if page.Page? && page.addr != 0 { now := held[page.addr / BLOCK_SIZE := 1]; }
      case PagesCall(n) =>
        var addr := pmm.PmmAllocPages(n);
        if addr != 0 { now := held[addr / BLOCK_SIZE := n]; }
      case LargeCall =>
        var addr := pmm.PmmAllocAlignedLargePage();
        if addr != 0 { now := held[addr / BLOCK_SIZE := LARGE]; }
      case FreeCall(start) =>
        HeldRangeFits(pmm.bitmap[..], w, base, owner, start);
        pmm.PmmFreePages(start * BLOCK_SIZE, held[start]);
        now := held - {start};
    }
  }

  /** The run has got to call `i`, in state `w`. */
  ghost predicate Reached(boot: World, w: World, maxBlocks: nat, calls: seq<Call>, i: nat, owner: map<nat, nat>) {
    && i <= |calls| && LegalRun(boot, maxBlocks, calls)
    && Owned(w, boot.used, owner) && Counted(w.used, w.usedBlocks, boot.usedBlocks - |boot.used|)
    && LegalRun(w, maxBlocks, calls[i..])
    && Run(w, maxBlocks, calls[i..]) == Run(boot, maxBlocks, calls)
  }

  lemma ReachedFirst(boot: World, maxBlocks: nat, calls: seq<Call>)
    requires LegalRun(boot, maxBlocks, calls)
    requires 0 in boot.used && boot.usedBlocks < WORD_LIMIT && boot.held == map[]
    ensures Reached(boot, boot, maxBlocks, calls, 0, map[])
  {
    BootIsOwned(boot.used, boot.usedBlocks);
    assert calls[0..] == calls;
  }

  lemma ReachedNext(boot: World, w: World, maxBlocks: nat, calls: seq<Call>, i: nat, owner: map<nat, nat>)
    returns (owner': map<nat, nat>)
    requires Reached(boot, w, maxBlocks, calls, i, owner) && i < |calls|
    ensures Owned(w, boot.used, owner) && Legal(w, calls[i])
    ensures Reached(boot, Step(w, maxBlocks, calls[i]), maxBlocks, calls, i + 1, owner')
  {
    hide Step, Legal, Owned, Counted;
    assert calls[i..][0] == calls[i] && calls[i..][1..] == calls[i + 1..];
    owner' := StepKeeps(w, maxBlocks, calls[i], boot.used, boot.usedBlocks - |boot.used|, owner);
  }

  lemma ReachedLast(boot: World, w: World, maxBlocks: nat, calls: seq<Call>, owner: map<nat, nat>)
    requires Reached(boot, w, maxBlocks, calls, |calls|, owner)
    ensures w == Run(boot, maxBlocks, calls) && OwnedOnce(w, boot.used)
  {
    OwnedMeansOnce(w, boot.used, owner);
  }

  /** A whole run of calls, from an allocator nobody holds anything of: its code ends in the state the run ends in,
      where every frame handed out has one holder and every other frame is as it was. */
  method PerformAll(pmm: FrameAllocator, calls: seq<Call>) returns (held: map<nat, nat>)
    requires pmm.Valid() && LegalRun(Snapshot(pmm, map[]), pmm.maxBlocks, calls)
    modifies pmm`usedBlocks, pmm.bitmap
    ensures pmm.Valid() && Snapshot(pmm, held) == Run(old(Snapshot(pmm, map[])), pmm.maxBlocks, calls)
    ensures OwnedOnce(Snapshot(pmm, held), old(pmm.Used()))
  {
    ghost var boot := Snapshot(pmm, map[]);
    ghost var owner: map<nat, nat> := map[];
    held := map[];
    ReachedFirst(boot, pmm.maxBlocks, calls);
    hide *;
    var i := 0;
    while i < |calls|
      invariant i <= |calls| && pmm.Valid() && forall s :: s in held ==> held[s] > 0
      invariant Reached(boot, Snapshot(pmm, held), pmm.maxBlocks, calls, i, owner)
    {
      ghost var owner' := ReachedNext(boot, Snapshot(pmm, held), pmm.maxBlocks, calls, i, owner);
      held := Perform(pmm, calls[i], held, boot.used, owner);
      owner := owner';
      i := i + 1;
    }
    ReachedLast(boot, Snapshot(pmm, held), pmm.maxBlocks, calls, owner);
  }
}
