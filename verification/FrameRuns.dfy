/** Every run of frame allocations and frees after boot, and what it keeps. */
module FrameRuns {
  import opened Arith
  import opened FrameModel

  /** A free names the start of a range the client holds. */
  datatype Call = PageCall | PagesCall(n: nat) | LargeCall | FreeCall(start: nat)

  /** `held` maps the first frame of each range handed out to its length. */
  datatype World = World(used: set<nat>, usedBlocks: nat, held: map<nat, nat>)

  predicate Legal(w: World, c: Call) { c.FreeCall? ==> c.start in w.held }

  /** The range a call asks the bitmap for; nothing is taken when it starts at 0. */
  ghost function Choice(w: World, maxBlocks: nat, c: Call): (nat, nat) {
    match c
    case PageCall => (if w.usedBlocks == maxBlocks then 0 else FirstRun(w.used, 1, Scan(maxBlocks), 1), 1)
    case PagesCall(n) => (PagesChoice(w.used, maxBlocks, w.usedBlocks, n), n)
    case LargeCall => (LargeChoice(w.used, maxBlocks, w.usedBlocks), LARGE)
    case FreeCall(_) => (0, 0)
  }

  ghost function Step(w: World, maxBlocks: nat, c: Call): World
    requires Legal(w, c)
  {
    if c.FreeCall? then
      var n := w.held[c.start];
      World(w.used - Range(c.start, n), Wrap(w.usedBlocks - n), w.held - {c.start})
    else
      var (f, n) := Choice(w, maxBlocks, c);
      if f == 0 then w
      else World(w.used + Range(f, n), Wrap(w.usedBlocks + n), w.held[f := n])
  }

  ghost predicate LegalRun(w: World, maxBlocks: nat, calls: seq<Call>)
    decreases |calls|
  {
    calls == [] || (Legal(w, calls[0]) && LegalRun(Step(w, maxBlocks, calls[0]), maxBlocks, calls[1..]))
  }

  ghost function Run(w: World, maxBlocks: nat, calls: seq<Call>): World
    requires LegalRun(w, maxBlocks, calls)
    decreases |calls|
  {
    if calls == [] then w else Run(Step(w, maxBlocks, calls[0]), maxBlocks, calls[1..])
  }

  // ----- the invariant

  predicate Owns(held: map<nat, nat>, s: nat, f: nat) {
    s in held && f in Range(s, held[s])
  }

  /** `owner` maps each frame handed out to the start of its range: every held range is exactly the frames
      it owns, and the taken frames are the ones taken at boot plus the owned ones, with no overlap. */
  ghost predicate Owned(w: World, base: set<nat>, owner: map<nat, nat>) {
    && w.used == base + owner.Keys && base !! owner.Keys && 0 in base
    && (forall s, f :: Owns(w.held, s, f) <==> f in owner && owner[f] == s)
  }

  /** `usedBlocks` has kept its distance from the number of taken frames. */
  ghost predicate Counted(used: set<nat>, usedBlocks: nat, surplus: int) {
    usedBlocks == Wrap(|used| + surplus)
  }

  lemma RangeSize(start: nat, n: nat)
    ensures |Range(start, n)| == n
  {
    if n > 0 {
      RangeSize(start, n - 1);
      assert start + n - 1 !in Range(start, n - 1);
    }
  }

  lemma TakeCounts(used: set<nat>, usedBlocks: nat, surplus: int, f: nat, n: nat)
    requires Counted(used, usedBlocks, surplus) && Range(f, n) !! used
    ensures Counted(used + Range(f, n), Wrap(usedBlocks + n), surplus)
  {
    hide Range, Wrap;
    RangeSize(f, n);
    assert |used + Range(f, n)| == |used| + n;
    WrapAdd(|used| + surplus, n);
  }

  lemma FreeCounts(used: set<nat>, usedBlocks: nat, surplus: int, f: nat, n: nat)
    requires Counted(used, usedBlocks, surplus) && Range(f, n) <= used
    ensures Counted(used - Range(f, n), Wrap(usedBlocks - n), surplus)
  {
    hide Range, Wrap;
    RangeSize(f, n);
    assert used == used - Range(f, n) + Range(f, n);
    WrapAdd(|used| + surplus, 0 - n);
  }

  lemma StartIsTaken(w: World, base: set<nat>, owner: map<nat, nat>, f: nat)
    requires Owned(w, base, owner) && f in owner
    ensures owner[f] in w.used
  {
    hide Range;
    assert Owns(w.held, owner[f], f);
    assert Owns(w.held, owner[f], owner[f]);
  }

  lemma TakeOwns(w: World, base: set<nat>, owner: map<nat, nat>, f: nat, n: nat, blocks: nat)
    requires Owned(w, base, owner) && n > 0 && Range(f, n) !! w.used
    ensures Owned(World(w.used + Range(f, n), blocks, w.held[f := n]), base, owner + map g | g in Range(f, n) :: f)
  {
    hide Range;
    var owner' := owner + map g | g in Range(f, n) :: f;
    var held' := w.held[f := n];
    assert f in Range(f, n);
    forall g | g in owner ensures owner[g] != f { StartIsTaken(w, base, owner, g); }
    forall s, g ensures Owns(held', s, g) <==> g in owner' && owner'[g] == s {
      if s != f { assert Owns(held', s, g) <==> Owns(w.held, s, g); }
    }
  }

  lemma FreeOwns(w: World, base: set<nat>, owner: map<nat, nat>, start: nat, blocks: nat)
    requires Owned(w, base, owner) && start in w.held
    ensures Range(start, w.held[start]) <= w.used
    ensures Owned(World(w.used - Range(start, w.held[start]), blocks, w.held - {start}), base,
        owner - Range(start, w.held[start]))
  {
    hide Range;
    var r := Range(start, w.held[start]);
    var owner', held' := owner - r, w.held - {start};
    forall g | g in r ensures g in owner && owner[g] == start { assert Owns(w.held, start, g); }
    forall s, g ensures Owns(held', s, g) <==> g in owner' && owner'[g] == s {
      assert s != start ==> (Owns(held', s, g) <==> Owns(w.held, s, g));
      assert Owns(w.held, start, g) <==> g in r;
    }
  }

  // ----- the theorems

  /** What a call takes was free before. */
  lemma ChoiceIsFree(w: World, maxBlocks: nat, c: Call)
    ensures var (f, n) := Choice(w, maxBlocks, c);
      f != 0 ==> n > 0 && Range(f, n) !! w.used && f + n <= Scan(maxBlocks)
  {
    hide FirstRun;
    match c
    case PageCall =>
      FirstRunIsLowest(w.used, 1, Scan(maxBlocks), 1);
    case PagesCall(n) =>
      PagesChoiceIsFree(w.used, maxBlocks, w.usedBlocks, n);
    case LargeCall =>
      LargeChoiceIsFree(w.used, maxBlocks, w.usedBlocks);
    case FreeCall(_) =>
  }

  lemma StepKeeps(w: World, maxBlocks: nat, c: Call, base: set<nat>, surplus: int, owner: map<nat, nat>)
    returns (owner': map<nat, nat>)
    requires Owned(w, base, owner) && Counted(w.used, w.usedBlocks, surplus) && Legal(w, c)
    ensures var w' := Step(w, maxBlocks, c); Owned(w', base, owner') && Counted(w'.used, w'.usedBlocks, surplus)
  {
    hide Owned, Counted, Range, Choice;
    if c.FreeCall? {
      var n := w.held[c.start];
      owner' := owner - Range(c.start, n);
      FreeOwns(w, base, owner, c.start, Wrap(w.usedBlocks - n));
      FreeCounts(w.used, w.usedBlocks, surplus, c.start, n);
    } else {
      ChoiceIsFree(w, maxBlocks, c);
      var (f, n) := Choice(w, maxBlocks, c);
      if f == 0 {
        owner' := owner;
      } else {
        owner' := owner + map g | g in Range(f, n) :: f;
        TakeOwns(w, base, owner, f, n, Wrap(w.usedBlocks + n));
        TakeCounts(w.used, w.usedBlocks, surplus, f, n);
      }
    }
  }

  lemma {:induction false} RunKeeps(w: World, maxBlocks: nat, calls: seq<Call>, base: set<nat>, surplus: int,
      owner: map<nat, nat>)
    returns (owner': map<nat, nat>)
    requires Owned(w, base, owner) && Counted(w.used, w.usedBlocks, surplus) && LegalRun(w, maxBlocks, calls)
    ensures var w' := Run(w, maxBlocks, calls); Owned(w', base, owner') && Counted(w'.used, w'.usedBlocks, surplus)
    decreases |calls|
  {
    hide Owned, Counted, Step;
    if calls == [] {
      owner' := owner;
    } else {
      owner' := StepKeeps(w, maxBlocks, calls[0], base, surplus, owner);
      owner' := RunKeeps(Step(w, maxBlocks, calls[0]), maxBlocks, calls[1..], base, surplus, owner');
    }
  }

  /** A frame handed out is taken, was free at boot and has one holder; every other frame is as at boot. */
  ghost predicate OwnedOnce(w: World, base: set<nat>) {
    && base <= w.used
    && (forall s, f :: Owns(w.held, s, f) ==> f in w.used && f !in base)
    && (forall s, t, f :: Owns(w.held, s, f) && Owns(w.held, t, f) ==> s == t)
    && (forall f :: f in w.used - base ==> exists s :: Owns(w.held, s, f))
  }

  lemma OwnedMeansOnce(w: World, base: set<nat>, owner: map<nat, nat>)
    requires Owned(w, base, owner)
    ensures OwnedOnce(w, base) && (w.held == map[] ==> w.used == base)
  {
    hide Range;
    assert forall f :: f in owner ==> Owns(w.held, owner[f], f);
    if w.held == map[] {
      assert owner.Keys == {};
    }
  }

  lemma BootIsOwned(base: set<nat>, usedBlocks: nat)
    requires 0 in base && usedBlocks < WORD_LIMIT
    ensures Owned(World(base, usedBlocks, map[]), base, map[]) && Counted(base, usedBlocks, usedBlocks - |base|)
  {
  }

  /** From boot on, with nothing held: a frame taken at boot is never handed out, a held frame has one
      holder, `usedBlocks` keeps its distance from the number of taken frames, and once everything is
      freed both are what they were at boot. */
  lemma HeldFramesAreOwnedOnce(base: set<nat>, usedBlocks: nat, maxBlocks: nat, calls: seq<Call>)
    requires 0 in base && usedBlocks < WORD_LIMIT && LegalRun(World(base, usedBlocks, map[]), maxBlocks, calls)
    ensures var w := Run(World(base, usedBlocks, map[]), maxBlocks, calls);
      && OwnedOnce(w, base)
      && w.usedBlocks == Wrap(|w.used| - |base| + usedBlocks)
      && (w.held == map[] ==> w.used == base && w.usedBlocks == usedBlocks)
  {
    hide *;
    var boot := World(base, usedBlocks, map[]);
    BootIsOwned(base, usedBlocks);
    var owner := RunKeeps(boot, maxBlocks, calls, base, usedBlocks - |base|, map[]);
    var w := Run(boot, maxBlocks, calls);
    OwnedMeansOnce(w, base, owner);
    CountedMeans(w.used, w.usedBlocks, base, usedBlocks);
  }

  lemma CountedMeans(used: set<nat>, usedBlocks: nat, base: set<nat>, atBoot: nat)
    requires Counted(used, usedBlocks, atBoot - |base|) && atBoot < WORD_LIMIT
    ensures usedBlocks == Wrap(|used| - |base| + atBoot)
    ensures used == base ==> usedBlocks == atBoot
  {
  }

  /** After a run `usedBlocks` is the number of taken frames exactly when it was at boot. */
  lemma CountIsRightExactly(base: set<nat>, usedBlocks: nat, maxBlocks: nat, calls: seq<Call>)
    requires 0 in base && usedBlocks < WORD_LIMIT && LegalRun(World(base, usedBlocks, map[]), maxBlocks, calls)
    ensures var w := Run(World(base, usedBlocks, map[]), maxBlocks, calls);
      w.usedBlocks == Wrap(|w.used|) <==> usedBlocks == Wrap(|base|)
  {
    hide *;
    HeldFramesAreOwnedOnce(base, usedBlocks, maxBlocks, calls);
    var w := Run(World(base, usedBlocks, map[]), maxBlocks, calls);
    SameDistance(|w.used|, |base|, usedBlocks);
  }

  lemma SameDistance(now: nat, before: nat, counted: nat)
    requires counted < WORD_LIMIT
    ensures Wrap(now - before + counted) == Wrap(now) <==> counted == Wrap(before)
  {
    var q := before / WORD_LIMIT;
    assert before == q * WORD_LIMIT + Wrap(before);
    var d := counted - Wrap(before);
    WrapShift(now + d, 0 - q);
    assert now - before + counted == now + d + (0 - q) * WORD_LIMIT;
    NearValues(now, d);
  }

  lemma NearValues(x: int, d: int)
    requires 0 - WORD_LIMIT < d < WORD_LIMIT
    ensures Wrap(x + d) == Wrap(x) <==> d == 0
  {
  }

  /** A region reserved at boot stays out of every range handed out. */
  lemma ReservedRegionsStayReserved(base: set<nat>, usedBlocks: nat, maxBlocks: nat, calls: seq<Call>,
      addr: nat, size: nat, s: nat, a: nat)
    requires 0 in base && usedBlocks < WORD_LIMIT && Range(FirstFrame(addr), FrameCount(addr, size)) <= base
    requires LegalRun(World(base, usedBlocks, map[]), maxBlocks, calls)
    requires Owns(Run(World(base, usedBlocks, map[]), maxBlocks, calls).held, s, FirstFrame(a))
    ensures !(addr <= a < addr + size)
  {
    hide Step, Run, LegalRun, Range, Owns;
    HeldFramesAreOwnedOnce(base, usedBlocks, maxBlocks, calls);
    if addr <= a < addr + size {
      RegionCovers(addr, size, a);
    }
  }
}
