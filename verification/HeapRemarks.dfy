/** What the heap's own comments and its limit check rely on, and exactly when that holds. */
module HeapRemarks {
  import opened Arith
  import opened HeapModel
  import HeapRuns

  // ----- "we always have next_aligned >= next"

  /** The aligned address falls before the next one. */
  predicate Behind(end: nat, align: nat)
    requires align > 0
  {
    Rounded(end, align) < Rounded(end, MIN_ALIGN)
  }

  lemma RoundedIs(end: nat, align: nat)
    requires 0 < align <= MAX_ALIGN && end <= HEAP_LIMIT + 4
    ensures Rounded(end, align) == AlignTo(end + HEADER, align) - HEADER
    ensures end <= Rounded(end, align) < end + align
  {
    AlignToIsMultiple(end + HEADER, align);
  }

  lemma RoundedWord(end: nat)
    requires end <= HEAP_LIMIT + 4
    ensures end <= Rounded(end, MIN_ALIGN) < end + 4 && Rounded(end, MIN_ALIGN) % 4 == 0
  {
    RoundedIs(end, MIN_ALIGN);
    AlignToIsMultiple(end + HEADER, MIN_ALIGN);
  }

  /** It does exactly when a multiple of the alignment lies between the end of the top block and the next word. */
  lemma BehindExactly(end: nat, align: nat)
    requires 0 < align <= MAX_ALIGN && end <= HEAP_LIMIT + 4
    ensures Behind(end, align) <==>
            exists m: nat :: end + HEADER <= m < Rounded(end, MIN_ALIGN) + HEADER && m % align == 0
  {
    RoundedIs(end, align);
    AlignToIsMultiple(end + HEADER, align);
    hide AlignTo, Rounded;
    forall m: nat | end + HEADER <= m < Rounded(end, MIN_ALIGN) + HEADER && m % align == 0 ensures Behind(end, align) {
      AlignToIsLeast(end + HEADER, align, m);
    }
    if Behind(end, align) {
      assert AlignTo(end + HEADER, align) % align == 0;
    }
  }

  /** Wherever the top block ends at a word no alignment is behind, and nowhere else. */
  lemma NeverBehindExactly(end: nat)
    requires end <= HEAP_LIMIT + 4
    ensures (forall align: nat :: 0 < align <= MAX_ALIGN ==> !Behind(end, align)) <==> end % 4 == 0
  {
    hide Rounded;
    RoundedWord(end);
    RoundedIs(end, 1);
    if end % 4 == 0 {
      assert Rounded(end, MIN_ALIGN) == end;
      forall align: nat | 0 < align <= MAX_ALIGN ensures !Behind(end, align) {
        RoundedIs(end, align);
      }
    } else {
      assert Behind(end, 1);
    }
  }

  // ----- which runs get there

  type Alignment = a: nat | a > 0 witness 1

  datatype Request = Request(size: nat, align: Alignment)

  /** The heap after the requests, in turn. */
  function After(s: HeapState, requests: seq<Request>): HeapState
    decreases |requests|
  {
    if requests == [] then s
    else After(Alloc(s, requests[0].size, requests[0].align).state, requests[1..])
  }

  /** Requests like `kmalloc`'s, and others with one more alignment. */
  ghost predicate Uses(requests: seq<Request>, align: nat) {
    forall r :: r in requests ==> r.align in {MIN_ALIGN, align} && FitsAddressSpace(r.size, r.align)
  }

  /** The request gets as far as `mem_new_block`, and there its aligned address is behind. */
  predicate Trips(s: HeapState, r: Request) {
    var h, size := Init(s).blocks, AlignTo(r.size, 8);
    && FirstFit(h, size, r.align, 0) == |h| && NewEnd(h, size, r.align) <= HEAP_LIMIT
    && Behind(Top(h).End(), r.align)
  }

  /** The remark holds for the next request, whatever its alignment. */
  ghost predicate RemarkHolds(s: HeapState) {
    s.blocks != [] ==> forall align: nat :: 0 < align <= MAX_ALIGN ==> !Behind(Top(s.blocks).End(), align)
  }

  lemma RemarkHoldsWhenValid(s: HeapState)
    requires Valid(s)
    ensures RemarkHolds(s)
  {
    hide Behind;
    if s.blocks != [] {
      TopEndsAtWord(s.blocks);
      NeverBehindExactly(Top(s.blocks).End());
    }
  }

  /** In every state reached with valid alignments, by allocations and frees, the remark holds for the next
      request, whatever its alignment. */
  lemma RemarkHoldsInRuns(calls: seq<HeapRuns.Call>)
    requires HeapRuns.LegalRun(HeapRuns.Boot, calls)
    ensures RemarkHolds(HeapRuns.Run(HeapRuns.Boot, calls).heap)
  {
    HeapRuns.RunKeeps(HeapRuns.Boot, calls);
    RemarkHoldsWhenValid(HeapRuns.Run(HeapRuns.Boot, calls).heap);
  }

  lemma {:induction false} ValidAfter(s: HeapState, requests: seq<Request>, align: nat)
    requires Valid(s) && ValidAlign(align) && Uses(requests, align)
    ensures Valid(After(s, requests))
    decreases |requests|
  {
    hide Alloc, FitsAddressSpace;
    if requests != [] {
      var r := requests[0];
      AllocCases(s, r.size, r.align);
      ValidAfter(Alloc(s, r.size, r.align).state, requests[1..], align);
    }
  }

  ghost predicate AllUsed(h: seq<Block>) {
    forall i :: 0 <= i < |h| ==> h[i].used
  }

  /** With nothing free, a request small enough and aligned within the gap simply appends its block. */
  lemma AppendsOnly(h: seq<Block>, u: nat, size: nat, align: nat)
    requires h != [] && AllUsed(h) && size % 8 == 0 && 0 < align <= MAX_ALIGN
    requires Top(h).End() % 4 == 0 && Top(h).End() <= HEAP_LIMIT
    requires Rounded(Top(h).End(), align) <= Top(h).End() + 3
    requires Rounded(Top(h).End(), align) + HEADER + size <= HEAP_LIMIT
    ensures var s := Alloc(HeapState(h, u), size, align).state;
      s.blocks == h + [Block(Rounded(Top(h).End(), align), size, true)] && AllUsed(s.blocks)
  {
    hide AlignTo, Rounded;
    var end := Top(h).End();
    FirstFitIsFirst(h, size, align, 0);
    assert AlignTo(size, 8) == size by { SameWhenAligned(size); }
    RoundedIs(end, align);
    RoundedWord(end);
    assert Append(h, size, align) == h + [Block(Rounded(end, align), size, true)];
  }

  lemma SameWhenAligned(size: nat)
    requires size % 8 == 0
    ensures AlignTo(size, 8) == size
  {
  }

  lemma OtherAlignments(align: nat)
    requires 0 < align && !ValidAlign(align)
    ensures align % 4 != 0 && (align == 3 || align >= 5)
  {
  }

  lemma OffWord(m: nat, align: nat)
    requires m % 4 == 0 && align % 4 != 0
    ensures (m + align) % 4 != 0
  {
  }

  lemma NextMultiple(m: nat, align: nat)
    requires align > 0 && m % align == 0
    ensures (m + align) % align == 0
  {
    var k := m / align;
    assert m == k * align;
    assert (k + 1) * align == m + align;
    MultipleMod(k + 1, align);
  }

  /** A multiple of an alignment that lies between two words, with room in the heap for four more multiples. */
  lemma AwkwardMultiple(align: nat) returns (m: nat)
    requires 0 < align <= HEAP_SIZE / 8 && !ValidAlign(align)
    ensures m % align == 0 && m % 4 != 0 && m % 4 < align && HEAP_BEGIN + 64 <= m && m + 4 * align <= HEAP_LIMIT - 64
  {
    OtherAlignments(align);
    hide ValidAlign, AlignTo;
    if align == 3 {
      m := HEAP_BEGIN + 74;
    } else {
      AlignToIsMultiple(HEAP_BEGIN + 64, align);
      m := AlignTo(HEAP_BEGIN + 64, align);
      if m % 4 == 0 {
        NextMultiple(m, align);
        OffWord(m, align);
        m := m + align;
      }
    }
  }

  /** The size of a block at one multiple after which the next block would start just at another, as far off a
      word as the first. */
  function Spacing(align: nat): nat
    requires align >= 3 && align % 4 != 0
  {
    if align % 2 == 1 then 4 * align - 12 else 2 * align - 12
  }

  lemma SpacingIs(align: nat)
    requires align >= 3 && align % 4 != 0
    ensures Spacing(align) % 8 == 0 && (Spacing(align) == 4 * align - 12 || Spacing(align) == 2 * align - 12)
  {
    var k, r := align / 4, align % 4;
    assert align == 4 * k + r && 1 <= r <= 3;
    if r == 2 {
      assert 2 * align - 12 == 8 * (k - 1);
    } else {
      assert 4 * align - 12 == 8 * (2 * k + (if r == 1 then -1 else 0));
    }
  }

  lemma FurtherMultiples(m: nat, align: nat)
    requires align > 0 && m % align == 0
    ensures (m + 2 * align) % align == 0 && (m + 4 * align) % align == 0
  {
    NextMultiple(m, align);
    NextMultiple(m + align, align);
    NextMultiple(m + 2 * align, align);
    NextMultiple(m + 3 * align, align);
  }

  lemma SpacingFits(align: nat, m: nat)
    requires 0 < align && !ValidAlign(align) && m % align == 0 && m % 4 != 0
    ensures align >= 3 && align % 4 != 0 && Spacing(align) % 8 == 0
    ensures var next := m + 12 + Spacing(align); next % align == 0 && next % 4 == m % 4 && next <= m + 4 * align
  {
    OtherAlignments(align);
    hide ValidAlign, Spacing;
    SpacingIs(align);
    FurtherMultiples(m, align);
    SameOffset(m, Spacing(align));
  }

  lemma SameOffset(m: nat, size: nat)
    requires size % 8 == 0
    ensures (m + 12 + size) % 4 == m % 4
  {
    WordsFurther(m, 3 + 2 * (size / 8));
  }

  lemma WordsFurther(m: nat, k: nat)
    ensures (m + 4 * k) % 4 == m % 4
  {
  }

  /** The requests that bring the top block's end to the word before `m`. */
  function Approach(m: nat): seq<Request>
    requires m >= HEAP_BEGIN + 64
  {
    var end := m - m % 4 - HEADER;
    if (end - HEAP_BEGIN) % 8 == 0 then [Request(end - HEAP_BEGIN - 24, MIN_ALIGN)]
    else [Request(0, MIN_ALIGN)] + [Request(end - HEAP_BEGIN - 36, MIN_ALIGN)]
  }

  lemma AfterFirst(size: nat)
    requires size % 8 == 0 && HEAP_BEGIN + 20 + size <= HEAP_LIMIT
    ensures var s := Alloc(HeapState([], 0), size, MIN_ALIGN).state;
      s.blocks == [Block(HEAP_BEGIN, 0, true), Block(HEAP_BEGIN + 12, size, true)] && AllUsed(s.blocks)
  {
    var h := [Block(HEAP_BEGIN, 0, true)];
    RoundedWord(HEAP_BEGIN + 12);
    AppendsOnly(h, 0, size, MIN_ALIGN);
    assert Init(HeapState([], 0)) == Init(HeapState(h, 0));
  }

  lemma ApproachUses(m: nat, align: nat)
    requires HEAP_BEGIN + 64 <= m <= HEAP_LIMIT - 64
    ensures Uses(Approach(m), align)
  {
  }

  lemma ApproachArrives(m: nat)
    requires HEAP_BEGIN + 64 <= m <= HEAP_LIMIT - 64
    ensures var s := After(HeapState([], 0), Approach(m));
      s.blocks != [] && AllUsed(s.blocks) && Top(s.blocks).End() == m - m % 4 - HEADER
  {
    var gap := m - m % 4 - HEADER - HEAP_BEGIN;
    EightsOrFour(m);
    if gap % 8 == 0 { ApproachOnce(gap - 24); } else { ApproachTwice(gap - 36); }
    hide After, AllUsed;
  }

  lemma EightsOrFour(m: nat)
    requires HEAP_BEGIN + 64 <= m
    ensures var gap := m - m % 4 - HEADER - HEAP_BEGIN;
      gap >= 56 && if gap % 8 == 0 then (gap - 24) % 8 == 0 else (gap - 36) % 8 == 0
  {
    var k := m / 4;
    assert m - m % 4 == 4 * k && HEAP_BEGIN == 8 * 0x1808_0000;
  }

  lemma ApproachOnce(size: nat)
    requires size % 8 == 0 && HEAP_BEGIN + 24 + size <= HEAP_LIMIT
    ensures var s := After(HeapState([], 0), [Request(size, MIN_ALIGN)]);
      s.blocks != [] && AllUsed(s.blocks) && Top(s.blocks).End() == HEAP_BEGIN + 24 + size
  {
    hide Alloc, After;
    AfterFirst(size);
    AfterOne(HeapState([], 0), Request(size, MIN_ALIGN));
  }

  lemma ApproachTwice(size: nat)
    requires size % 8 == 0 && HEAP_BEGIN + 40 + size <= HEAP_LIMIT
    ensures var s := After(HeapState([], 0), [Request(0, MIN_ALIGN)] + [Request(size, MIN_ALIGN)]);
      s.blocks != [] && AllUsed(s.blocks) && Top(s.blocks).End() == HEAP_BEGIN + 36 + size
  {
    hide Alloc, After, AllUsed;
    AfterOne(HeapState([], 0), Request(0, MIN_ALIGN));
    AfterBoth(HeapState([], 0), [Request(0, MIN_ALIGN)], Request(size, MIN_ALIGN));
    AfterSecond(size);
  }

  lemma AfterSecond(size: nat)
    requires size % 8 == 0 && HEAP_BEGIN + 32 + size <= HEAP_LIMIT - 8
    ensures var s := Alloc(Alloc(HeapState([], 0), 0, MIN_ALIGN).state, size, MIN_ALIGN).state;
      s.blocks != [] && AllUsed(s.blocks) && Top(s.blocks).End() == HEAP_BEGIN + 36 + size
  {
    hide Alloc, Rounded, AlignTo;
    AfterFirst(0);
    var s := Alloc(HeapState([], 0), 0, MIN_ALIGN).state;
    RoundedToWords(HEAP_BEGIN + 24);
    AppendsOnly(s.blocks, s.usedMemory, size, MIN_ALIGN);
    assert HeapState(s.blocks, s.usedMemory) == s;
  }

  lemma AfterOne(s: HeapState, r: Request)
    ensures After(s, [r]) == Alloc(s, r.size, r.align).state
  {
    hide Alloc;
    assert [r][1..] == [];
  }

  lemma {:induction false} AfterBoth(s: HeapState, first: seq<Request>, last: Request)
    ensures After(s, first + [last]) == Alloc(After(s, first), last.size, last.align).state
    decreases |first|
  {
    hide Alloc;
    if first == [] {
      assert ([last])[1..] == [] && first + [last] == [last];
    } else {
      assert (first + [last])[0] == first[0] && (first + [last])[1..] == first[1..] + [last];
      AfterBoth(Alloc(s, first[0].size, first[0].align).state, first[1..], last);
    }
  }

  /** A request whose block would start between words, just at a multiple of its alignment, is behind. */
  lemma TripsBetweenWords(s: HeapState, r: Request)
    requires s.blocks != [] && AllUsed(s.blocks) && r.size == 0 && r.align <= MAX_ALIGN
    requires var m := Top(s.blocks).End() + HEADER; m % 4 != 0 && m % r.align == 0 && m <= HEAP_LIMIT
    ensures Trips(s, r)
  {
    var h := s.blocks;
    var end := Top(h).End();
    SameWhenAligned(0);
    EmptyBlockEnds(h, r.align);
    hide Behind, Rounded, AlignTo, NewEnd;
    RoundedWord(end);
    BelowTheWord(end, Rounded(end, MIN_ALIGN));
    BehindExactly(end, r.align);
    FirstFitIsFirst(h, 0, r.align, 0);
    hide FirstFit;
  }

  lemma EmptyBlockEnds(h: seq<Block>, align: nat)
    requires |h| > 0 && align > 0 && (Top(h).End() + HEADER) % align == 0 && Top(h).End() + HEADER <= HEAP_LIMIT
    ensures NewEnd(h, 0, align) == Top(h).End() + HEADER
  {
    WrapSame(Top(h).End() + HEADER);
  }

  lemma BelowTheWord(end: nat, word: nat)
    requires end <= word && word % 4 == 0 && (end + HEADER) % 4 != 0
    ensures end < word
  {
  }

  /** One more request puts a block just at `m`, between words. */
  lemma BlockBetweenWords(m: nat, align: Alignment, size: nat)
    requires align <= HEAP_SIZE / 8 && m % align == 0 && m % 4 < align
    requires HEAP_BEGIN + 64 <= m <= HEAP_LIMIT - 64 && size % 8 == 0 && m + size <= HEAP_LIMIT
    ensures var t := After(HeapState([], 0), Approach(m) + [Request(size, align)]);
      t.blocks != [] && AllUsed(t.blocks) && Top(t.blocks) == Block(m - HEADER, size, true)
  {
    hide Alloc, AlignTo, Rounded, After, AllUsed, Approach;
    ApproachArrives(m);
    var s := After(HeapState([], 0), Approach(m));
    var end := Top(s.blocks).End();
    RoundsTo(end + HEADER, align, m);
    RoundedIs(end, align);
    AppendsOnly(s.blocks, s.usedMemory, size, align);
    assert HeapState(s.blocks, s.usedMemory) == s;
    AfterBoth(HeapState([], 0), Approach(m), Request(size, align));
  }

  /** With any other alignment a run comes to a request, of that alignment too, for which the remark fails. */
  lemma FailingRun(align: nat) returns (requests: seq<Request>, last: Request)
    requires 0 < align <= HEAP_SIZE / 8 && !ValidAlign(align)
    ensures Uses(requests, align) && Uses([last], align) && Trips(After(HeapState([], 0), requests), last)
  {
    hide ValidAlign, Trips, Spacing, After, Approach, AllUsed;
    var m := AwkwardMultiple(align);
    SpacingFits(align, m);
    SpacingIs(align);
    BlockBetweenWords(m, align, Spacing(align));
    ApproachArrives(m);
    requests, last := Approach(m) + [Request(Spacing(align), align)], Request(0, align);
    ApproachUses(m, align);
    assert Uses([requests[|requests| - 1]], align);
    TripsBetweenWords(After(HeapState([], 0), requests), last);
  }

  lemma NeverTripsWhenValid(s: HeapState, r: Request)
    requires Valid(s) && r.align <= MAX_ALIGN
    ensures !Trips(s, r)
  {
    hide Behind, FirstFit, NewEnd, Valid;
    InitKeeps(s);
    TopEndsAtWord(Init(s).blocks);
    NeverBehindExactly(Top(Init(s).blocks).End());
  }

  /** An alignment, in use beside `kmalloc`'s, keeps the remark true in every run of requests exactly when it divides
      four or is a multiple of four: otherwise a request of the run itself breaks it. */
  lemma RemarkHoldsExactly(align: nat)
    requires 0 < align <= HEAP_SIZE / 8
    ensures (forall requests, last :: Uses(requests, align) && Uses([last], align) ==>
               !Trips(After(HeapState([], 0), requests), last))
            <==> ValidAlign(align)
  {
    hide Trips, After, ValidAlign;
    if ValidAlign(align) {
      forall requests, last | Uses(requests, align) && Uses([last], align)
        ensures !Trips(After(HeapState([], 0), requests), last)
      {
        ValidAfter(HeapState([], 0), requests, align);
        assert last in [last];
        NeverTripsWhenValid(After(HeapState([], 0), requests), last);
      }
    } else {
      var requests, last := FailingRun(align);
    }
  }

  /** What such a request leaves: the unsigned distance is huge, so a filler is inserted before the new block that
      starts behind it, inside its header. */
  lemma TrippedHeapOverlaps(s: HeapState, r: Request)
    requires Trips(s, r) && r.align <= MAX_ALIGN && Top(Init(s).blocks).End() <= HEAP_LIMIT + 4
    ensures var h, h' := Init(s).blocks, Alloc(s, r.size, r.align).state.blocks;
      && |h'| == |h| + 2 && h == h'[..|h|]
      && h'[|h| + 1].addr < h'[|h|].addr < h'[|h| + 1].addr + 4
  {
    hide AlignTo, Rounded, FirstFit, NewEnd;
    var h := Init(s).blocks;
    RoundedWord(Top(h).End());
    RoundedIs(Top(h).End(), r.align);
    HugeGap(Rounded(Top(h).End(), r.align), Rounded(Top(h).End(), MIN_ALIGN));
    hide Wrap;
  }

  lemma HugeGap(at: nat, next: nat)
    requires at < next <= at + 4
    ensures Wrap(at - next) > STRUCT_SIZE + MIN_ALIGN
  {
  }

  // ----- "that block is 8-bytes aligned"

  /** The block at the top has a size rounded to eight bytes; fillers below it need not. */
  ghost predicate RoundTop(s: HeapState) {
    s.blocks != [] ==> Top(s.blocks).size % 8 == 0
  }

  lemma AllocKeepsRoundTop(s: HeapState, request: nat, align: nat)
    requires Valid(s) && RoundTop(s) && ValidAlign(align) && FitsAddressSpace(request, align)
    ensures RoundTop(Alloc(s, request, align).state) && RoundTop(Init(s))
  {
    hide AlignTo, Rounded, NewEnd, Append, MeetsWords;
    var size := AlignTo(request, 8);
    InitKeeps(s);
    NewEndExact(Init(s).blocks, request, align);
    AllocCases(s, request, align);
    if Rounded(Top(Init(s).blocks).End(), align) + HEADER + size <= HEAP_LIMIT {
      AppendKeeps(Init(s).blocks, size, align);
    }
  }

  lemma {:induction false} RunKeepsRoundTop(w: HeapRuns.World, calls: seq<HeapRuns.Call>)
    requires HeapRuns.Inv(w) && RoundTop(w.heap) && HeapRuns.LegalRun(w, calls)
    ensures RoundTop(HeapRuns.Run(w, calls).heap)
    decreases |calls|
  {
    hide Alloc, Valid, HeapRuns.Tracked, FitsAddressSpace, ValidAlign;
    if calls != [] {
      match calls[0] {
        case AllocCall(request, align) =>
          AllocKeepsRoundTop(w.heap, request, align);
          HeapRuns.AllocStep(w, request, align);
        case FreeCall(p) =>
          HeapRuns.FreeStep(w, p);
      }
      RunKeepsRoundTop(HeapRuns.Step(w, calls[0]), calls[1..]);
    }
  }

  /** In every reachable state, a filler inserted below a new block starts at a multiple of eight exactly when the
      block it follows starts four past one. */
  lemma FillerAlignment(calls: seq<HeapRuns.Call>, request: nat, align: nat)
    requires HeapRuns.LegalRun(HeapRuns.Boot, calls) && ValidAlign(align) && FitsAddressSpace(request, align)
    ensures var s := HeapRuns.Run(HeapRuns.Boot, calls).heap;
      var h, h' := Init(s).blocks, Alloc(s, request, align).state.blocks;
      |h'| == |h| + 2 ==> !h'[|h|].used && (h'[|h|].addr % 8 == 0 <==> Top(h).addr % 8 == 4)
  {
    hide *;
    BootIsRound();
    HeapRuns.RunKeeps(HeapRuns.Boot, calls);
    RunKeepsRoundTop(HeapRuns.Boot, calls);
    var s := HeapRuns.Run(HeapRuns.Boot, calls).heap;
    InvIsValid(HeapRuns.Run(HeapRuns.Boot, calls));
    AllocKeepsRoundTop(s, request, align);
    AllocFiller(s, request, align);
  }

  lemma BootIsRound()
    ensures RoundTop(HeapRuns.Boot.heap) && HeapRuns.Inv(HeapRuns.Boot)
  {
  }

  lemma InvIsValid(w: HeapRuns.World)
    requires HeapRuns.Inv(w)
    ensures Valid(w.heap)
  {
  }

  lemma PastTheTop(b: Block)
    ensures b.size % 8 == 0 ==> (b.End() % 8 == 0 <==> b.addr % 8 == 4)
  {
  }

  lemma AllocFiller(s: HeapState, request: nat, align: nat)
    requires Valid(s) && RoundTop(Init(s)) && ValidAlign(align) && FitsAddressSpace(request, align)
    ensures var h, h' := Init(s).blocks, Alloc(s, request, align).state.blocks;
      |h| > 0 && (|h'| == |h| + 2 ==> !h'[|h|].used && (h'[|h|].addr % 8 == 0 <==> Top(h).addr % 8 == 4))
  {
    hide AlignTo, Rounded, NewEnd, MeetsWords, FirstFit, Valid, Alloc, Init, Wellplaced;
    AllocCases(s, request, align);
    InitKeeps(s);
    TopEndsAtWord(Init(s).blocks);
    var h := Init(s).blocks;
    TopRounded(h, align);
    PastTheTop(Top(h));
    ExtendIs(h, Top(h).End(), Rounded(Top(h).End(), align), AlignTo(request, 8));
    hide Extend;
  }

  /** The first page-aligned request already puts its filler four past a multiple of eight. */
  lemma FillerOffEight()
    ensures var h := Alloc(HeapState([], 0), 8, 4096).state.blocks;
      |h| == 3 && !h[1].used && h[1].addr % 8 == 4
  {
    var h := [Block(HEAP_BEGIN, 0, true)];
    assert AlignTo(HEAP_BEGIN + 20, 4096) == HEAP_BEGIN + 4096;
    assert AlignTo(8, 8) == 8;
    RoundedToWords(HEAP_BEGIN + 12);
    assert Rounded(HEAP_BEGIN + 12, 4096) == HEAP_BEGIN + 4088;
    hide AlignTo, Rounded;
    FirstFitIsFirst(h, 8, 4096, 0);
    ExtendIs(h, HEAP_BEGIN + 12, HEAP_BEGIN + 4088, 8);
    hide Extend, FirstFit;
  }

  // ----- the limit check

  /** `n` rounded up, with no bound on its size. */
  function RoundUp(n: nat, align: nat): nat
    requires align > 0
  {
    if n % align == 0 then n else n + (align - n % align)
  }

  /** Where a new block's payload would really end. */
  function TrueEnd(h: seq<Block>, size: nat, align: nat): nat
    requires |h| > 0 && align > 0
  {
    RoundUp(Top(h).End() + HEADER, align) + size
  }

  lemma NewEndIsCut(h: seq<Block>, size: nat, align: nat)
    requires |h| > 0 && align > 0
    ensures NewEnd(h, size, align) == Wrap(TrueEnd(h, size, align))
  {
    var n := Top(h).End() + HEADER;
    WrapAdd(RoundUp(n, align), size);
    assert AlignTo(n, align) == n || AlignTo(n, align) == Wrap(RoundUp(n, align));
  }

  lemma RoundUpIs(n: nat, align: nat)
    requires align > 0
    ensures RoundUp(n, align) % align == 0 && n <= RoundUp(n, align) < n + align
  {
    var q, r := n / align, n % align;
    assert n == q * align + r;
    assert (q + 1) * align == q * align + align;
    MultipleMod(if r == 0 then q else q + 1, align);
  }

  /** A new block starts right below the rounded address, or, when that is no 32-bit address, outside the heap. */
  lemma StartFacts(h: seq<Block>, align: nat)
    requires Wellplaced(h) && 0 < align < WORD_LIMIT
    ensures var n, at := Top(h).End() + HEADER, Rounded(Top(h).End(), align) + HEADER;
      var start := RoundUp(n, align);
      && HEAP_BEGIN + 20 <= n <= start < n + align && n <= HEAP_LIMIT + 12
      && (start < WORD_LIMIT ==> at == start)
      && (start >= WORD_LIMIT ==> at >= WORD_LIMIT || at < HEAP_BEGIN)
  {
    var n := Top(h).End() + HEADER;
    TopEndsAtWord(h);
    InsideHeap(h, |h| - 1);
    hide Wellplaced, AlignTo, RoundUp;
    RoundUpIs(n, align);
    AlignToIsCut(n, align);
    var start := RoundUp(n, align);
    if start >= WORD_LIMIT {
      StartWraps(start, n, align);
      WrapOnce(start);
      CutBack(start - WORD_LIMIT);
    } else {
      WrapSame(start);
      WrapSame(start - HEADER);
    }
    hide Wrap;
  }

  lemma WrapOnce(x: nat)
    requires WORD_LIMIT <= x < 2 * WORD_LIMIT
    ensures Wrap(x) == x - WORD_LIMIT
  {
  }

  lemma CutBack(at: u32)
    ensures Wrap(at - HEADER) == if at < HEADER then at + WORD_LIMIT - HEADER else at - HEADER
  {
  }

  lemma AlignToIsCut(n: u32, align: nat)
    requires align > 0
    ensures AlignTo(n, align) == Wrap(RoundUp(n, align))
  {
  }

  lemma StartWraps(start: nat, n: nat, align: nat)
    requires 0 < align < WORD_LIMIT <= start < n + align && start % align == 0
    ensures start < 2 * n
  {
    var q := start / align;
    assert start == q * align;
    if q <= 1 {
      assert q == 0 || q == 1;
    } else {
      MulAtLeast(q - 1, align);
      assert start == (q - 1) * align + align;
    }
  }

  lemma RoundedSize(request: u32)
    ensures AlignTo(request, 8) <= WORD_LIMIT - 8
    ensures request <= WORD_LIMIT - 8 ==> request <= AlignTo(request, 8) < request + 8
    ensures request > WORD_LIMIT - 8 ==> AlignTo(request, 8) == 0
    ensures AlignTo(request, 8) % 4 == 0
  {
    hide AlignTo, RoundUp;
    RoundUpIs(request, 8);
    AlignToIsCut(request, 8);
    EightsBelow(RoundUp(request, 8));
  }

  lemma EightsBelow(m: nat)
    requires m % 8 == 0 && m < WORD_LIMIT + 8
    ensures if m < WORD_LIMIT then m <= WORD_LIMIT - 8 && Wrap(m) == m else m == WORD_LIMIT && Wrap(m) == 0
    ensures Wrap(m) % 4 == 0
  {
    EightsApart(m);
    if m < WORD_LIMIT {
      WrapSame(m);
      MultipleOfMultiple(m, 8, 4);
    } else {
      WrapOnce(m);
    }
    hide Wrap;
  }

  lemma EightsApart(m: nat)
    requires m % 8 == 0 && m < WORD_LIMIT + 8
    ensures m <= WORD_LIMIT - 8 || m == WORD_LIMIT
  {
    var k := m / 8;
    assert m == 8 * k;
  }

  /** In every reachable state, for every 32-bit request: the check sees the end of the payload exactly when that is
      a 32-bit address. When the payload starts in the heap, or no further than eight past it, exactly then its
      decision is right; a payload that starts further up should always be refused. */
  lemma LimitCheckInRuns(calls: seq<HeapRuns.Call>, request: u32, align: nat)
    requires HeapRuns.LegalRun(HeapRuns.Boot, calls) && 0 < align < WORD_LIMIT
    ensures var h, size := Init(HeapRuns.Run(HeapRuns.Boot, calls).heap).blocks, AlignTo(request, 8);
      var start, seen := RoundUp(Top(h).End() + HEADER, align), NewEnd(h, size, align);
      && (seen == start + size <==> start + size < WORD_LIMIT)
      && (start <= HEAP_LIMIT + 8 ==>
            ((seen > HEAP_LIMIT <==> start + size > HEAP_LIMIT) <==> start + size < WORD_LIMIT))
      && (start > HEAP_LIMIT + 8 ==>
            ((seen > HEAP_LIMIT <==> start + size > HEAP_LIMIT) <==> Wrap(start + size) > HEAP_LIMIT))
  {
    hide *;
    var s := HeapRuns.Run(HeapRuns.Boot, calls).heap;
    BootIsRound();
    HeapRuns.RunKeeps(HeapRuns.Boot, calls);
    InvIsValid(HeapRuns.Run(HeapRuns.Boot, calls));
    InitKeeps(s);
    LimitCheckIsRightExactly(Init(s).blocks, request, align);
  }

  lemma LimitCheckIsRightExactly(h: seq<Block>, request: u32, align: nat)
    requires Wellplaced(h) && 0 < align < WORD_LIMIT
    ensures var size := AlignTo(request, 8);
      var start, seen := RoundUp(Top(h).End() + HEADER, align), NewEnd(h, size, align);
      && (seen == start + size <==> start + size < WORD_LIMIT)
      && (start <= HEAP_LIMIT + 8 ==>
            ((seen > HEAP_LIMIT <==> start + size > HEAP_LIMIT) <==> start + size < WORD_LIMIT))
      && (start > HEAP_LIMIT + 8 ==>
            ((seen > HEAP_LIMIT <==> start + size > HEAP_LIMIT) <==> Wrap(start + size) > HEAP_LIMIT))
  {
    assert |h| > 0;
    hide NewEnd, RoundUp, AlignTo, Wellplaced;
    RoundedSize(request);
    NewEndIsCut(h, AlignTo(request, 8), align);
    CutDecidesRightly(RoundUp(Top(h).End() + HEADER, align), AlignTo(request, 8));
    hide Wrap;
  }

  lemma CutDecidesRightly(start: nat, size: nat)
    requires size <= WORD_LIMIT - 8
    ensures Wrap(start + size) == start + size <==> start + size < WORD_LIMIT
    ensures start <= HEAP_LIMIT + 8 ==>
              ((Wrap(start + size) > HEAP_LIMIT <==> start + size > HEAP_LIMIT) <==> start + size < WORD_LIMIT)
  {
    if start + size < WORD_LIMIT {
      WrapSame(start + size);
    } else if start <= HEAP_LIMIT + 8 {
      WrapOnce(start + size);
    }
  }

  /** The payload at `p`, of block `b`, is in the heap and has room for the request. */
  predicate HoldsRequest(b: Block, p: nat, request: nat) {
    HEAP_BEGIN <= p && p + request <= HEAP_LIMIT && b.Data() == p && b.size >= request
  }

  /** An allocation that succeeds, for any 32-bit request: the payload holds the request inside the heap exactly when
      the request could be rounded within 32 bits and either a block was reused or the new one ends at a 32-bit
      address. */
  lemma AllocHoldsExactly(s: HeapState, request: u32, align: nat)
    requires Valid(s) && 0 < align < WORD_LIMIT && Alloc(s, request, align).Allocated?
    ensures var Allocated(s', p) := Alloc(s, request, align);
      var h, k := Init(s).blocks, SlotOf(s, request, align);
      HoldsRequest(s'.blocks[k], p, request) <==>
      request <= WORD_LIMIT - 8 && (k < |h| || TrueEnd(h, AlignTo(request, 8), align) < WORD_LIMIT)
  {
    hide AlignTo, Rounded, NewEnd, IsAligned, RoundUp, Valid, Wellplaced;
    var h, size := Init(s).blocks, AlignTo(request, 8);
    InitKeeps(s);
    RoundedSize(request);
    FirstFitIsFirst(h, size, align, 0);
    StartFacts(h, align);
    NewEndIsCut(h, size, align);
    var k := FirstFit(h, size, align, 0);
    if k < |h| { InsideHeap(h, k); }
  }

  lemma RoundUpKeepsWords(n: nat, align: nat)
    requires ValidAlign(align) && n % 4 == 0
    ensures RoundUp(n, align) % 4 == 0
  {
    if align % 4 == 0 {
      hide RoundUp;
      RoundUpIs(n, align);
      MultipleOfMultiple(RoundUp(n, align), align, 4);
    } else {
      assert align == 1 || align == 2;
      hide MeetsWords;
      WordsAreEven(n);
    }
  }

  lemma WordsAreEven(n: nat)
    requires n % 4 == 0
    ensures n % 1 == 0 && n % 2 == 0
  {
    MultipleOfMultiple(n, 4, 2);
  }

  lemma AppendsWithin(h: seq<Block>, size: nat, align: nat)
    requires Wellplaced(h) && ValidAlign(align) && align < WORD_LIMIT && size % 4 == 0
    requires TrueEnd(h, size, align) <= HEAP_LIMIT
    ensures var h' := Append(h, size, align);
      h' != [] && Wellplaced(h') && SumUsed(h') == SumUsed(h) + size
  {
    assert align > 0;
    hide Rounded, RoundUp, ValidAlign, AlignTo, Extend, SumUsed;
    TopEndsAtWord(h);
    StartFacts(h, align);
    RoundedToWords(Top(h).End());
    RoundUpKeepsWords(Top(h).End() + HEADER, align);
    TwoWordsLess(RoundUp(Top(h).End() + HEADER, align));
    ExtendKeeps(h, Rounded(Top(h).End(), align), size);
  }

  /** A successful allocation took a fitting block or appended one past the check. */
  lemma AllocEither(s: HeapState, request: nat, align: nat)
    requires Valid(s) && align > 0 && Alloc(s, request, align).Allocated?
    ensures var h, size, s' := Init(s).blocks, AlignTo(request, 8), Alloc(s, request, align).state;
      var k := SlotOf(s, request, align);
      && (k < |h| ==>
            0 < k && !h[k].used
            && s' == HeapState(h[k := h[k].(used := true)], (Init(s).usedMemory + h[k].size) % WORD_LIMIT))
      && (k >= |h| ==>
            |h| > 0 && NewEnd(h, size, align) <= HEAP_LIMIT
            && s' == HeapState(Append(h, size, align), (Init(s).usedMemory + size) % WORD_LIMIT))
  {
    hide AlignTo, Rounded, NewEnd, IsAligned, SumUsed, Valid, Init;
    var h := Init(s).blocks;
    InitKeeps(s);
    FirstUsed(h);
    hide Wellplaced;
    FirstFitIsFirst(h, AlignTo(request, 8), align, 0);
  }

  /** With a valid alignment, exactly the allocations that reuse a block or end at a 32-bit address keep the heap's
      invariant, whatever the 32-bit request. */
  lemma AllocKeepsExactly(s: HeapState, request: u32, align: nat)
    requires Valid(s) && ValidAlign(align) && align < WORD_LIMIT && Alloc(s, request, align).Allocated?
    ensures Valid(Alloc(s, request, align).state) <==>
            SlotOf(s, request, align) < |Init(s).blocks|
            || TrueEnd(Init(s).blocks, AlignTo(request, 8), align) < WORD_LIMIT
  {
    assert align > 0;
    hide *;
    var h, size := Init(s).blocks, AlignTo(request, 8);
    InitKeeps(s);
    RoundedSize(request);
    AllocEither(s, request, align);
    if SlotOf(s, request, align) < |h| {
      MarkedIsValid(Init(s), SlotOf(s, request, align));
    } else {
      NewEndIsCut(h, size, align);
      if TrueEnd(h, size, align) < WORD_LIMIT {
        WrapSame(TrueEnd(h, size, align));
        AppendsWithin(h, size, align);
        AppendedIsValid(Init(s), Append(h, size, align), size);
      } else {
        OverrunsWhenWrapped(h, size, align);
        PlacedWhenValid(Alloc(s, request, align).state);
      }
    }
  }

  lemma PlacedWhenValid(s: HeapState)
    ensures Valid(s) && s.blocks != [] ==> Wellplaced(s.blocks)
  {
  }

  lemma FirstUsed(h: seq<Block>)
    requires Wellplaced(h)
    ensures |h| > 0 && h[0].used
  {
  }

  lemma OverrunsWhenWrapped(h: seq<Block>, size: nat, align: nat)
    requires Wellplaced(h) && 0 < align < WORD_LIMIT <= TrueEnd(h, size, align)
    ensures Append(h, size, align) != [] && !Wellplaced(Append(h, size, align))
  {
    hide Rounded, RoundUp;
    StartFacts(h, align);
    var h' := Append(h, size, align);
    if Wellplaced(h') { InsideHeap(h', |h'| - 1); }
  }

  /** A first request of 1 GiB passes the check. */
  lemma OversizedRequestPasses()
    ensures var h := [Block(HEAP_BEGIN, 0, true)];
      TrueEnd(h, 0x4000_0000, MIN_ALIGN) > HEAP_LIMIT && NewEnd(h, 0x4000_0000, MIN_ALIGN) <= HEAP_LIMIT
  {
  }
}
