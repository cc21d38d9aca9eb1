/** Every state the kernel heap can reach through allocations and frees, and what holds in it. */
module HeapRuns {
  import opened Arith
  import opened HeapModel

  /** One client call. A free names a pointer the client still holds. */
  datatype Call = AllocCall(request: nat, align: nat) | FreeCall(ptr: nat)

  /** What a client asked for. */
  datatype Asked = Asked(size: nat, align: nat)

  /** The heap together with the pointers handed out and not yet freed, each with what was asked for. */
  datatype World = World(heap: HeapState, live: map<nat, Asked>)

  const Boot := World(HeapState([], 0), map[])

  predicate Legal(w: World, c: Call) {
    match c
    case AllocCall(request, align) => ValidAlign(align) && FitsAddressSpace(request, align)
    case FreeCall(p) => p in w.live
  }

  // Running out changes nothing beyond setting up the list; the kernel then aborts.
  function Step(w: World, c: Call): World
    requires Legal(w, c)
  {
    match c
    case AllocCall(request, align) =>
      (match Alloc(w.heap, request, align)
       case Allocated(s, p) => World(s, w.live[p := Asked(request, align)])
       case OutOfMemory(s) => World(s, w.live))
    case FreeCall(p) =>
      var k := Find(w.heap.blocks, p);
      if k < |w.heap.blocks| then World(Release(w.heap, k), w.live - {p}) else w
  }

  ghost predicate LegalRun(w: World, calls: seq<Call>)
    decreases |calls|
  {
    calls == [] || (Legal(w, calls[0]) && LegalRun(Step(w, calls[0]), calls[1..]))
  }

  ghost function Run(w: World, calls: seq<Call>): World
    requires LegalRun(w, calls)
    decreases |calls|
  {
    if calls == [] then w else Run(Step(w, calls[0]), calls[1..])
  }

  // ----- the invariant

  /** Block `k` holds pointer `p`, aligned as asked and with room for its request rounded up to eight bytes. */
  predicate Backs(w: World, p: nat, k: nat)
    requires p in w.live
  {
    && Holds(w.heap.blocks, p, k) && w.live[p].align > 0 && p % w.live[p].align == 0
    && w.live[p].size <= AlignTo(w.live[p].size, 8) <= w.heap.blocks[k].size
  }

  /** A used block other than the first one is exactly a live pointer, at least as large as asked for. */
  ghost predicate Tracked(w: World) {
    && (forall i :: 0 < i < |w.heap.blocks| && w.heap.blocks[i].used ==> w.heap.blocks[i].Data() in w.live)
    && (forall p :: p in w.live ==> Backed(w, p))
  }

  ghost predicate Backed(w: World, p: nat)
    requires p in w.live
  {
    exists k: nat :: Backs(w, p, k)
  }

  ghost predicate Inv(w: World) { Valid(w.heap) && Tracked(w) }

  lemma AllocStep(w: World, request: nat, align: nat)
    requires Inv(w) && ValidAlign(align) && FitsAddressSpace(request, align)
    ensures Inv(Step(w, AllocCall(request, align)))
    ensures var r := Alloc(w.heap, request, align); r.Allocated? ==> r.ptr !in w.live
  {
    hide Alloc;
    var r := Alloc(w.heap, request, align);
    var w' := Step(w, AllocCall(request, align));
    if r.Allocated? {
      AllocIsSound(w.heap, request, align);
      var old_, new_, k := Init(w.heap).blocks, r.state.blocks, SlotOf(w.heap, request, align);
      if r.ptr in w.live {
        assert Backed(w, r.ptr);
        var j: nat :| Backs(w, r.ptr, j);
        assert new_[j].addr == new_[k].addr;
        SameStart(new_, j, k);
        assert false;
      }
      forall p | p in w'.live ensures Backed(w', p) {
        if p == r.ptr {
          assert Backs(w', p, k);
        } else {
          assert Backed(w, p);
          var j: nat :| Backs(w, p, j);
          assert j != k;
          assert Backs(w', p, j);
        }
      }
    } else {
      OutOfMemoryKeeps(w.heap, request, align);
      forall p | p in w'.live ensures Backed(w', p) {
        assert Backed(w, p);
        var j: nat :| Backs(w, p, j);
        assert Backs(w', p, j);
      }
    }
  }

  lemma OutOfMemoryKeeps(s: HeapState, request: nat, align: nat)
    requires Valid(s) && align > 0 && Alloc(s, request, align).OutOfMemory?
    ensures Alloc(s, request, align).state == Init(s) && Valid(Init(s))
  {
    InitKeeps(s);
  }

  lemma FreeStep(w: World, p: nat)
    requires Inv(w) && p in w.live
    ensures Inv(Step(w, FreeCall(p)))
  {
    hide SumUsed, AlignTo, InBounds, Adjacent;
    assert Backed(w, p);
    var h := w.heap.blocks;
    var k: nat :| Backs(w, p, k);
    FindFinds(h, p, k);
    MarkKeeps(h, k, false);
    SumBelow(h);
    var w' := Step(w, FreeCall(p));
    var h' := w'.heap.blocks;
    forall i | 0 < i < |h'| && h'[i].used ensures h'[i].Data() in w'.live {
      if h'[i].Data() == p { SameStart(h, i, k); }
    }
    forall q | q in w'.live ensures Backed(w', q) {
      assert Backed(w, q);
      var j: nat :| Backs(w, q, j);
      assert j != k;
      assert Backs(w', q, j);
    }
  }

  // ----- the theorems

  /** Every legal run keeps the heap well placed, its accounting exact and its pointers backed. */
  lemma {:induction false} RunKeeps(w: World, calls: seq<Call>)
    requires Inv(w) && LegalRun(w, calls)
    ensures Inv(Run(w, calls))
    decreases |calls|
  {
    if calls != [] {
      match calls[0] {
        case AllocCall(request, align) => AllocStep(w, request, align);
        case FreeCall(p) => FreeStep(w, p);
      }
      RunKeeps(Step(w, calls[0]), calls[1..]);
    }
  }

  /** Byte `a` belongs to the allocation the client holds at `p`. */
  predicate InPayload(w: World, p: nat, a: nat) {
    p in w.live && p <= a < p + w.live[p].size
  }

  /** In every reachable state a live pointer is aligned as it was asked for, and each byte of its payload lies
      inside the heap, belongs to that allocation only and is part of no block header. */
  lemma LivePayloadsAreSeparate(calls: seq<Call>, p: nat, a: nat)
    requires LegalRun(Boot, calls) && InPayload(Run(Boot, calls), p, a)
    ensures var align := Run(Boot, calls).live[p].align; align > 0 && p % align == 0
    ensures HEAP_BEGIN <= a < HEAP_LIMIT
    ensures forall q :: InPayload(Run(Boot, calls), q, a) ==> q == p
    ensures forall b :: b in Run(Boot, calls).heap.blocks ==> !(b.addr <= a < b.Data())
  {
    RunKeeps(Boot, calls);
    PayloadsAreSeparate(Run(Boot, calls), p, a);
  }

  lemma PayloadsAreSeparate(w: World, p: nat, a: nat)
    requires Inv(w) && InPayload(w, p, a)
    ensures w.live[p].align > 0 && p % w.live[p].align == 0
    ensures HEAP_BEGIN <= a < HEAP_LIMIT
    ensures forall q :: InPayload(w, q, a) ==> q == p
    ensures forall b :: b in w.heap.blocks ==> !(b.addr <= a < b.Data())
  {
    hide AlignTo;
    var h := w.heap.blocks;
    assert Backed(w, p);
    var k: nat :| Backs(w, p, k);
    Ordered(h, 0, k);
    forall q | InPayload(w, q, a) ensures q == p {
      assert Backed(w, q);
      var j: nat :| Backs(w, q, j);
      BlocksDisjoint(h, k, j, a);
    }
    forall i: nat | i < |h| ensures !(h[i].addr <= a < h[i].Data()) {
      if h[i].addr <= a < h[i].Data() { BlocksDisjoint(h, i, k, a); }
    }
  }

  /** Freeing a pointer makes room: asking again for what it held cannot run out of memory. */
  lemma FreedRoomIsUsable(w: World, p: nat, align: nat)
    requires Inv(w) && p in w.live && align > 0 && p % align == 0
    ensures Alloc(Step(w, FreeCall(p)).heap, w.live[p].size, align).Allocated?
  {
    hide AlignTo;
    assert Backed(w, p);
    var h, size := w.heap.blocks, AlignTo(w.live[p].size, 8);
    var k: nat :| Backs(w, p, k);
    FindFinds(h, p, k);
    var h' := Step(w, FreeCall(p)).heap.blocks;
    assert Fits(h'[k], size, align);
    FirstFitIsFirst(h', size, align, 0);
  }
}
