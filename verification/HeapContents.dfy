/** Runs of the heap together with the memory it lies in: what clients stored stays where they stored it. */
module HeapContents {
  import opened HeapModel
  import opened HeapRuns
  import opened KernelHeap

  /** A call of the allocator, or a client's store of a word into a payload it holds. */
  datatype Event = Calls(call: Call) | Stores(ptr: nat, at: nat, word: nat)

  datatype Snapshot = Snapshot(w: World, m: Memory)

  ghost predicate Allowed(w: World, e: Event) {
    match e
    case Calls(c) => Legal(w, c)
    case Stores(p, a, _) => InPayload(w, p, a) && a % 4 == 0
  }

  /** The allocator writes block headers only, a client one word. */
  ghost predicate Happens(s: Snapshot, e: Event, t: Snapshot) {
    && Allowed(s.w, e)
    && match e
       case Calls(c) => t.w == Step(s.w, c) && forall a: nat :: !IsHeaderWord(t.w.heap.blocks, a) ==> t.m(a) == s.m(a)
       case Stores(_, a, v) => t.w == s.w && t.m(a) == v && forall x: nat :: x != a ==> t.m(x) == s.m(x)
  }

  /** The event frees the pointer or stores into its payload. */
  predicate Names(e: Event, p: nat) {
    match e
    case Calls(c) => c.FreeCall? && c.ptr == p
    case Stores(q, _, _) => q == p
  }

  /** The code does what an event allows, from any state of the invariant. */
  method Perform(h: Allocator, e: Event, ghost live: map<nat, Asked>) returns (ghost live': map<nat, Asked>)
    requires h.Valid() && Inv(World(h.State(), live)) && Allowed(World(h.State(), live), e)
    modifies h
    ensures h.Valid()
    ensures Happens(Snapshot(World(old(h.State()), live), old(h.mem)), e, Snapshot(World(h.State(), live'), h.mem))
  {
    hide Alloc, IsHeaderWord, Linked, SumUsed, Wellplaced, HeapModel.Valid;
    ghost var w := World(h.State(), live);
    match e {
      case Calls(AllocCall(request, align)) =>
        live' := Step(w, AllocCall(request, align)).live;
        var ptr := h.AlignedAlloc(align, request);
      case Calls(FreeCall(p)) =>
        live' := Step(w, FreeCall(p)).live;
        ghost var k := HeldIsFound(w, p);
        h.Kfree(p);
      case Stores(p, a, v) =>
        live' := live;
        ghost var k := HeldIsFound(w, p);
        h.ClientStore(k, a, v);
    }
  }

  lemma HeldIsFound(w: World, p: nat) returns (k: nat)
    requires Inv(w) && p in w.live
    ensures p != 0 && k == Find(w.heap.blocks, p) && Holds(w.heap.blocks, p, k)
    ensures w.live[p].size <= w.heap.blocks[k].size
  {
    assert Backed(w, p);
    k :| Backs(w, p, k);
    FindFinds(w.heap.blocks, p, k);
  }

  lemma EventKeepsWord(s: Snapshot, e: Event, t: Snapshot, p: nat, a: nat)
    requires Inv(s.w) && Happens(s, e, t) && !Names(e, p) && InPayload(s.w, p, a)
    ensures Inv(t.w) && InPayload(t.w, p, a) && t.w.live[p] == s.w.live[p] && t.m(a) == s.m(a)
  {
    hide Alloc, Inv;
    PayloadsAreSeparate(s.w, p, a);
    match e {
      case Calls(c) =>
        match c {
          case AllocCall(request, align) => AllocCallKeeps(s.w, request, align, p);
          case FreeCall(q) => FreeCallKeeps(s.w, q, p);
        }
        PayloadsAreSeparate(t.w, p, a);
      case Stores(q, x, v) =>
    }
  }

  lemma AllocCallKeeps(w: World, request: nat, align: nat, p: nat)
    requires Inv(w) && ValidAlign(align) && FitsAddressSpace(request, align) && p in w.live
    ensures var w' := Step(w, AllocCall(request, align)); Inv(w') && p in w'.live && w'.live[p] == w.live[p]
  {
    hide Alloc, Inv;
    AllocStep(w, request, align);
  }

  lemma FreeCallKeeps(w: World, q: nat, p: nat)
    requires Inv(w) && q in w.live && p in w.live && p != q
    ensures var w' := Step(w, FreeCall(q)); Inv(w') && p in w'.live && w'.live[p] == w.live[p]
  {
    hide Inv;
    FreeStep(w, q);
  }

  /** Snapshots before, between and after the events. */
  ghost predicate Execution(ss: seq<Snapshot>, es: seq<Event>) {
    |ss| == |es| + 1 && forall i :: 0 <= i < |es| ==> Happens(ss[i], es[i], ss[i + 1])
  }

  /** Through any run, a payload that no call frees and no client stores into stays held, as large as it was, and
      keeps every word. */
  lemma {:induction false} RunKeepsContents(ss: seq<Snapshot>, es: seq<Event>, n: nat, p: nat, a: nat)
    requires Execution(ss, es) && Inv(ss[0].w) && n <= |es|
    requires InPayload(ss[0].w, p, a) && forall e :: e in es ==> !Names(e, p)
    ensures Inv(ss[n].w) && InPayload(ss[n].w, p, a)
    ensures ss[n].w.live[p] == ss[0].w.live[p] && ss[n].m(a) == ss[0].m(a)
  {
    hide Inv, Happens, InPayload, Names;
    if n > 0 {
      RunKeepsContents(ss, es, n - 1, p, a);
      assert es[n - 1] in es && Happens(ss[n - 1], es[n - 1], ss[n - 1 + 1]);
      EventKeepsWord(ss[n - 1], es[n - 1], ss[n], p, a);
    }
  }
}
