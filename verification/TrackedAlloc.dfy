/** The boot loader's allocator: the firmware's pool, and a table of (pointer, size) slots that remembers what
    is live. */
module TrackedAlloc {
  import opened Bytes

  /** What AllocatePool answers: a refusal, or a region nobody holds, with whatever bytes lie there. */
  datatype Grant = Denied | Granted(at: nat, bytes: seq<Byte>)

  /** `buffers` and `tables` are the regions the firmware has given out and not taken back, by address; `allocs`
      is the address of the table in use, or 0. */
  datatype State = State(buffers: map<nat, seq<Byte>>, tables: map<nat, seq<nat>>, allocs: nat) {
    function Slots(): seq<nat> { if allocs in tables then tables[allocs] else [] }

    ghost predicate Free(at: nat) { at != 0 && at !in buffers && at !in tables }
  }

  const START: State := State(map[], map[], 0)

  /** The first slot that holds `p`, or the end of the table. */
  function SlotOf(slots: seq<nat>, p: nat, from: nat): (i: nat)
    requires |slots| % 2 == 0 && from % 2 == 0 && from <= |slots|
    ensures from <= i <= |slots| && i % 2 == 0 && (i < |slots| ==> slots[i] == p)
    ensures forall j :: from <= j < i && j % 2 == 0 ==> slots[j] != p
    decreases |slots| - from
  {
    if from == |slots| || slots[from] == p then from else SlotOf(slots, p, from + 2)
  }

  predicate AllFree(slots: seq<nat>) {
    forall i :: 0 <= i < |slots| && i % 2 == 0 ==> slots[i] == 0
  }

  ghost predicate Holds(slots: seq<nat>, p: nat) {
    exists i :: 0 <= i < |slots| && i % 2 == 0 && slots[i] == p
  }

  /** The live buffers are exactly the nonzero even slots, each in one slot and with its size beside it. */
  ghost predicate Tracks(slots: seq<nat>, buffers: map<nat, seq<Byte>>) {
    && |slots| % 2 == 0
    && (forall p :: p in buffers ==> p != 0 && Holds(slots, p))
    && (forall i :: 0 <= i < |slots| && i % 2 == 0 && slots[i] != 0 ==>
          slots[i] in buffers && |buffers[slots[i]]| == slots[i + 1])
    && (forall i, j :: 0 <= i < j < |slots| && i % 2 == 0 && j % 2 == 0 && slots[i] != 0 ==> slots[i] != slots[j])
  }

  ghost predicate Inv(s: State) {
    && (s.allocs == 0 || s.allocs in s.tables)
    && 0 !in s.tables && s.tables.Keys !! s.buffers.Keys
    && (s.allocs != 0 ==> s.Slots() != [])
    && Tracks(s.Slots(), s.buffers)
  }

  // ----- the calls

  datatype Answer = Answer(s: State, ret: nat)

  /** The state once a slot is at hand: the old one, or one whose table has grown by a slot. */
  ghost function WithSlot(s: State, table: Grant): State
    requires Inv(s)
  {
    if SlotOf(s.Slots(), 0, 0) < |s.Slots()| || table.Denied? then s
    else s.(tables := s.tables[table.at := s.Slots() + [0, 0]], allocs := table.at)
  }

  /** Writes a slot of the table in use. */
  function SetSlot(s: State, i: nat, p: nat, size: nat): State
    requires i + 1 < |s.Slots()|
  {
    s.(tables := s.tables[s.allocs := s.Slots()[i := p][i + 1 := size]])
  }

  ghost predicate Fits(s: State, g: Grant, size: nat) {
    g.Granted? ==> s.Free(g.at) && |g.bytes| == size
  }

  /** The firmware gives out only what nobody holds: first the table, if one is asked for, then the buffer. */
  ghost predicate FirmwareFits(s: State, table: Grant, g: Grant, size: nat)
    requires Inv(s)
  {
    (table.Granted? ==> s.Free(table.at)) && Fits(WithSlot(s, table), g, size)
  }

  /** `table` answers the request for a larger table, if there is one, `g` the request for the buffer. */
  ghost function MallocCall(s: State, size: nat, table: Grant, g: Grant): Answer
    requires Inv(s)
  {
    var s1 := WithSlot(s, table);
    var i := SlotOf(s.Slots(), 0, 0);
    if i == |s1.Slots()| then Answer(s, 0)
    else if g.Denied? then Answer(SetSlot(s1, i, 0, size), 0)
    else Answer(SetSlot(s1.(buffers := s1.buffers[g.at := g.bytes]), i, g.at, size), g.at)
  }

  ghost function FreeCall(s: State, p: nat): State
    requires Inv(s)
  {
    var i := SlotOf(s.Slots(), p, 0);
    if p == 0 || i == |s.Slots()| then s
    else
      var s1 := SetSlot(s, i, 0, 0);
      var s2 := if AllFree(s1.Slots()) then s1.(tables := s1.tables - {s1.allocs}, allocs := 0) else s1;
      s2.(buffers := s2.buffers - {p})
  }

  /** The bytes of a buffer moved to `size` bytes. */
  function Resized(bytes: seq<Byte>, size: nat): (r: seq<Byte>)
    ensures |r| == size
    ensures forall i :: 0 <= i < size ==> r[i] == if i < |bytes| then bytes[i] else 0
  {
    if |bytes| < size then bytes + Zeros(size - |bytes|) else bytes[..size]
  }

  ghost function ReallocCall(s: State, p: nat, size: nat, table: Grant, g: Grant): Answer
    requires Inv(s)
  {
    if p == 0 then MallocCall(s, size, table, g)
    else if size == 0 then Answer(FreeCall(s, p), 0)
    else
      var i := SlotOf(s.Slots(), p, 0);
      if i == |s.Slots()| || g.Denied? then Answer(s, 0)
      else
        var moved := s.(buffers := (s.buffers - {p})[g.at := Resized(s.buffers[p], size)]);
        Answer(SetSlot(moved, i, g.at, size), g.at)
  }

  // ----- what every call keeps

  /** Writing one slot and its buffer together. */
  lemma TracksUpdate(slots: seq<nat>, buffers: map<nat, seq<Byte>>, i: nat, p: nat, bytes: seq<Byte>, size: nat)
    requires Tracks(slots, buffers) && i + 1 < |slots| && i % 2 == 0
    requires if p == 0 then true else p !in buffers && |bytes| == size
    ensures Tracks(slots[i := p][i + 1 := size],
                   if p == 0 then buffers - {slots[i]} else (buffers - {slots[i]})[p := bytes])
  {
    var was, now := slots[i], slots[i := p][i + 1 := size];
    var after := if p == 0 then buffers - {was} else (buffers - {was})[p := bytes];
    assert forall j :: 0 <= j < |slots| && j % 2 == 0 && j != i ==> now[j] == slots[j] && now[j + 1] == slots[j + 1];
    forall q | q in after ensures q != 0 && Holds(now, q) {
      if q == p {
        assert now[i] == q;
      } else {
        StillHeld(slots, now, i, q);
      }
    }
    hide Holds;
  }

  lemma StillHeld(slots: seq<nat>, now: seq<nat>, i: nat, q: nat)
    requires Holds(slots, q) && i < |slots| == |now| && slots[i] != q
    requires forall j :: 0 <= j < |slots| && j % 2 == 0 && j != i ==> now[j] == slots[j]
    ensures Holds(now, q)
  {
    var j :| 0 <= j < |slots| && j % 2 == 0 && slots[j] == q;
    assert now[j] == q;
  }

  lemma TracksLonger(slots: seq<nat>, buffers: map<nat, seq<Byte>>)
    requires Tracks(slots, buffers)
    ensures Tracks(slots + [0, 0], buffers)
  {
    var now := slots + [0, 0];
    assert forall j :: 0 <= j < |slots| ==> now[j] == slots[j];
    forall q | q in buffers ensures Holds(now, q) {
      var j :| 0 <= j < |slots| && j % 2 == 0 && slots[j] == q;
      assert now[j] == q;
    }
  }

  lemma FoundExactly(slots: seq<nat>, buffers: map<nat, seq<Byte>>, p: nat)
    requires Tracks(slots, buffers) && p != 0
    ensures SlotOf(slots, p, 0) < |slots| <==> p in buffers
  {
    if p in buffers {
      var j :| 0 <= j < |slots| && j % 2 == 0 && slots[j] == p;
    }
  }

  lemma AllFreeExactly(slots: seq<nat>, buffers: map<nat, seq<Byte>>)
    requires Tracks(slots, buffers)
    ensures AllFree(slots) <==> buffers == map[]
  {
    if buffers == map[] {
      assert forall i :: 0 <= i < |slots| && i % 2 == 0 ==> slots[i] == 0 || slots[i] in buffers;
    } else {
      var p :| p in buffers;
      var i :| 0 <= i < |slots| && i % 2 == 0 && slots[i] == p;
      assert slots[i] != 0;
    }
  }

  lemma OnlyBuffer(buffers: map<nat, seq<Byte>>, p: nat)
    requires p in buffers
    ensures buffers - {p} == map[] <==> buffers.Keys == {p}
  {
    assert (buffers - {p}).Keys == buffers.Keys - {p};
    assert buffers - {p} == map[] ==> buffers.Keys - {p} == {};
    assert buffers.Keys == {p} ==> (buffers - {p}).Keys == {};
  }

  lemma WithSlotKeeps(s: State, table: Grant)
    requires Inv(s) && (table.Granted? ==> s.Free(table.at))
    ensures Inv(WithSlot(s, table)) && WithSlot(s, table).buffers == s.buffers
    ensures var s1, i := WithSlot(s, table), SlotOf(s.Slots(), 0, 0);
      i < |s1.Slots()| ==> s1.allocs != 0 && s1.Slots()[i] == 0
  {
    hide Tracks;
    TracksLonger(s.Slots(), s.buffers);
  }

  lemma InvBasics(s: State)
    requires Inv(s)
    ensures |s.Slots()| % 2 == 0 && 0 !in s.buffers && 0 !in s.tables
    ensures s.allocs == 0 ==> s.Slots() == []
    ensures s.allocs != 0 ==> s.allocs in s.tables && s.Slots() == s.tables[s.allocs]
  {
  }

  /** The slot of a live buffer has its size beside it. */
  lemma SizeBeside(s: State, p: nat)
    requires Inv(s) && p != 0
    ensures |s.Slots()| % 2 == 0
    ensures var i := SlotOf(s.Slots(), p, 0);
      i < |s.Slots()| ==> p in s.buffers && s.Slots()[i + 1] == |s.buffers[p]|
  {
    hide SlotOf;
  }

  lemma SetSlotSlots(s: State, i: nat, p: nat, size: nat)
    requires i + 1 < |s.Slots()|
    ensures SetSlot(s, i, p, size).Slots() == s.Slots()[i := p][i + 1 := size]
  {
  }

  /** A call of `malloc` gives the buffer out or changes no buffer. It gives it out exactly when the firmware does
      and a slot is free or a larger table is granted. */
  lemma MallocKeeps(s: State, size: nat, table: Grant, g: Grant)
    requires Inv(s) && FirmwareFits(s, table, g, size)
    ensures var a := MallocCall(s, size, table, g);
      && Inv(a.s)
      && (if a.ret == 0 then a.s.buffers == s.buffers
          else g.Granted? && a.ret == g.at && g.at !in s.buffers && a.s.buffers == s.buffers[g.at := g.bytes])
      && (a.ret != 0 <==>
          g.Granted? && (table.Granted? || exists i :: 0 <= i < |s.Slots()| && i % 2 == 0 && s.Slots()[i] == 0))
  {
    FreeSlotFound(s.Slots());
    hide Tracks, SlotOf;
    TracksIsEven(s.Slots(), s.buffers);
    WithSlotKeeps(s, table);
    var s1, i := WithSlot(s, table), SlotOf(s.Slots(), 0, 0);
    if i < |s1.Slots()| {
      assert |s1.Slots()| % 2 == 0 by { TracksIsEven(s1.Slots(), s1.buffers); }
      assert s1.buffers - {0} == s1.buffers by { TracksIsEven(s1.Slots(), s1.buffers); }
      if g.Denied? {
        TracksUpdate(s1.Slots(), s1.buffers, i, 0, [], size);
      } else {
        TracksUpdate(s1.Slots(), s1.buffers, i, g.at, g.bytes, size);
      }
    }
  }

  lemma FreeSlotFound(slots: seq<nat>)
    ensures |slots| % 2 == 0 ==>
              (SlotOf(slots, 0, 0) < |slots| <==> exists i :: 0 <= i < |slots| && i % 2 == 0 && slots[i] == 0)
  {
  }

  lemma TracksIsEven(slots: seq<nat>, buffers: map<nat, seq<Byte>>)
    requires Tracks(slots, buffers)
    ensures |slots| % 2 == 0 && 0 !in buffers
  {
  }

  /** A call of `free` takes back the buffer named, and the table with the last one, exactly then. */
  lemma FreeKeeps(s: State, p: nat)
    requires Inv(s)
    ensures Inv(FreeCall(s, p)) && FreeCall(s, p).buffers == s.buffers - {p}
    ensures FreeCall(s, p).allocs == 0 <==> s.allocs == 0 || s.buffers.Keys == {p}
  {
    hide Tracks, SlotOf, AllFree;
    TracksIsEven(s.Slots(), s.buffers);
    var i := SlotOf(s.Slots(), p, 0);
    if p != 0 {
      FoundExactly(s.Slots(), s.buffers, p);
      if i < |s.Slots()| {
        TracksUpdate(s.Slots(), s.buffers, i, 0, [], 0);
        var s1 := SetSlot(s, i, 0, 0);
        SetSlotSlots(s, i, 0, 0);
        AllFreeExactly(s1.Slots(), s.buffers - {p});
        OnlyBuffer(s.buffers, p);
        if AllFree(s1.Slots()) {
          NothingTracked();
        }
      }
    }
  }

  lemma NothingTracked()
    ensures Tracks([], map[])
  {
  }

  /** A call of `realloc` on a live buffer moves it, its bytes up to the smaller size kept and the rest zero, or
      leaves everything alone; on anything else it does nothing. */
  lemma ReallocKeeps(s: State, p: nat, size: nat, table: Grant, g: Grant)
    requires Inv(s) && p != 0 && size != 0 && Fits(s, g, size)
    ensures var a := ReallocCall(s, p, size, table, g);
      && Inv(a.s)
      && (if p in s.buffers && g.Granted?
          then a.ret == g.at && a.s.buffers == (s.buffers - {p})[g.at := Resized(s.buffers[p], size)]
          else a.ret == 0 && a.s == s)
  {
    hide Tracks, SlotOf;
    TracksIsEven(s.Slots(), s.buffers);
    FoundExactly(s.Slots(), s.buffers, p);
    var i := SlotOf(s.Slots(), p, 0);
    if i < |s.Slots()| && g.Granted? {
      TracksUpdate(s.Slots(), s.buffers, i, g.at, Resized(s.buffers[p], size), size);
    }
  }

  // ----- whole runs

  datatype Call =
    | CallMalloc(size: nat, table: Grant, g: Grant)
    | CallRealloc(p: nat, size: nat, table: Grant, g: Grant)
    | CallFree(p: nat)

  ghost predicate Allowed(s: State, c: Call)
    requires Inv(s)
  {
    match c
    case CallMalloc(size, table, g) => FirmwareFits(s, table, g, size)
    case CallRealloc(p, size, table, g) => if p == 0 then FirmwareFits(s, table, g, size) else Fits(s, g, size)
    case CallFree(_) => true
  }

  ghost function Step(s: State, c: Call): State
    requires Inv(s)
  {
    match c
    case CallMalloc(size, table, g) => MallocCall(s, size, table, g).s
    case CallRealloc(p, size, table, g) => ReallocCall(s, p, size, table, g).s
    case CallFree(p) => FreeCall(s, p)
  }

  lemma StepKeeps(s: State, c: Call)
    requires Inv(s) && Allowed(s, c)
    ensures Inv(Step(s, c))
  {
    hide Inv, MallocCall, FreeCall, Fits, FirmwareFits;
    match c
    case CallMalloc(size, table, g) => MallocKeeps(s, size, table, g);
    case CallRealloc(p, size, table, g) =>
      if p == 0 { MallocKeeps(s, size, table, g); }
      else if size == 0 { FreeKeeps(s, p); }
      else { ReallocKeeps(s, p, size, table, g); }
    case CallFree(p) => FreeKeeps(s, p);
  }

  /** `t` is reached from `s` by the calls: any sizes, any pointers, any refusals. */
  ghost predicate Run(s: State, calls: seq<Call>, t: State)
    decreases |calls|
  {
    if calls == [] then s == t
    else Inv(s) && Allowed(s, calls[0]) && Run(Step(s, calls[0]), calls[1..], t)
  }

  lemma {:induction false} RunKeeps(s: State, calls: seq<Call>, t: State)
    requires Inv(s) && Run(s, calls, t)
    ensures Inv(t)
    decreases |calls|
  {
    hide Inv, Step, Allowed;
    if calls != [] {
      StepKeeps(s, calls[0]);
      RunKeeps(Step(s, calls[0]), calls[1..], t);
    }
  }

  /** After any run from the start, the nonzero even slots are exactly the live buffers, each once and paired
      with its size. */
  lemma SlotsAreTheLiveBuffers(calls: seq<Call>, t: State)
    requires Run(START, calls, t)
    ensures Tracks(t.Slots(), t.buffers)
  {
    NothingTracked();
    RunKeeps(START, calls, t);
  }

  predicate Names(c: Call, q: nat) {
    (c.CallRealloc? || c.CallFree?) && c.p == q
  }

  lemma StepLeavesOthers(s: State, c: Call, q: nat)
    requires Inv(s) && Allowed(s, c) && q in s.buffers && !Names(c, q)
    ensures q in Step(s, c).buffers && Step(s, c).buffers[q] == s.buffers[q]
  {
    hide Inv, MallocCall, FreeCall, FirmwareFits;
    InvBasics(s);
    match c
    case CallMalloc(size, table, g) => MallocKeeps(s, size, table, g);
    case CallRealloc(p, size, table, g) =>
      if p == 0 { MallocKeeps(s, size, table, g); }
      else if size == 0 { FreeKeeps(s, p); }
      else { ReallocKeeps(s, p, size, table, g); }
    case CallFree(p) => FreeKeeps(s, p);
  }

  /** Through any run, a buffer that no call names stays live and keeps its bytes. */
  lemma {:induction false} RunLeavesOthers(s: State, calls: seq<Call>, t: State, q: nat)
    requires Inv(s) && Run(s, calls, t) && q in s.buffers && forall c :: c in calls ==> !Names(c, q)
    ensures q in t.buffers && t.buffers[q] == s.buffers[q]
    decreases |calls|
  {
    hide Inv, Step, Allowed, Names;
    if calls != [] {
      StepKeeps(s, calls[0]);
      StepLeavesOthers(s, calls[0], q);
      RunLeavesOthers(Step(s, calls[0]), calls[1..], t, q);
    }
  }

  /** Tables the allocator no longer uses but the firmware still counts as given out. */
  ghost function Abandoned(s: State): set<nat> { s.tables.Keys - {s.allocs} }

  /** The call asks for a new buffer while a table is in use, every slot of it is taken, and the firmware gives
      a larger one. */
  ghost predicate Grows(s: State, c: Call)
    requires Inv(s)
  {
    && (c.CallMalloc? || (c.CallRealloc? && c.p == 0))
    && c.table.Granted? && s.allocs != 0
    && SlotOf(s.Slots(), 0, 0) == |s.Slots()|
  }

  lemma WithSlotAbandons(s: State, table: Grant)
    requires Inv(s) && (table.Granted? ==> s.Free(table.at))
    ensures Abandoned(WithSlot(s, table)) == Abandoned(s) +
              if table.Granted? && s.allocs != 0 && SlotOf(s.Slots(), 0, 0) == |s.Slots()| then {s.allocs} else {}
  {
    hide Tracks, SlotOf;
  }

  /** A call abandons the table in use exactly when it grows it, and no call gives an abandoned one back. */
  lemma AbandonsExactly(s: State, c: Call)
    requires Inv(s) && Allowed(s, c)
    ensures Abandoned(Step(s, c)) == Abandoned(s) + if Grows(s, c) then {s.allocs} else {}
  {
    hide Tracks, SlotOf, AllFree;
    InvBasics(s);
    match c
    case CallMalloc(size, table, g) => MallocAbandons(s, size, table, g);
    case CallRealloc(p, size, table, g) =>
      if p == 0 { MallocAbandons(s, size, table, g); }
      else if size == 0 { FreeAbandons(s, p); }
      else { ReallocAbandons(s, p, size, table, g); }
    case CallFree(p) => FreeAbandons(s, p);
  }

  lemma MallocAbandons(s: State, size: nat, table: Grant, g: Grant)
    requires Inv(s) && FirmwareFits(s, table, g, size)
    ensures Abandoned(MallocCall(s, size, table, g).s) == Abandoned(WithSlot(s, table))
    ensures Abandoned(WithSlot(s, table)) == Abandoned(s) +
              if table.Granted? && s.allocs != 0 && SlotOf(s.Slots(), 0, 0) == |s.Slots()| then {s.allocs} else {}
  {
    hide Tracks, SlotOf;
    WithSlotAbandons(s, table);
    WithSlotKeeps(s, table);
    InvBasics(s);
    InvBasics(WithSlot(s, table));
  }

  lemma FreeAbandons(s: State, p: nat)
    requires Inv(s)
    ensures Abandoned(FreeCall(s, p)) == Abandoned(s)
  {
    hide Tracks, SlotOf, AllFree;
    InvBasics(s);
  }

  lemma ReallocAbandons(s: State, p: nat, size: nat, table: Grant, g: Grant)
    requires Inv(s) && p != 0 && size != 0
    ensures Abandoned(ReallocCall(s, p, size, table, g).s) == Abandoned(s)
  {
    hide Tracks, SlotOf;
    InvBasics(s);
  }

  /** Some call of the run grew a table in use. */
  ghost predicate EverGrows(s: State, calls: seq<Call>, t: State)
    requires Run(s, calls, t)
    decreases |calls|
  {
    calls != [] && (Grows(s, calls[0]) || EverGrows(Step(s, calls[0]), calls[1..], t))
  }

  lemma {:induction false} RunAbandonsExactly(s: State, calls: seq<Call>, t: State)
    requires Inv(s) && Run(s, calls, t)
    ensures Abandoned(s) <= Abandoned(t)
    ensures Abandoned(t) == Abandoned(s) <==> !EverGrows(s, calls, t)
    decreases |calls|
  {
    hide Step, Allowed;
    if calls != [] {
      var u := Step(s, calls[0]);
      StepKeeps(s, calls[0]);
      AbandonsExactly(s, calls[0]);
      RunAbandonsExactly(u, calls[1..], t);
      TableInUse(s);
    }
  }

  /** The table in use is not an abandoned one. */
  lemma TableInUse(s: State)
    requires Inv(s)
    ensures s.allocs !in Abandoned(s)
    ensures s.tables.Keys == Abandoned(s) + if s.allocs == 0 then {} else {s.allocs}
  {
    hide Tracks;
  }

  /** The call asks for a new buffer, and is granted a table if it asks for one, while a buffer is live. */
  ghost predicate AsksWhileLive(s: State, c: Call) {
    (c.CallMalloc? || (c.CallRealloc? && c.p == 0)) && c.table.Granted? && s.buffers != map[]
  }

  /** Some call of the run does. */
  ghost predicate EverAsksWhileLive(s: State, calls: seq<Call>, t: State)
    requires Run(s, calls, t)
    decreases |calls|
  {
    calls != [] && (AsksWhileLive(s, calls[0]) || EverAsksWhileLive(Step(s, calls[0]), calls[1..], t))
  }

  /** With a slot at most, the table is full exactly when a buffer is live. */
  lemma OneSlotFull(slots: seq<nat>, buffers: map<nat, seq<Byte>>)
    requires Tracks(slots, buffers) && |slots| <= 2
    ensures slots != [] && SlotOf(slots, 0, 0) == |slots| <==> buffers != map[]
  {
    if slots != [] {
      assert SlotOf(slots, 0, 0) == if slots[0] == 0 then 0 else 2;
    }
    if p :| p in buffers {
      var i :| 0 <= i < |slots| && i % 2 == 0 && slots[i] == p;
      assert i == 0;
    } else if slots != [] {
      assert slots[0] == 0;
    }
  }

  lemma OneSlotGrowsExactly(s: State, c: Call)
    requires Inv(s) && |s.Slots()| <= 2
    ensures Grows(s, c) <==> AsksWhileLive(s, c)
  {
    hide Tracks, SlotOf;
    OneSlotFull(s.Slots(), s.buffers);
  }

  lemma OneSlotStays(s: State, c: Call)
    requires Inv(s) && Allowed(s, c) && |s.Slots()| <= 2 && !Grows(s, c)
    ensures |Step(s, c).Slots()| <= 2
  {
    hide Tracks, SlotOf, AllFree;
    InvBasics(s);
    match c
    case CallMalloc(size, table, g) => OneSlotMalloc(s, size, table, g);
    case CallRealloc(p, size, table, g) => if p == 0 { OneSlotMalloc(s, size, table, g); }
    case CallFree(p) =>
  }

  lemma OneSlotMalloc(s: State, size: nat, table: Grant, g: Grant)
    requires Inv(s) && FirmwareFits(s, table, g, size) && |s.Slots()| <= 2
    requires !(table.Granted? && s.allocs != 0 && SlotOf(s.Slots(), 0, 0) == |s.Slots()|)
    ensures |MallocCall(s, size, table, g).s.Slots()| <= 2
  {
    hide Tracks, SlotOf;
    WithSlotKeeps(s, table);
    InvBasics(s);
    InvBasics(WithSlot(s, table));
  }

  lemma {:induction false} RunGrowsExactly(s: State, calls: seq<Call>, t: State)
    requires Inv(s) && Run(s, calls, t) && |s.Slots()| <= 2
    ensures EverGrows(s, calls, t) <==> EverAsksWhileLive(s, calls, t)
    decreases |calls|
  {
    hide Inv, Step, Allowed, Grows, AsksWhileLive;
    if calls != [] {
      StepKeeps(s, calls[0]);
      OneSlotGrowsExactly(s, calls[0]);
      if !Grows(s, calls[0]) {
        OneSlotStays(s, calls[0]);
        RunGrowsExactly(Step(s, calls[0]), calls[1..], t);
      }
    }
  }

  /** From the start a run grows a table in use exactly when it asks for a buffer while it holds one. */
  lemma GrowsWhenLiveExactly(calls: seq<Call>, t: State)
    requires Run(START, calls, t)
    ensures EverGrows(START, calls, t) <==> EverAsksWhileLive(START, calls, t)
  {
    NothingTracked();
    RunGrowsExactly(START, calls, t);
  }

  /** After any run from the start, every table has been given back exactly when none is in use and the run never
      asked for a buffer while it held one. */
  lemma TablesGoBackExactly(calls: seq<Call>, t: State)
    requires Run(START, calls, t)
    ensures t.tables == map[] <==> t.allocs == 0 && !EverAsksWhileLive(START, calls, t)
  {
    hide Run, EverGrows, EverAsksWhileLive, Step;
    NothingTracked();
    assert Inv(START) && Abandoned(START) == {};
    RunKeeps(START, calls, t);
    RunAbandonsExactly(START, calls, t);
    GrowsWhenLiveExactly(calls, t);
    TableInUse(t);
    assert t.tables == map[] <==> t.tables.Keys == {};
  }

  /** When a run has freed every buffer with a last `free`, all memory is the firmware's again exactly when the run
      never asked for a buffer while it held one. */
  lemma AllGoesBackExactly(calls: seq<Call>, s: State, p: nat)
    requires Run(START, calls, s) && s.buffers.Keys == {p}
    ensures Inv(s)
    ensures var t := FreeCall(s, p);
      && t.buffers == map[] && t.allocs == 0
      && (t.tables == map[] <==> !EverAsksWhileLive(START, calls, s))
  {
    hide Run, EverGrows, EverAsksWhileLive, Step, FreeCall;
    NothingTracked();
    assert Inv(START) && Abandoned(START) == {};
    RunKeeps(START, calls, s);
    RunAbandonsExactly(START, calls, s);
    GrowsWhenLiveExactly(calls, s);
    InvBasics(s);
    FreeKeeps(s, p);
    OnlyBuffer(s.buffers, p);
    FreeAbandons(s, p);
    TableInUse(FreeCall(s, p));
    assert FreeCall(s, p).tables == map[] <==> FreeCall(s, p).tables.Keys == {};
  }

  /** Two buffers live at once are enough: both are freed, and a table is still outstanding. */
  lemma TwoBuffersLoseATable(first: nat, p: nat, x: seq<Byte>, second: nat, q: nat, y: seq<Byte>)
    returns (calls: seq<Call>, s: State)
    requires first != 0 && p !in {0, first} && second !in {0, first, p} && q !in {0, first, p, second}
    ensures calls == [CallMalloc(|x|, Granted(first, []), Granted(p, x)),
                      CallMalloc(|y|, Granted(second, []), Granted(q, y)), CallFree(p)]
    ensures Run(START, calls, s) && Inv(s)
    ensures s.buffers == map[q := y] && FreeCall(s, q).buffers == map[] && FreeCall(s, q).tables != map[]
  {
    var one := CallMalloc(|x|, Granted(first, []), Granted(p, x));
    var two := CallMalloc(|y|, Granted(second, []), Granted(q, y));
    calls := [one, two, CallFree(p)];
    var s1 := State(map[p := x], map[first := [p, |x|]], first);
    var s2 := State(map[p := x, q := y], map[first := [p, |x|], second := [p, |x|, q, |y|]], second);
    hide *;
    FirstMalloc(first, p, x);
    SecondMalloc(first, p, x, second, q, y);
    LeftWithout(p, x, q, y);
    s := FreeCall(s2, p);
    LosesATable(s1, one, s2, two, p, q);
  }

  lemma LosesATable(s1: State, one: Call, s2: State, two: Call, p: nat, q: nat)
    requires Inv(START) && Allowed(START, one) && Step(START, one) == s1
    requires Inv(s1) && Allowed(s1, two) && Step(s1, two) == s2
    requires p in s1.buffers && two.CallMalloc? && two.table.Granted? && (s2.buffers - {p}).Keys == {q}
    ensures Inv(s2)
    ensures var s := FreeCall(s2, p);
      && Run(START, [one, two, CallFree(p)], s) && Inv(s) && s.buffers == s2.buffers - {p}
      && FreeCall(s, q).buffers == map[] && FreeCall(s, q).tables != map[]
  {
    hide *;
    StepKeeps(s1, two);
    FreeKeeps(s2, p);
    RunOfThree(s1, one, s2, two, p);
    AllGoesBackExactly([one, two, CallFree(p)], FreeCall(s2, p), q);
  }

  lemma LeftWithout(p: nat, x: seq<Byte>, q: nat, y: seq<Byte>)
    requires p != q
    ensures map[p := x, q := y] - {p} == map[q := y] && map[q := y].Keys == {q}
  {
  }

  lemma RunOfThree(s1: State, one: Call, s2: State, two: Call, p: nat)
    requires Inv(START) && Allowed(START, one) && Step(START, one) == s1
    requires Inv(s1) && Allowed(s1, two) && Step(s1, two) == s2
    requires Inv(s2) && s1.buffers != map[] && two.CallMalloc? && two.table.Granted?
    ensures Run(START, [one, two, CallFree(p)], FreeCall(s2, p))
    ensures EverAsksWhileLive(START, [one, two, CallFree(p)], FreeCall(s2, p))
  {
    hide Inv, Step, FreeCall, Allowed;
    var s := FreeCall(s2, p);
    LastFree(s2, p);
    assert [two, CallFree(p)][1..] == [CallFree(p)] && [one, two, CallFree(p)][1..] == [two, CallFree(p)];
    assert Run(s1, [two, CallFree(p)], s);
  }

  lemma LastFree(s: State, p: nat)
    requires Inv(s)
    ensures Run(s, [CallFree(p)], FreeCall(s, p))
  {
    hide Inv, FreeCall;
    assert [CallFree(p)][1..] == [];
  }

  lemma FirstMalloc(first: nat, p: nat, x: seq<Byte>)
    requires first != 0 && p !in {0, first}
    ensures var c := CallMalloc(|x|, Granted(first, []), Granted(p, x));
      && Inv(START) && Allowed(START, c)
      && Step(START, c) == State(map[p := x], map[first := [p, |x|]], first)
    ensures Inv(State(map[p := x], map[first := [p, |x|]], first))
  {
    NothingTracked();
    assert START.Slots() == [] && START.Slots() + [0, 0] == [0, 0];
    assert START.tables[first := [0, 0]] == map[first := [0, 0]];
    var s1 := WithSlot(START, Granted(first, []));
    assert s1 == State(map[], map[first := [0, 0]], first);
    var s2 := s1.(buffers := s1.buffers[p := x]);
    assert s2.Slots() == [0, 0] && [0, 0][0 := p][1 := |x|] == [p, |x|];
    assert s2.buffers == map[p := x] && s2.tables[first := [p, |x|]] == map[first := [p, |x|]];
    StepKeeps(START, CallMalloc(|x|, Granted(first, []), Granted(p, x)));
  }

  lemma SecondMalloc(first: nat, p: nat, x: seq<Byte>, second: nat, q: nat, y: seq<Byte>)
    requires first != 0 && p !in {0, first} && second !in {0, first, p} && q !in {0, first, p, second}
    requires Inv(State(map[p := x], map[first := [p, |x|]], first))
    ensures var s, c := State(map[p := x], map[first := [p, |x|]], first),
                        CallMalloc(|y|, Granted(second, []), Granted(q, y));
      && Allowed(s, c)
      && Step(s, c) == State(map[p := x, q := y], map[first := [p, |x|], second := [p, |x|, q, |y|]], second)
      && Inv(Step(s, c))
  {
    hide Inv;
    var s, was := State(map[p := x], map[first := [p, |x|]], first), [p, |x|];
    assert s.Slots() == was && SlotOf(was, 0, 0) == SlotOf(was, 0, 2) == 2;
    var s1 := WithSlot(s, Granted(second, []));
    assert s1 == State(map[p := x], map[first := was, second := was + [0, 0]], second);
    var s2 := s1.(buffers := s1.buffers[q := y]);
    assert s2.Slots() == [p, |x|, 0, 0] && [p, |x|, 0, 0][2 := q][3 := |y|] == [p, |x|, q, |y|];
    assert s2.buffers == map[p := x, q := y];
    assert s2.tables[second := [p, |x|, q, |y|]] == map[first := was, second := [p, |x|, q, |y|]];
    StepKeeps(s, CallMalloc(|y|, Granted(second, []), Granted(q, y)));
  }

  // ----- the allocator itself

  class Allocator {
    var buffers: map<nat, seq<Byte>>
    var tables: map<nat, seq<nat>>
    var allocs: nat
    var numAllocs: nat

    ghost function Snapshot(): State
      reads this
    {
      State(buffers, tables, allocs)
    }

    ghost predicate Valid()
      reads this
    {
      Inv(Snapshot()) && numAllocs == |Snapshot().Slots()|
    }

    constructor ()
      ensures Valid() && Snapshot() == START
    {
      buffers, tables, allocs, numAllocs := map[], map[], 0, 0;
    }

    /** The scan for a slot, over the table in use. */
    method Find(p: nat) returns (i: nat)
      requires Valid()
      ensures i == SlotOf(Snapshot().Slots(), p, 0)
    {
      hide Inv;
      InvBasics(Snapshot());
      i := 0;
      while i < numAllocs && tables[allocs][i] != p
        invariant i % 2 == 0 && i <= numAllocs
        invariant SlotOf(Snapshot().Slots(), p, 0) == SlotOf(Snapshot().Slots(), p, i)
      {
        i := i + 2;
      }
    }

    method Malloc(size: nat, table: Grant, g: Grant) returns (ret: nat)
      requires Valid() && FirmwareFits(Snapshot(), table, g, size)
      modifies this
      ensures Valid() && Answer(Snapshot(), ret) == MallocCall(old(Snapshot()), size, table, g)
    {
      hide Inv, SlotOf, Fits, FirmwareFits;
      InvBasics(Snapshot());
      MallocKeeps(Snapshot(), size, table, g);
      var i := Find(0);
      if i == numAllocs {
        if table.Denied? {
          return 0;
        }
        var copy := (if allocs != 0 then tables[allocs] else []) + [0, 0];
        tables := tables[table.at := copy];
        allocs := table.at;
        numAllocs := numAllocs + 2;
      }
      ret := 0;
      if g.Granted? {
        buffers := buffers[g.at := g.bytes];
        ret := g.at;
      }
      var slots: seq<nat> := tables[allocs][i := ret][i + 1 := size];
      tables := tables[allocs := slots];
    }

    method Free(p: nat)
      requires Valid()
      modifies this
      ensures Valid() && Snapshot() == FreeCall(old(Snapshot()), p)
    {
      hide Inv, SlotOf;
      InvBasics(Snapshot());
      FreeKeeps(Snapshot(), p);
      if p == 0 {
        return;
      }
      var i := Find(p);
      if i == numAllocs {
        return;
      }
      tables := tables[allocs := tables[allocs][i := 0][i + 1 := 0]];
      i := 0;
      while i < numAllocs && tables[allocs][i] == 0
        invariant i % 2 == 0 && i <= numAllocs
        invariant forall j :: 0 <= j < i && j % 2 == 0 ==> tables[allocs][j] == 0
      {
        i := i + 2;
      }
      assert i == numAllocs <==> AllFree(tables[allocs]);
      assert State(buffers, tables, allocs) == SetSlot(old(Snapshot()), SlotOf(old(Snapshot()).Slots(), p, 0), 0, 0);
      if i == numAllocs {
        tables := tables - {allocs};
        allocs := 0;
        numAllocs := 0;
      }
      buffers := buffers - {p};
    }

    /** The copy of the old bytes that fit, and the zeros after them. */
    static method Moved(source: seq<Byte>, was: nat, target: seq<Byte>) returns (bytes: seq<Byte>)
      requires was == |source|
      ensures bytes == Resized(source, |target|)
    {
      var kept := if was < |target| then was else |target|;
      bytes := source[..kept] + target[kept..];
      if |target| > was {
        bytes := bytes[..was] + Zeros(|target| - was);
      }
    }

    method Realloc(p: nat, size: nat, table: Grant, g: Grant) returns (ret: nat)
      requires Valid() && Allowed(Snapshot(), CallRealloc(p, size, table, g))
      modifies this
      ensures Valid() && Answer(Snapshot(), ret) == ReallocCall(old(Snapshot()), p, size, table, g)
    {
      hide MallocCall, FreeCall, WithSlot, Resized, Inv, SlotOf, FirmwareFits;
      if p == 0 {
        ret := Malloc(size, table, g);
        return;
      }
      if size == 0 {
        Free(p);
        return 0;
      }
      InvBasics(Snapshot());
      ReallocKeeps(Snapshot(), p, size, table, g);
      SizeBeside(Snapshot(), p);
      var i := Find(p);
      if i == numAllocs || g.Denied? {
        return 0;
      }
      var was := tables[allocs][i + 1];
      var bytes := Moved(buffers[p], was, g.bytes);
      ret := g.at;
      buffers := (buffers - {p})[ret := bytes];
      var slots: seq<nat> := tables[allocs][i := ret][i + 1 := size];
      tables := tables[allocs := slots];
    }
  }
}
