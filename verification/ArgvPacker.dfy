/** Packing the program's wide arguments into one UTF-8 block: a pointer table, then the strings. */
module ArgvPacker {
  import opened Utf8

  const WORD_BYTES: nat := 8  // sizeof(uintptr_t)

  datatype Arg = NoText | Wide(text: seq<Wide>) {
    function Units(): seq<Utf8.Wide> { if NoText? then [] else text }
  }

  type Argv = seq<Arg>

  /** Pointers are offsets into the block. */
  datatype Pointer = Null | To(offset: nat)

  /** What a byte of the block holds: nothing yet, a text byte, or byte `k` of a stored pointer. */
  datatype Cell = Unwritten | Text(b: Byte) | PointerByte(p: Pointer, k: nat)

  // ----- the layout

  function TextBytes(argv: Argv): seq<Byte> {
    if argv == [] then [] else EncodeAll(argv[0].Units()) + [0] + TextBytes(argv[1..])
  }

  /** Where the strings begin: after `argc` pointers and the NULL that ends the table. */
  function TextStart(argv: Argv): nat { (|argv| + 1) * WORD_BYTES }

  /** Where string `i` begins. */
  function StringOffset(argv: Argv, i: nat): nat
    requires i <= |argv|
  {
    |TextBytes(argv[..i])|
  }

  ghost predicate PointerAt(cells: seq<Cell>, at: nat, p: Pointer) {
    at + WORD_BYTES <= |cells| && forall k: nat :: k < WORD_BYTES ==> cells[at + k] == PointerByte(p, k)
  }

  ghost predicate BytesAt(cells: seq<Cell>, at: nat, bytes: seq<Byte>) {
    at + |bytes| <= |cells| && forall k: nat :: k < |bytes| ==> cells[at + k] == Text(bytes[k])
  }

  /** The finished block: every pointer leads to its string, NULL ends the table, the strings follow it,
      and exactly the last byte is never written. */
  ghost predicate Packed(cells: seq<Cell>, argv: Argv) {
    && |cells| == TextStart(argv) + |TextBytes(argv)| + 1
    && (forall i: nat :: i < |argv| ==> PointerAt(cells, i * WORD_BYTES, To(TextStart(argv) + StringOffset(argv, i))))
    && PointerAt(cells, |argv| * WORD_BYTES, Null)
    && BytesAt(cells, TextStart(argv), TextBytes(argv))
    && cells[|cells| - 1] == Unwritten
  }

  // ----- the first pass

  function UnitSize(u: Utf8.Wide): nat { if u < 0x80 then 1 else if u < 0x800 then 2 else 3 }

  method PackedSize(argv: Argv) returns (size: nat)
    ensures size == TextStart(argv) + |TextBytes(argv)| + 1
  {
    size := (|argv| + 1) * (WORD_BYTES + 1);
    var i := 0;
    assert argv[..0] == [];
    while i < |argv|
      invariant i <= |argv|
      invariant size + i == (|argv| + 1) * (WORD_BYTES + 1) + |TextBytes(argv[..i])|
    {
      var j := 0;
      ghost var before := size;
      var w := argv[i].Units();
      assert w[..0] == [];
      while j < |w|
        invariant j <= |w| && size == before + |EncodeAll(w[..j])|
      {
        EncodeOneMore(w, j);
        size := size + UnitSize(w[j]);
        j := j + 1;
      }
      assert w[..|w|] == w;
      TextOneMore(argv, i);
      i := i + 1;
    }
    assert argv[..|argv|] == argv;
  }

  lemma TextOneMore(argv: Argv, i: nat)
    requires i < |argv|
    ensures TextBytes(argv[..i + 1]) == TextBytes(argv[..i]) + EncodeAll(argv[i].Units()) + [0]
  {
    hide EncodeAll;
    if i == 0 {
      assert argv[..1] == [argv[0]] && argv[..0] == [];
    } else {
      assert argv[..i + 1][1..] == argv[1..][..i] && argv[..i][1..] == argv[1..][..i - 1];
      TextOneMore(argv[1..], i - 1);
    }
  }

  // ----- the second pass

  /** Half-way: `i` pointers and the table's end are stored, `done` is written of the strings, and nothing
      past it. */
  ghost predicate Filled(cells: seq<Cell>, argv: Argv, i: nat, done: seq<Byte>)
    requires i <= |argv|
  {
    && |cells| == TextStart(argv) + |TextBytes(argv)| + 1
    && (forall j: nat :: j < i ==> PointerAt(cells, j * WORD_BYTES, To(TextStart(argv) + StringOffset(argv, j))))
    && PointerAt(cells, |argv| * WORD_BYTES, Null)
    && BytesAt(cells, TextStart(argv), done)
    && (forall k :: TextStart(argv) + |done| <= k < |cells| ==> cells[k] == Unwritten)
  }

  method StorePointer(block: array<Cell>, at: nat, p: Pointer)
    requires at + WORD_BYTES <= block.Length
    modifies block
    ensures PointerAt(block[..], at, p)
    ensures forall k :: 0 <= k < block.Length && !(at <= k < at + WORD_BYTES) ==> block[k] == old(block[k])
  {
    var k := 0;
    while k < WORD_BYTES
      invariant k <= WORD_BYTES
      invariant forall j: nat :: j < k ==> block[at + j] == PointerByte(p, j)
      invariant forall j :: 0 <= j < block.Length && !(at <= j < at + k) ==> block[j] == old(block[j])
    {
      block[at + k] := PointerByte(p, k);
      k := k + 1;
    }
  }

  /** `*s++ = b`. */
  method PutByte(block: array<Cell>, s: nat, b: Byte, ghost argv: Argv, ghost i: nat, ghost done: seq<Byte>)
    requires i <= |argv| && Filled(block[..], argv, i, done) && s == TextStart(argv) + |done| < block.Length
    modifies block
    ensures Filled(block[..], argv, i, done + [b])
  {
    ghost var cells := block[..];
    block[s] := Text(b);
    forall j: nat | j < i ensures PointerAt(block[..], j * WORD_BYTES, To(TextStart(argv) + StringOffset(argv, j))) {
      assert PointerAt(cells, j * WORD_BYTES, To(TextStart(argv) + StringOffset(argv, j)));
    }
  }

  lemma PointerStored(cells: seq<Cell>, cells': seq<Cell>, argv: Argv, i: nat, done: seq<Byte>)
    requires i < |argv| && Filled(cells, argv, i, done) && |cells'| == |cells|
    requires PointerAt(cells', i * WORD_BYTES, To(TextStart(argv) + StringOffset(argv, i)))
    requires forall k :: 0 <= k < |cells| && !(i * WORD_BYTES <= k < i * WORD_BYTES + WORD_BYTES) ==>
               cells'[k] == cells[k]
    ensures Filled(cells', argv, i + 1, done)
  {
    forall j: nat | j < i + 1 ensures PointerAt(cells', j * WORD_BYTES, To(TextStart(argv) + StringOffset(argv, j))) {
      if j < i { assert PointerAt(cells, j * WORD_BYTES, To(TextStart(argv) + StringOffset(argv, j))); }
    }
  }

  /** What is written so far never reaches the last byte. */
  lemma RoomFor(argv: Argv, i: nat, w: seq<Utf8.Wide>, j: nat)
    requires i < |argv| && w == argv[i].Units() && j <= |w|
    ensures |TextBytes(argv[..i])| + |EncodeAll(w[..j])| + (if j < |w| then |Encode(w[j])| else 1) <= |TextBytes(argv)|
  {
    TextSplits(argv, i);
    if j < |w| {
      EncodeOneMore(w, j);
      assert w == w[..j + 1] + w[j + 1..];
      EncodeAllSplits(w[..j + 1], w[j + 1..]);
    } else {
      assert w[..j] == w;
    }
  }

  lemma TextSplits(argv: Argv, i: nat)
    requires i < |argv|
    ensures TextBytes(argv) == TextBytes(argv[..i]) + (EncodeAll(argv[i].Units()) + [0] + TextBytes(argv[i + 1..]))
  {
    if i == 0 {
      assert argv[..0] == [];
    } else {
      var rest := argv[1..];
      var p, x, y := EncodeAll(argv[0].Units()) + [0], TextBytes(rest[..i - 1]), TextBytes(rest[i - 1..]);
      assert rest[..i - 1] == argv[..i][1..] && argv[..i][0] == argv[0];
      assert rest[i..] == argv[i + 1..] && rest[i - 1] == argv[i];
      assert TextBytes(argv) == p + TextBytes(rest);
      assert TextBytes(argv[..i]) == p + x;
      TextSplits(rest, i - 1);
      hide TextBytes, EncodeAll;
      Associate(p, x, EncodeAll(argv[i].Units()) + [0] + TextBytes(argv[i + 1..]));
    }
  }

  lemma Associate(a: seq<Byte>, b: seq<Byte>, c: seq<Byte>)
    ensures a + (b + c) == (a + b) + c
  {
  }

  /** One unit, as the pass spells it out byte by byte. */
  method PutUnit(block: array<Cell>, start: nat, u: Utf8.Wide, ghost argv: Argv, ghost i: nat, ghost done: seq<Byte>)
    returns (s: nat)
    requires i <= |argv| && Filled(block[..], argv, i, done)
    requires start == TextStart(argv) + |done| && start + |Encode(u)| < block.Length
    modifies block
    ensures s == start + |Encode(u)| && Filled(block[..], argv, i, done + Encode(u))
  {
    hide Filled;
    s := start;
    if u < 0x80 {
      PutByte(block, s, u as Byte, argv, i, done);
      s := s + 1;
    } else if u < 0x800 {
      PutByte(block, s, ((u >> 6) & 0x1F) as Byte | 0xC0, argv, i, done);
      PutByte(block, s + 1, (u & 0x3F) as Byte | 0x80, argv, i, done + [Encode(u)[0]]);
      assert done + [Encode(u)[0]] + [Encode(u)[1]] == done + Encode(u);
      s := s + 2;
    } else {
      PutByte(block, s, ((u >> 12) & 0x0F) as Byte | 0xE0, argv, i, done);
      PutByte(block, s + 1, ((u >> 6) & 0x3F) as Byte | 0x80, argv, i, done + [Encode(u)[0]]);
      PutByte(block, s + 2, (u & 0x3F) as Byte | 0x80, argv, i, done + [Encode(u)[0]] + [Encode(u)[1]]);
      assert done + [Encode(u)[0]] + [Encode(u)[1]] + [Encode(u)[2]] == done + Encode(u);
      s := s + 3;
    }
  }

  /** One argument: its units, then NUL. */
  method PutString(block: array<Cell>, start: nat, argv: Argv, i: nat) returns (s: nat)
    requires i < |argv| && Filled(block[..], argv, i + 1, TextBytes(argv[..i]))
        && start == TextStart(argv) + StringOffset(argv, i)
    requires block.Length == TextStart(argv) + |TextBytes(argv)| + 1
    modifies block
    ensures Filled(block[..], argv, i + 1, TextBytes(argv[..i + 1])) && s == TextStart(argv) + StringOffset(argv, i + 1)
  {
    hide Filled, Encode, EncodeAll, TextBytes;
    ghost var done := TextBytes(argv[..i]);
    var w := argv[i].Units();
    s := start;
    var j := 0;
    EncodeAllEmpty();
    assert w[..0] == [] && done + [] == done;
    while j < |w|
      invariant j <= |w| && s == start + |EncodeAll(w[..j])|
      invariant Filled(block[..], argv, i + 1, done + EncodeAll(w[..j]))
    {
      RoomFor(argv, i, w, j);
      EncodeOneMore(w, j);
      s := PutUnit(block, s, w[j], argv, i + 1, done + EncodeAll(w[..j]));
      assert done + EncodeAll(w[..j]) + Encode(w[j]) == done + EncodeAll(w[..j + 1]);
      j := j + 1;
    }
    assert w[..j] == w;
    RoomFor(argv, i, w, |w|);
    PutByte(block, s, 0, argv, i + 1, done + EncodeAll(w));
    TextOneMore(argv, i);
    s := s + 1;
  }

  /** Both passes over the arguments. When the pool refuses the block, the program is told of no arguments. */
  method Pack(argv: Argv, available: bool) returns (packed: array?<Cell>, argc: nat)
    requires |argv| > 0
    ensures packed == null <==> !available
    ensures packed != null ==> fresh(packed) && Packed(packed[..], argv)
    ensures argc == if available then |argv| else 0
  {
    var size := PackedSize(argv);
    if !available {
      return null, 0;
    }
    var block := new Cell[size](_ => Unwritten);
    var s := |argv| * WORD_BYTES;
    StorePointer(block, s, Null);
    s := s + WORD_BYTES;
    assert argv[..0] == [] && TextBytes([]) == [];
    assert Filled(block[..], argv, 0, []);
    var i := 0;
    while i < |argv|
      invariant i <= |argv| && s == TextStart(argv) + StringOffset(argv, i) && fresh(block)
      invariant Filled(block[..], argv, i, TextBytes(argv[..i])) && block.Length == size
    {
      hide TextBytes;
      ghost var cells := block[..];
      StorePointer(block, i * WORD_BYTES, To(s));
      PointerStored(cells, block[..], argv, i, TextBytes(argv[..i]));
      s := PutString(block, s, argv, i);
      i := i + 1;
    }
    assert argv[..i] == argv;
    return block, |argv|;
  }

  // ----- what the program reads

  /** Reading string `i` of a packed block through its pointer, in a buffer with room, gives argument `i`. */
  lemma ArgumentComesBack(cells: seq<Cell>, argv: Argv, i: nat, n: nat)
    requires Packed(cells, argv) && i < |argv| && ZeroFree(argv[i].Units()) && |argv[i].Units()| < n < SIZE_LIMIT
    ensures PointerAt(cells, i * WORD_BYTES, To(TextStart(argv) + StringOffset(argv, i)))
    ensures BytesAt(cells, TextStart(argv), TextBytes(argv))
    ensures Decode(TextBytes(argv), StringOffset(argv, i), n, 0) == Decoded(argv[i].Units())
  {
    hide EncodeAll, Decode, TextBytes;
    var s, at, e := TextBytes(argv), StringOffset(argv, i), EncodeAll(argv[i].Units());
    TextSplits(argv, i);
    assert s[at..at + |e|] == e && s[at + |e|] == 0;
    StringRoundTrip(argv[i].Units(), s, at, n, 0);
  }

  /** The strings follow one another without overlap, after the table and before the end of the block. */
  lemma StringsAreApart(argv: Argv, i: nat)
    requires i < |argv|
    ensures StringOffset(argv, i + 1) == StringOffset(argv, i) + |EncodeAll(argv[i].Units())| + 1 <= |TextBytes(argv)|
  {
    TextOneMore(argv, i);
    TextSplits(argv, i);
  }
}
