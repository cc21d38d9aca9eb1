/** The initial ramdisk: a tar archive in memory, walked header by header (POSIX pax, "ustar Interchange
    Format"). */
module Initrd {
  import opened Arith
  import opened Bytes

  const BLOCK: nat := 512
  const SIZE_FIELD: nat := 124   // filename[100], mode[8], uid[8] and gid[8] come before it
  const SIZE_DIGITS: nat := 11

  // ----- the size field

  /** A `char` less '0'; characters are signed. */
  function Digit(b: Byte): int { (if b < 128 then b else b - 256) - 48 }

  function OctalValue(field: seq<Byte>): int {
    if field == [] then 0 else OctalValue(field[..|field| - 1]) * 8 + Digit(field[|field| - 1])
  }

  /** Eleven digits as the number they spell in base 8, written out. */
  lemma OctalByNumbers(f: seq<Byte>)
    requires |f| == 11
    ensures OctalValue(f) ==
      Digit(f[0]) * 0x4000_0000 + Digit(f[1]) * 0x800_0000 + Digit(f[2]) * 0x100_0000 + Digit(f[3]) * 0x20_0000
      + Digit(f[4]) * 0x4_0000 + Digit(f[5]) * 0x8000 + Digit(f[6]) * 0x1000 + Digit(f[7]) * 0x200
      + Digit(f[8]) * 64 + Digit(f[9]) * 8 + Digit(f[10])
  {
    hide Digit, OctalValue;
    FourDigits(f);
    FourDigits(f[..7]);
    ThreeDigits(f[..3]);
    assert f[..7][..3] == f[..3];
  }

  lemma ThreeDigits(f: seq<Byte>)
    requires |f| == 3
    ensures OctalValue(f) == Digit(f[0]) * 64 + Digit(f[1]) * 8 + Digit(f[2])
  {
    hide Digit;
    assert f[..2][..1] == f[..1] && f[..1][..0] == [];
    assert OctalValue(f[..1]) == Digit(f[0]) && OctalValue(f[..2]) == OctalValue(f[..1]) * 8 + Digit(f[1]);
  }

  /** The last four digits taken off. */
  lemma FourDigits(f: seq<Byte>)
    requires |f| >= 4
    ensures OctalValue(f) ==
      OctalValue(f[..|f| - 4]) * 0x1000 + Digit(f[|f| - 4]) * 0x200 + Digit(f[|f| - 3]) * 64
      + Digit(f[|f| - 2]) * 8 + Digit(f[|f| - 1])
  {
    hide Digit;
    var n := |f|;
    assert f[..n - 1][..n - 2] == f[..n - 2] && f[..n - 2][..n - 3] == f[..n - 3] && f[..n - 3][..n - 4] == f[..n - 4];
  }

  lemma WrapMul(x: int, y: int)
    ensures Wrap(Wrap(x) * y) == Wrap(x * y)
  {
    var q := x / WORD_LIMIT;
    assert x == q * WORD_LIMIT + Wrap(x);
    assert x * y == Wrap(x) * y + (q * y) * WORD_LIMIT;
    WrapShift(Wrap(x) * y, q * y);
  }

  /** One term of the sum, taken with every variable cut to 32 bits. */
  lemma WrapTerm(s: int, d: int, p: int)
    ensures Wrap(Wrap(s) + d * Wrap(p)) == Wrap(s + d * p)
  {
    hide Wrap;
    WrapAdd(s, d * Wrap(p));
    WrapMul(p, d);
    WrapAdd(Wrap(p) * d, s);
    WrapAdd(p * d, s);
    assert d * Wrap(p) == Wrap(p) * d && d * p == p * d;
  }

  lemma NextTerm(rest: int, d: int, p: int, s: int)
    ensures (rest * 8 + d) * p + s == rest * (p * 8) + (s + d * p)
  {
  }

  /** Reads the digits from the last to the first; the sum is kept in 32 bits. */
  method GetSize(field: seq<Byte>) returns (size: u32)
    requires |field| >= SIZE_DIGITS
    ensures size == Wrap(OctalValue(field[..SIZE_DIGITS]))
  {
    hide Wrap;
    size := 0;
    var j: nat, count: u32 := SIZE_DIGITS, 1;
    ghost var s, p := 0, 1;
    WrapSame(0);
    WrapSame(1);
    while j > 0
      invariant j <= SIZE_DIGITS && size == Wrap(s) && count == Wrap(p)
      invariant OctalValue(field[..SIZE_DIGITS]) == OctalValue(field[..j]) * p + s
    {
      var d := Digit(field[j - 1]);
      assert field[..j][..j - 1] == field[..j - 1];
      NextTerm(OctalValue(field[..j - 1]), d, p, s);
      WrapTerm(s, d, p);
      WrapMul(p, 8);
      size := Wrap(size + d * count);
      count := Wrap(count * 8);
      s, p := s + d * p, p * 8;
      j := j - 1;
    }
  }

  /** Eleven octal digits say up to 2^33 - 1, and the sum is right exactly for sizes below 2^32. */
  lemma SizeIsRightExactly(n: nat)
    requires n < Power8(SIZE_DIGITS)
    ensures Wrap(OctalValue(Octal(n, SIZE_DIGITS))) == n <==> n < WORD_LIMIT
  {
    hide *;
    OctalReadsBack(n, SIZE_DIGITS);
    WrapIsExactly(n);
  }

  lemma WrapIsExactly(n: nat)
    ensures Wrap(n) == n <==> n < WORD_LIMIT
  {
  }

  // ----- what an archive is

  /** A header block and as many whole blocks as hold `n` bytes. */
  function Span(n: nat): nat { BLOCK * (1 + DivideUp(n, BLOCK)) }

  /** It is the least multiple of 512 that holds the header and the data. */
  lemma SpanIsLeast(n: nat)
    ensures Span(n) % 512 == 0 && Span(n) >= 512 + n
    ensures forall k: nat :: 512 * k >= 512 + n ==> Span(n) <= 512 * k
  {
    MultipleMod(1 + DivideUp(n, BLOCK), BLOCK);
    DivideUpIsLeast(n, BLOCK);
    forall k: nat | 512 * k >= 512 + n ensures Span(n) <= 512 * k {
      assert (k - 1) * BLOCK >= n;
    }
  }

  /** Where the header of member `i` lies from the first. */
  function Start(contents: seq<seq<Byte>>, i: nat): nat
    requires i <= |contents|
  {
    if i == 0 then 0 else Start(contents, i - 1) + Span(|contents[i - 1]|)
  }

  ghost predicate MemberAt(mem: seq<Byte>, at: nat, data: seq<Byte>) {
    && at + BLOCK + |data| <= |mem|
    && mem[at] != 0
    && OctalValue(mem[at + SIZE_FIELD..at + SIZE_FIELD + SIZE_DIGITS]) == |data|
    && mem[at + BLOCK..at + BLOCK + |data|] == data
  }

  /** At `base` lie a header and the data of every member, in order, and then a block that names no file. */
  ghost predicate ArchiveAt(mem: seq<Byte>, base: nat, contents: seq<seq<Byte>>) {
    && (forall i :: 0 <= i < |contents| ==> MemberAt(mem, base + Start(contents, i), contents[i]))
    && base + Start(contents, |contents|) + BLOCK <= |mem|
    && mem[base + Start(contents, |contents|)] == 0
  }

  // ----- such archives are what a tar writer lays out

  /** The fields of a header up to the size; `others` are the ones behind it. */
  datatype TarFile = TarFile(filename: seq<Byte>, mode: seq<Byte>, uid: seq<Byte>, gid: seq<Byte>, size: seq<Byte>,
                             others: seq<Byte>, data: seq<Byte>)
  {
    ghost predicate Valid() {
      && |filename| == 100 && |mode| == 8 && |uid| == 8 && |gid| == 8 && |size| == 12 && |others| == 376
      && filename[0] != 0
      && |data| < Power8(SIZE_DIGITS) && size[..11] == Octal(|data|, 11)
    }

    ghost function Header(): seq<Byte> { filename + mode + uid + gid + size + others }
  }

  /** The header fills a block, and the digits of the size are where they are read. */
  lemma HeaderIsABlock(f: TarFile)
    requires f.Valid()
    ensures |f.Header()| == BLOCK && f.Header()[0] != 0
    ensures f.Header()[SIZE_FIELD..SIZE_FIELD + SIZE_DIGITS] == Octal(|f.data|, SIZE_DIGITS)
  {
    hide Octal, Power8;
    assert f.Header()[SIZE_FIELD..SIZE_FIELD + SIZE_DIGITS] == f.size[..11];
  }

  function Power8(k: nat): nat { if k == 0 then 1 else 8 * Power8(k - 1) }

  function Octal(n: nat, k: nat): (digits: seq<Byte>)
    ensures |digits| == k
  {
    if k == 0 then [] else Octal(n / 8, k - 1) + [48 + n % 8]
  }

  lemma {:induction false} OctalReadsBack(n: nat, k: nat)
    requires n < Power8(k)
    ensures OctalValue(Octal(n, k)) == n
  {
    if k > 0 {
      OctalReadsBack(n / 8, k - 1);
      assert Octal(n, k)[..k - 1] == Octal(n / 8, k - 1);
    }
  }

  ghost function Laid(f: TarFile): seq<Byte> { f.Header() + f.data + Zeros(Span(|f.data|) - BLOCK - |f.data|) }

  ghost function Packed(files: seq<TarFile>): seq<Byte> {
    if files == [] then Zeros(BLOCK) else Laid(files[0]) + Packed(files[1..])
  }

  function Contents(files: seq<TarFile>): (c: seq<seq<Byte>>)
    ensures |c| == |files| && forall i :: 0 <= i < |files| ==> c[i] == files[i].data
  {
    if files == [] then [] else [files[0].data] + Contents(files[1..])
  }

  lemma {:induction false} StartSkipsFirst(contents: seq<seq<Byte>>, i: nat)
    requires i < |contents|
    ensures Start(contents, i + 1) == Span(|contents[0]|) + Start(contents[1..], i)
  {
    if i > 0 {
      StartSkipsFirst(contents, i - 1);
    }
  }

  lemma SpanHolds(n: nat)
    ensures Span(n) >= BLOCK + n
  {
  }

  lemma LaidIsAMember(before: seq<Byte>, f: TarFile, after: seq<Byte>)
    requires f.Valid()
    ensures MemberAt(before + Laid(f) + after, |before|, f.data)
  {
    SpanHolds(|f.data|);
    HeaderIsABlock(f);
    hide Power8, Octal, TarFile.Header;
    var mem, at := before + Laid(f) + after, |before|;
    assert mem[at..at + BLOCK] == f.Header();
    assert mem[at + SIZE_FIELD..at + SIZE_FIELD + SIZE_DIGITS] == f.Header()[SIZE_FIELD..SIZE_FIELD + SIZE_DIGITS];
    assert mem[at + BLOCK..at + BLOCK + |f.data|] == f.data;
    OctalReadsBack(|f.data|, SIZE_DIGITS);
  }

  lemma LaidLength(f: TarFile)
    requires f.Valid()
    ensures |Laid(f)| == Span(|f.data|)
  {
    SpanHolds(|f.data|);
    HeaderIsABlock(f);
  }

  lemma {:induction false} PackedIsAnArchive(before: seq<Byte>, files: seq<TarFile>, after: seq<Byte>)
    requires forall f :: f in files ==> f.Valid()
    ensures ArchiveAt(before + Packed(files) + after, |before|, Contents(files))
    decreases |files|
  {
    hide Power8, Span, Octal, OctalValue, Laid, TarFile.Valid, MemberAt, Zeros, ArchiveAt, Packed;
    var mem := before + Packed(files) + after;
    if files == [] {
      EmptyArchive(before, after);
    } else {
      var f := files[0];
      LaidIsAMember(before, f, Packed(files[1..]) + after);
      LaidLength(f);
      PackedIsAnArchive(before + Laid(f), files[1..], after);
      PackedFirst(before, files, after);
      assert Contents(files)[1..] == Contents(files[1..]);
      FirstMember(mem, |before|, Contents(files));
    }
  }

  lemma EmptyArchive(before: seq<Byte>, after: seq<Byte>)
    ensures ArchiveAt(before + Packed([]) + after, |before|, [])
  {
    var mem := before + Packed([]) + after;
    assert mem[|before|] == Packed([])[0];
  }

  lemma PackedFirst(before: seq<Byte>, files: seq<TarFile>, after: seq<Byte>)
    requires files != []
    ensures before + Packed(files) + after == before + Laid(files[0]) + (Packed(files[1..]) + after)
    ensures before + Packed(files) + after == (before + Laid(files[0])) + Packed(files[1..]) + after
  {
    hide Laid;
    assert Packed(files) == Laid(files[0]) + Packed(files[1..]);
  }

  lemma FirstMember(mem: seq<Byte>, at: nat, contents: seq<seq<Byte>>)
    requires contents != [] && MemberAt(mem, at, contents[0])
    requires ArchiveAt(mem, at + Span(|contents[0]|), contents[1..])
    ensures ArchiveAt(mem, at, contents)
  {
    hide Span, MemberAt, Start;
    StartAtZero(contents);
    forall i | 0 <= i < |contents| ensures MemberAt(mem, at + Start(contents, i), contents[i]) {
      if i > 0 {
        assert MemberAt(mem, at + Span(|contents[0]|) + Start(contents[1..], i - 1), contents[1..][i - 1]);
        StartSkipsFirst(contents, i - 1);
        assert contents[1..][i - 1] == contents[i];
      }
    }
    StartSkipsFirst(contents, |contents| - 1);
  }

  // ----- the walk

  /** The 32-bit address past a header and its data. */
  method NextHeader(address: u32, size: u32) returns (next: u32)
    requires address + Span(size) < WORD_LIMIT
    ensures next == address + Span(size)
  {
    next := Wrap(address + (size / BLOCK + 1) * BLOCK);
    if size % BLOCK != 0 {
      next := Wrap(next + BLOCK);
    }
  }

  lemma AddressesFit(mem: seq<Byte>, base: nat, contents: seq<seq<Byte>>, i: nat)
    requires |mem| <= WORD_LIMIT && ArchiveAt(mem, base, contents) && i <= |contents|
    ensures base + Start(contents, i) + BLOCK <= |mem|
    ensures BLOCK * i <= Start(contents, i) && Start(contents, 0) == 0
    ensures mem[base + Start(contents, i)] == 0 <==> i == |contents|
  {
    hide Span, OctalValue, Start;
    if i < |contents| {
      assert MemberAt(mem, base + Start(contents, i), contents[i]);
    }
    StartGrows(contents, i);
    StartAtZero(contents);
  }

  lemma StartAtZero(contents: seq<seq<Byte>>)
    ensures Start(contents, 0) == 0
  {
  }

  lemma {:induction false} StartGrows(contents: seq<seq<Byte>>, i: nat)
    requires i <= |contents|
    ensures BLOCK * i <= Start(contents, i)
  {
    if i > 0 {
      StartGrows(contents, i - 1);
      SpanHolds(|contents[i - 1]|);
    }
  }

  lemma SizeOfMember(mem: seq<Byte>, base: nat, contents: seq<seq<Byte>>, i: nat)
    requires ArchiveAt(mem, base, contents) && i < |contents|
    ensures var at := base + Start(contents, i);
      && at + BLOCK + |contents[i]| <= |mem|
      && OctalValue(mem[at + SIZE_FIELD..at + SIZE_FIELD + SIZE_DIGITS]) == |contents[i]|
  {
    hide Span, OctalValue, Start;
    assert MemberAt(mem, base + Start(contents, i), contents[i]);
  }

  /** One step of either walk: read a header's size and go past its data. */
  method Step(mem: seq<Byte>, address: u32, ghost base: nat, ghost contents: seq<seq<Byte>>, ghost i: nat)
    returns (next: u32)
    requires |mem| <= WORD_LIMIT && ArchiveAt(mem, base, contents) && i < |contents|
    requires address == base + Start(contents, i)
    ensures next == base + Start(contents, i + 1)
  {
    hide Span, Wrap, OctalValue, ArchiveAt;
    AddressesFit(mem, base, contents, i);
    AddressesFit(mem, base, contents, i + 1);
    SizeOfMember(mem, base, contents, i);
    var field := mem[address + SIZE_FIELD..address + SIZE_FIELD + SIZE_DIGITS + 1];
    assert field[..SIZE_DIGITS] == mem[address + SIZE_FIELD..address + SIZE_FIELD + SIZE_DIGITS];
    var size := GetSize(field);
    WrapSame(|contents[i]|);
    next := NextHeader(address, size);
  }

  method NumberFiles(mem: seq<Byte>, start: u32, ghost contents: seq<seq<Byte>>) returns (i: nat)
    requires |mem| <= WORD_LIMIT && ArchiveAt(mem, start, contents)
    ensures i == |contents|
  {
    hide ArchiveAt;
    i := 0;
    var address := start;
    AddressesFit(mem, start, contents, 0);
    while mem[address] != 0
      invariant i <= |contents| && address == start + Start(contents, i) && address < |mem|
      invariant mem[address] == 0 <==> i == |contents|
      decreases |contents| - i
    {
      address := Step(mem, address, start, contents, i);
      i := i + 1;
      AddressesFit(mem, start, contents, i);
    }
  }

  /** The growing table of header addresses. */
  class HeaderList {
    var headers: array<u32>
    var used: nat
    var size: nat

    ghost predicate Valid()
      reads this, headers
    {
      headers.Length == size && used <= size && 1 <= size
    }

    ghost function Headers(): seq<u32>
      requires Valid()
      reads this, headers
    {
      headers[..used]
    }

    constructor (initialSize: nat)
      requires initialSize >= 1
      ensures Valid() && fresh(headers) && Headers() == [] && size == initialSize
    {
      headers := new u32[initialSize];
      used, size := 0, initialSize;
    }

    /** A full table doubles; 32-bit sizes hold every table an archive in memory needs. False reports the
        kernel's abort, when the heap has no room for the larger table. */
    method Add(header: u32, available: bool) returns (ok: bool)
      requires Valid() && size * 8 < WORD_LIMIT
      modifies this, headers
      ensures Valid() && (headers == old(headers) || fresh(headers))
      ensures ok <==> old(used) < old(size) || available
      ensures Headers() == if ok then old(Headers()) + [header] else old(Headers())
      ensures size == if ok && old(used) == old(size) then 2 * old(size) else old(size)
    {
      hide Wrap;
      WrapSame(size * 2);
      WrapSame(size * 8);
      if used == size {
        if !available {
          return false;
        }
        ghost var s := size;
        size := Wrap(size * 2);
        assert size == 2 * s;
        var bytes := Wrap(size * 4);
        assert bytes == 4 * (2 * s);
        headers := Grown(headers, bytes);
      }
      assert headers[..used] == old(headers[..used]) && used < headers.Length == size;
      headers[used] := header;
      used := used + 1;
      ok := true;
    }
  }

  /** `krealloc`: the old entries move to a larger table. */
  method Grown(entries: array<u32>, bytes: u32) returns (table: array<u32>)
    requires entries.Length * 4 <= bytes
    ensures fresh(table) && table.Length == bytes / 4 && table[..entries.Length] == entries[..]
  {
    table := new u32[bytes / 4];
    for i := 0 to entries.Length
      invariant table[..i] == entries[..i]
    {
      table[i] := entries[i];
    }
  }

  /** The addresses of the first `i` headers. */
  ghost predicate Collected(headers: seq<u32>, start: nat, contents: seq<seq<Byte>>, i: nat)
    requires i <= |contents|
  {
    |headers| == i && forall k :: 0 <= k < i ==> headers[k] == start + Start(contents, k)
  }

  lemma CollectedNone(start: nat, contents: seq<seq<Byte>>)
    ensures Collected([], start, contents, 0)
  {
  }

  lemma CollectedOneMore(headers: seq<u32>, start: nat, contents: seq<seq<Byte>>, i: nat, address: u32)
    requires i < |contents| && Collected(headers, start, contents, i) && address == start + Start(contents, i)
    ensures Collected(headers + [address], start, contents, i + 1)
  {
    hide Start;
  }

  lemma CollectedMeans(headers: seq<u32>, start: nat, contents: seq<seq<Byte>>, i: nat)
    requires i <= |contents| && Collected(headers, start, contents, i)
    ensures |headers| == i && forall k :: 0 <= k < i ==> headers[k] == start + Start(contents, k)
  {
    hide Start;
  }

  /** The walk collects the header address of every member, in order; `grants` says what sizes of table the heap
      has room for. It stops early, with the kernel's abort, only when a larger table is refused. */
  method GenerateList(mem: seq<Byte>, start: u32, grants: nat -> bool, ghost contents: seq<seq<Byte>>)
    returns (list: HeaderList, ok: bool)
    requires |mem| <= WORD_LIMIT && ArchiveAt(mem, start, contents)
    ensures fresh(list) && fresh(list.headers) && list.Valid()
    ensures if ok then |list.Headers()| == |contents|
      else |list.Headers()| < |contents| && |list.Headers()| == list.size && !grants(list.size * 8)
    ensures forall i :: 0 <= i < |list.Headers()| ==> list.Headers()[i] == start + Start(contents, i)
  {
    hide ArchiveAt, Start, Span, OctalValue, MemberAt, Wrap, Collected;
    list := new HeaderList(1);
    ok := true;
    var address := start;
    ghost var i := 0;
    AddressesFit(mem, start, contents, 0);
    CollectedNone(start, contents);
    while mem[address] != 0
      invariant fresh(list) && fresh(list.headers) && list.Valid()
      invariant i == list.used <= |contents| && address == start + Start(contents, i) && address + BLOCK <= |mem|
      invariant BLOCK * i <= address && (list.size == 1 || list.size <= 2 * list.used)
      invariant ok && (mem[address] == 0 <==> i == |contents|)
      invariant Collected(list.Headers(), start, contents, i)
      decreases |contents| - i
    {
      CollectedMeans(list.Headers(), start, contents, i);
      CollectedOneMore(list.Headers(), start, contents, i, address);
      ok := list.Add(address, grants(list.size * 8));
      if !ok {
        return;
      }
      address := Step(mem, address, start, contents, i);
      i := i + 1;
      AddressesFit(mem, start, contents, i);
    }
    CollectedMeans(list.Headers(), start, contents, i);
  }

  /** Copies from a member's data and puts a NUL behind the copy; nothing checks the range. */
  method Read(mem: seq<Byte>, list: HeaderList, inode: nat, offset: nat, size: nat, buffer: array<Byte>)
    returns (n: nat)
    requires list.Valid() && inode < list.used && size < buffer.Length
    requires list.Headers()[inode] + BLOCK + offset + size <= |mem|
    modifies buffer
    ensures n == size && buffer[size] == 0
    ensures var from := old(list.Headers()[inode]) + BLOCK + offset; buffer[..size] == mem[from..from + size]
    ensures forall k :: size < k < buffer.Length ==> buffer[k] == old(buffer[k])
  {
    var content := list.headers[inode] + BLOCK + offset;
    for i := 0 to size
      invariant buffer[..i] == mem[content..content + i]
      invariant forall k :: i <= k < buffer.Length ==> buffer[k] == old(buffer[k])
    {
      buffer[i] := mem[content + i];
    }
    buffer[size] := 0;
    n := size;
  }

  /** A read inside a member gives exactly that part of its data. */
  lemma ReadStaysInside(mem: seq<Byte>, base: nat, contents: seq<seq<Byte>>, i: nat, offset: nat, size: nat)
    requires ArchiveAt(mem, base, contents) && i < |contents| && offset + size <= |contents[i]|
    ensures var from := base + Start(contents, i) + BLOCK + offset;
      from + size <= |mem| && mem[from..from + size] == contents[i][offset..offset + size]
  {
    hide Span, OctalValue, Start;
    var at := base + Start(contents, i);
    assert MemberAt(mem, at, contents[i]);
    SliceOfSlice(mem, at + BLOCK, |contents[i]|, offset, size);
  }

  lemma SliceOfSlice(s: seq<Byte>, a: nat, n: nat, offset: nat, size: nat)
    requires a + n <= |s| && offset + size <= n
    ensures s[a..a + n][offset..offset + size] == s[a + offset..a + offset + size]
  {
    var part := s[a..a + n];
    assert forall k :: offset <= k < offset + size ==> part[k] == s[a + k];
    var left, right := part[offset..offset + size], s[a + offset..a + offset + size];
    forall k | 0 <= k < size ensures left[k] == right[k] {
      assert left[k] == part[offset + k];
    }
  }
}
