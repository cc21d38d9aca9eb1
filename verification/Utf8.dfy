/** Conversion between 16-bit wide strings and UTF-8 (section 3 of RFC 3629), into caller-sized buffers. */
module Utf8 {

  type Byte = bv8
  type Wide = bv16

  const SIZE_LIMIT: nat := 0x1_0000_0000_0000_0000  // size_t is 64 bits wide

  // ----- one unit

  /** The bytes of one unit. */
  function Encode(u: Wide): (bytes: seq<Byte>)
    ensures 1 <= |bytes| <= 3
  {
    if u < 0x80 then [u as Byte]
    else if u < 0x800 then [((u >> 6) & 0x1F) as Byte | 0xC0, (u & 0x3F) as Byte | 0x80]
    else [((u >> 12) & 0x0F) as Byte | 0xE0, ((u >> 6) & 0x3F) as Byte | 0x80, (u & 0x3F) as Byte | 0x80]
  }

  /** The length `mbtowc` reads off a lead byte when `room` output units remain; 0 reports an error. */
  function LeadLength(lead: Byte, room: nat): nat {
    if lead & 128 == 0 then 1
    else if lead & 32 == 0 && room > 0 then 2
    else if lead & 16 == 0 && room > 1 then 3
    else if lead & 8 == 0 && room > 2 then 4
    else 0
  }

  /** The unit spelled by the `length` bytes at `at`; the fourth form keeps only its low 16 bits. */
  function Unit(s: seq<Byte>, at: nat, length: nat): Wide
    requires 1 <= length <= 4 && at + length <= |s|
  {
    if length == 1 then s[at] as Wide
    else if length == 2 then ((s[at] & 0x1F) as Wide << 6) | (s[at + 1] & 0x3F) as Wide
    else if length == 3 then
      ((s[at] & 0xF) as Wide << 12) | ((s[at + 1] & 0x3F) as Wide << 6) | (s[at + 2] & 0x3F) as Wide
    else
      ((s[at + 1] & 0x3F) as Wide << 12) | ((s[at + 2] & 0x3F) as Wide << 6) | (s[at + 3] & 0x3F) as Wide
  }

  lemma OneByte(u: Wide)
    requires u < 0x80
    ensures (u as Byte) as Wide == u && (u as Byte) & 128 == 0 && (u != 0 ==> u as Byte != 0)
  {
  }

  lemma TwoBytes(u: Wide)
    requires 0x80 <= u < 0x800
    ensures var a, b := ((u >> 6) & 0x1F) as Byte | 0xC0, (u & 0x3F) as Byte | 0x80;
      && a & 128 != 0 && a & 32 == 0 && a != 0 && b != 0
      && ((a & 0x1F) as Wide << 6) | (b & 0x3F) as Wide == u
  {
  }

  lemma ThreeBytes(u: Wide)
    requires 0x800 <= u
    ensures var a, b, c := ((u >> 12) & 0x0F) as Byte | 0xE0, ((u >> 6) & 0x3F) as Byte | 0x80,
        (u & 0x3F) as Byte | 0x80;
      && a & 128 != 0 && a & 32 != 0 && a & 16 == 0 && a != 0 && b != 0 && c != 0
      && ((a & 0xF) as Wide << 12) | ((b & 0x3F) as Wide << 6) | (c & 0x3F) as Wide == u
  {
  }

  /** The bytes of a unit as numbers: 0xxxxxxx, 110xxxxx 10xxxxxx, or 1110xxxx 10xxxxxx 10xxxxxx. */
  lemma EncodeByNumbers(u: Wide)
    ensures var e := Encode(u);
      if u < 0x80 then |e| == 1 && e[0] as Wide == u
      else if u < 0x800 then |e| == 2 && e[0] as Wide == 0xC0 + u / 64 && e[1] as Wide == 0x80 + u % 64
      else
        && |e| == 3 && e[0] as Wide == 0xE0 + u / 4096
        && e[1] as Wide == 0x80 + u / 64 % 64 && e[2] as Wide == 0x80 + u % 64
  {
    if u < 0x80 {
      OneByteIs(u);
    } else if u < 0x800 {
      TwoBytesAre(u);
    } else {
      ThreeBytesAre(u);
    }
  }

  lemma OneByteIs(u: Wide)
    requires u < 0x80
    ensures (u as Byte) as Wide == u
  {
  }

  lemma TwoBytesAre(u: Wide)
    requires 0x80 <= u < 0x800
    ensures (((u >> 6) & 0x1F) as Byte | 0xC0) as Wide == 0xC0 + u / 64
    ensures ((u & 0x3F) as Byte | 0x80) as Wide == 0x80 + u % 64
  {
  }

  lemma ThreeBytesAre(u: Wide)
    ensures (((u >> 12) & 0x0F) as Byte | 0xE0) as Wide == 0xE0 + u / 4096
    ensures (((u >> 6) & 0x3F) as Byte | 0x80) as Wide == 0x80 + u / 64 % 64
    ensures ((u & 0x3F) as Byte | 0x80) as Wide == 0x80 + u % 64
  {
  }

  /** The number spelled by one, two, three or four bytes, cut to 16 bits. */
  lemma UnitByNumbers(s: seq<Byte>, at: nat, length: nat)
    requires 1 <= length <= 4 && at + length <= |s|
    ensures var u := Unit(s, at, length) as bv32;
      && (length == 1 ==> u == s[at] as bv32)
      && (length == 2 ==> u == (s[at] as bv32) % 32 * 64 + (s[at + 1] as bv32) % 64)
      && (length == 3 ==>
            u == (s[at] as bv32) % 16 * 4096 + (s[at + 1] as bv32) % 64 * 64 + (s[at + 2] as bv32) % 64)
      && (length == 4 ==>
            u == ((s[at] as bv32) % 8 * 262144 + (s[at + 1] as bv32) % 64 * 4096
                  + (s[at + 2] as bv32) % 64 * 64 + (s[at + 3] as bv32) % 64) % 65536)
  {
    hide *;
    if length == 1 {
      UnitOfOne(s, at);
    } else if length == 2 {
      UnitOfTwo(s, at);
    } else if length == 3 {
      UnitOfThree(s, at);
    } else {
      UnitOfFour(s, at);
    }
  }

  lemma UnitOfOne(s: seq<Byte>, at: nat)
    requires at + 1 <= |s|
    ensures Unit(s, at, 1) as bv32 == s[at] as bv32
  {
  }

  lemma UnitOfTwo(s: seq<Byte>, at: nat)
    requires at + 2 <= |s|
    ensures Unit(s, at, 2) as bv32 == (s[at] as bv32) % 32 * 64 + (s[at + 1] as bv32) % 64
  {
    TwoBytesSpell(s[at], s[at + 1]);
  }

  lemma UnitOfThree(s: seq<Byte>, at: nat)
    requires at + 3 <= |s|
    ensures Unit(s, at, 3) as bv32
            == (s[at] as bv32) % 16 * 4096 + (s[at + 1] as bv32) % 64 * 64 + (s[at + 2] as bv32) % 64
  {
    ThreeBytesSpell(s[at], s[at + 1], s[at + 2]);
  }

  lemma UnitOfFour(s: seq<Byte>, at: nat)
    requires at + 4 <= |s|
    ensures Unit(s, at, 4) as bv32
            == ((s[at] as bv32) % 8 * 262144 + (s[at + 1] as bv32) % 64 * 4096
                + (s[at + 2] as bv32) % 64 * 64 + (s[at + 3] as bv32) % 64) % 65536
  {
    FourBytesSpell(s[at], s[at + 1], s[at + 2], s[at + 3]);
  }

  lemma TwoBytesSpell(a: Byte, b: Byte)
    ensures (((a & 0x1F) as Wide << 6) | (b & 0x3F) as Wide) as bv32 == (a as bv32) % 32 * 64 + (b as bv32) % 64
  {
  }

  lemma ThreeBytesSpell(a: Byte, b: Byte, c: Byte)
    ensures (((a & 0xF) as Wide << 12) | ((b & 0x3F) as Wide << 6) | (c & 0x3F) as Wide) as bv32
            == (a as bv32) % 16 * 4096 + (b as bv32) % 64 * 64 + (c as bv32) % 64
  {
  }

  lemma FourBytesSpell(a: Byte, b: Byte, c: Byte, d: Byte)
    ensures (((b & 0x3F) as Wide << 12) | ((c & 0x3F) as Wide << 6) | (d & 0x3F) as Wide) as bv32
            == ((a as bv32) % 8 * 262144 + (b as bv32) % 64 * 4096 + (c as bv32) % 64 * 64 + (d as bv32) % 64) % 65536
  {
  }

  /** The four kinds of lead byte, told apart by their low six bits, so that a following byte passes for one too. */
  lemma LeadForms(lead: Byte, room: nat)
    ensures var x := lead % 64;
      var k := if lead < 0x80 then 1 else if x < 32 then 2 else if x < 48 then 3 else if x < 56 then 4 else 0;
      LeadLength(lead, room) == (if k <= 1 || room >= k - 1 then k else 0) && Skip(lead) == (if k == 0 then 1 else k)
  {
    LeadBits(lead);
  }

  lemma LeadBits(lead: Byte)
    ensures lead & 128 == 0 <==> lead < 0x80
    ensures lead & 32 == 0 <==> lead % 64 < 32
    ensures lead % 64 >= 32 ==> (lead & 16 == 0 <==> lead % 64 < 48)
    ensures lead % 64 >= 48 ==> (lead & 8 == 0 <==> lead % 64 < 56)
    ensures lead % 64 < 32 && lead & 16 != 0 ==> lead % 64 >= 16
  {
  }

  /** A following byte, and a well-formed character of up to three bytes (section 4 of RFC 3629). */
  predicate Tail(b: Byte) { 0x80 <= b <= 0xBF }

  predicate WellFormed(e: seq<Byte>) {
    || (|e| == 1 && e[0] <= 0x7F)
    || (|e| == 2 && 0xC2 <= e[0] <= 0xDF && Tail(e[1]))
    || (|e| == 3 && e[0] == 0xE0 && 0xA0 <= e[1] <= 0xBF && Tail(e[2]))
    || (|e| == 3 && (0xE1 <= e[0] <= 0xEC || 0xEE <= e[0] <= 0xEF) && Tail(e[1]) && Tail(e[2]))
    || (|e| == 3 && e[0] == 0xED && 0x80 <= e[1] <= 0x9F && Tail(e[2]))
  }

  /** What is written for a unit is well-formed UTF-8 exactly unless the unit is half of a surrogate pair. */
  lemma WellFormedExactly(u: Wide)
    ensures WellFormed(Encode(u)) <==> !(0xD800 <= u <= 0xDFFF)
  {
    if u < 0x80 {
      OneByteForm(u);
    } else if u < 0x800 {
      TwoByteForm(u);
    } else {
      ThreeByteForm(u);
    }
  }

  lemma OneByteForm(u: Wide)
    requires u < 0x80
    ensures u as Byte <= 0x7F
  {
  }

  lemma TwoByteForm(u: Wide)
    requires 0x80 <= u < 0x800
    ensures var a, b := ((u >> 6) & 0x1F) as Byte | 0xC0, (u & 0x3F) as Byte | 0x80;
      0xC2 <= a <= 0xDF && 0x80 <= b <= 0xBF
  {
  }

  lemma ThreeByteForm(u: Wide)
    requires 0x800 <= u
    ensures var a, b := ((u >> 12) & 0x0F) as Byte | 0xE0, ((u >> 6) & 0x3F) as Byte | 0x80;
      var c := (u & 0x3F) as Byte | 0x80;
      && 0x80 <= c <= 0xBF && 0x80 <= b <= 0xBF && 0xE0 <= a <= 0xEF && (a == 0xE0 ==> 0xA0 <= b)
      && (a == 0xED && b >= 0xA0 <==> 0xD800 <= u <= 0xDFFF)
  {
  }

  lemma SliceAt(s: seq<Byte>, at: nat, e: seq<Byte>)
    requires at + |e| <= |s| && s[at..at + |e|] == e
    ensures |e| > 0 ==> s[at] == e[0]
    ensures |e| > 1 ==> s[at + 1] == e[1]
    ensures |e| > 2 ==> s[at + 2] == e[2]
  {
  }

  /** The bytes of a nonzero unit hold no NUL, and their lead byte tells their number. */
  lemma UnitBytes(u: Wide, room: nat)
    requires u != 0 && room > 1
    ensures LeadLength(Encode(u)[0], room) == |Encode(u)|
    ensures forall i :: 0 <= i < |Encode(u)| ==> Encode(u)[i] != 0
  {
    if u < 0x80 {
      OneByte(u);
    } else if u < 0x800 {
      TwoBytes(u);
    } else {
      ThreeBytes(u);
    }
  }

  /** A lead byte's length is its character's, or an error when too little room is left for it. */
  lemma LeadOrError(u: Wide, room: nat)
    requires u != 0
    ensures LeadLength(Encode(u)[0], room) ==
            if u < 0x80 then 1 else if u < 0x800 then (if room > 0 then 2 else 0) else (if room > 1 then 3 else 0)
    ensures Encode(u)[0] != 0 && |Encode(u)| == (if u < 0x80 then 1 else if u < 0x800 then 2 else 3)
  {
    if u < 0x80 {
      OneByte(u);
    } else if u < 0x800 {
      TwoBytes(u);
    } else {
      ThreeBytes(u);
    }
  }

  lemma TwoByteUnit(u: Wide)
    requires 0x80 <= u < 0x800
    ensures |Encode(u)| == 2 && Unit(Encode(u), 0, 2) == u
  {
    TwoBytes(u);
  }

  lemma ThreeByteUnit(u: Wide)
    requires 0x800 <= u
    ensures |Encode(u)| == 3 && Unit(Encode(u), 0, 3) == u
  {
    ThreeBytes(u);
  }

  lemma OneByteUnit(u: Wide)
    requires u < 0x80
    ensures |Encode(u)| == 1 && Unit(Encode(u), 0, 1) == u
  {
    OneByte(u);
  }

  /** Reading back the bytes of a unit gives the unit. */
  lemma UnitRoundTrip(u: Wide)
    ensures Unit(Encode(u), 0, |Encode(u)|) == u
  {
    hide *;
    if u < 0x80 {
      OneByteUnit(u);
    } else if u < 0x800 {
      TwoByteUnit(u);
    } else {
      ThreeByteUnit(u);
    }
  }

  lemma UnitInText(s: seq<Byte>, at: nat, e: seq<Byte>)
    requires 1 <= |e| <= 3 && at + |e| <= |s| && s[at..at + |e|] == e
    ensures Unit(s, at, |e|) == Unit(e, 0, |e|)
  {
    SliceAt(s, at, e);
  }

  // ----- whole strings

  function EncodeAll(w: seq<Wide>): seq<Byte> {
    if w == [] then [] else Encode(w[0]) + EncodeAll(w[1..])
  }

  /** The units converted, up to the NUL or up to a malformed character. */
  datatype Decoding = Decoded(wide: seq<Wide>) | Malformed(wide: seq<Wide>) | OutOfBounds

  function Prepend(u: Wide, d: Decoding): Decoding {
    match d
    case Decoded(w) => Decoded([u] + w)
    case Malformed(w) => Malformed([u] + w)
    case OutOfBounds => OutOfBounds
  }

  /** Room left for output, in unsigned 64-bit arithmetic. */
  function Room(n: nat, count: nat): nat { (n - count) % SIZE_LIMIT }

  /** What `mbstowcs` makes of the text from `at` on, having written `count` units; `OutOfBounds` when it
      would read past the text's memory. */
  function Decode(s: seq<Byte>, at: nat, n: nat, count: nat): Decoding
    decreases |s| - at
  {
    if at >= |s| then OutOfBounds
    else if s[at] == 0 then Decoded([])
    else
      var length := LeadLength(s[at], Room(n, count));
      if length == 0 then Malformed([])
      else if at + length > |s| then OutOfBounds
      else Prepend(Unit(s, at, length), Decode(s, at + length, n, count + 1))
  }

  predicate ZeroFree(w: seq<Wide>) { forall i :: 0 <= i < |w| ==> w[i] != 0 }

  /** One character of an encoded text: it is converted, or too little room is left for it. */
  lemma DecodeOne(s: seq<Byte>, at: nat, n: nat, count: nat, u: Wide)
    requires u != 0 && at + |Encode(u)| < |s| && s[at..at + |Encode(u)|] == Encode(u)
    ensures var room, rest := Room(n, count), Decode(s, at + |Encode(u)|, n, count + 1);
      Decode(s, at, n, count) ==
        if (0x80 <= u < 0x800 && room == 0) || (0x800 <= u && room <= 1) then Malformed([]) else Prepend(u, rest)
  {
    hide Encode, LeadLength, Unit, Room;
    SliceAt(s, at, Encode(u));
    LeadOrError(u, Room(n, count));
    UnitInText(s, at, Encode(u));
    UnitRoundTrip(u);
  }

  lemma RoomIs(n: nat, count: nat)
    requires count <= n < SIZE_LIMIT
    ensures Room(n, count) == n - count
  {
  }

  lemma SplitText(s: seq<Byte>, at: nat, e: seq<Byte>, rest: seq<Byte>)
    requires at + |e + rest| <= |s| && s[at..at + |e + rest|] == e + rest
    ensures s[at..at + |e|] == e && s[at + |e|..at + |e| + |rest|] == rest
  {
    var t := s[at..at + |e + rest|];
    assert s[at..at + |e|] == t[..|e|];
    assert s[at + |e|..at + |e| + |rest|] == t[|e|..];
  }

  /** Encoding a zero-free wide string and decoding it gives it back, in a buffer with room for it. */
  lemma {:induction false} StringRoundTrip(w: seq<Wide>, s: seq<Byte>, at: nat, n: nat, count: nat)
    requires ZeroFree(w) && count + |w| < n < SIZE_LIMIT
    requires at + |EncodeAll(w)| < |s| && s[at..at + |EncodeAll(w)|] == EncodeAll(w) && s[at + |EncodeAll(w)|] == 0
    ensures Decode(s, at, n, count) == Decoded(w)
    decreases |w|
  {
    hide Decode, Encode, Room;
    if w == [] {
      DecodeAtNul(s, at, n, count);
    } else {
      assert w[0] != 0 && ZeroFree(w[1..]);
      RoomIs(n, count);
      SplitText(s, at, Encode(w[0]), EncodeAll(w[1..]));
      DecodeOne(s, at, n, count, w[0]);
      StringRoundTrip(w[1..], s, at + |Encode(w[0])|, n, count + 1);
      assert [w[0]] + w[1..] == w;
    }
  }

  lemma DecodeAtNul(s: seq<Byte>, at: nat, n: nat, count: nat)
    requires at < |s| && s[at] == 0
    ensures Decode(s, at, n, count) == Decoded([])
  {
  }

  // ----- the conversions, into buffers

  /** The text of a NUL-terminated wide string. */
  function Text(src: seq<Wide>): seq<Wide> {
    if src == [] || src[0] == 0 then [] else [src[0]] + Text(src[1..])
  }

  lemma {:induction false} TextStops(src: seq<Wide>, k: nat)
    requires k < |src| && src[k] == 0
    ensures |Text(src)| <= k && Text(src) == src[..|Text(src)|] && src[|Text(src)|] == 0 && ZeroFree(Text(src))
  {
    if src[0] != 0 {
      TextStops(src[1..], k - 1);
      assert src == [src[0]] + src[1..];
    }
  }

  /** How far `wcstombs` gets from unit `i`, `written` bytes into a buffer of `n`. */
  function Fitting(w: seq<Wide>, i: nat, written: nat, n: nat): (k: nat)
    requires i <= |w|
    ensures i <= k <= |w|
    decreases |w| - i
  {
    if i == |w| || written + 4 >= n then i else Fitting(w, i + 1, written + |Encode(w[i])|, n)
  }

  lemma EncodeAllSplits(v: seq<Wide>, w: seq<Wide>)
    ensures EncodeAll(v + w) == EncodeAll(v) + EncodeAll(w)
  {
    if v == [] {
      assert v + w == w;
    } else {
      assert (v + w)[1..] == v[1..] + w;
      EncodeAllSplits(v[1..], w);
    }
  }

  method Wctomb(dst: array<Byte>, at: nat, u: Wide) returns (ret: nat)
    requires at + 3 <= dst.Length
    modifies dst
    ensures ret == |Encode(u)|
    ensures dst[..] == old(dst[..])[..at] + Encode(u) + old(dst[..])[at + |Encode(u)|..]
  {
    if u < 0x80 {
      dst[at] := u as Byte;
      ret := 1;
    } else if u < 0x800 {
      dst[at] := ((u >> 6) & 0x1F) as Byte | 0xC0;
      dst[at + 1] := (u & 0x3F) as Byte | 0x80;
      ret := 2;
    } else {
      dst[at] := ((u >> 12) & 0x0F) as Byte | 0xE0;
      dst[at + 1] := ((u >> 6) & 0x3F) as Byte | 0x80;
      dst[at + 2] := (u & 0x3F) as Byte | 0x80;
      ret := 3;
    }
  }

  /** `dst` holds `done`, then what it held at first. */
  ghost predicate Holds(dst: seq<Byte>, done: seq<Byte>, orig: seq<Byte>) {
    |done| <= |orig| && dst == done + orig[|done|..]
  }

  lemma NothingHeld(orig: seq<Byte>)
    ensures Holds(orig, [], orig)
  {
  }

  lemma TextUnits(src: seq<Wide>)
    requires 0 in src
    ensures var w := Text(src);
      && |w| < |src| && src[|w|] == 0 && ZeroFree(w)
      && forall k :: 0 <= k < |w| ==> src[k] == w[k] && w[k] != 0
  {
    hide Text;
    TextStops(src, NulIndex(src));
  }

  /** One unit more at the end of what is done. */
  method Append(dst: array<Byte>, at: nat, u: Wide, ghost done: seq<Byte>, ghost orig: seq<Byte>) returns (ret: nat)
    requires at + 3 <= dst.Length && at == |done| && Holds(dst[..], done, orig)
    modifies dst
    ensures ret == |Encode(u)| && Holds(dst[..], done + Encode(u), orig)
  {
    Splice(done, Encode(u), orig);
    ret := Wctomb(dst, at, u);
  }

  /** The conversion loop: whole characters as long as more than four bytes stay free. */
  method ConvertUnits(dst: array<Byte>, src: seq<Wide>, n: nat) returns (ret: nat)
    requires n <= dst.Length && 0 in src
    modifies dst
    ensures var w := Text(src);
      var done := EncodeAll(w[..Fitting(w, 0, 0, n)]);
      ret == |done| && (ret < n || ret == 0) && Holds(dst[..], done, old(dst[..]))
  {
    hide *;
    TextUnits(src);
    ghost var w, orig := Text(src), dst[..];
    ret := 0;
    var i := 0;
    EncodeAllEmpty();
    NothingHeld(orig);
    assert w[..0] == [];
    while src[i] != 0 && ret + 4 < n
      invariant i <= |w| && (ret < n || ret == 0)
      invariant ret == |EncodeAll(w[..i])| && Holds(dst[..], EncodeAll(w[..i]), orig)
      invariant Fitting(w, i, ret, n) == Fitting(w, 0, 0, n)
      decreases |w| - i
    {
      EncodeOneMore(w, i);
      FittingNext(w, i, ret, n);
      var r := Append(dst, ret, src[i], EncodeAll(w[..i]), orig);
      i := i + 1;
      ret := ret + r;
    }
    FittingEnds(w, i, ret, n);
  }

  /** `wcstombs`: the characters that fit and a NUL; an empty string writes nothing. The NUL of any other one is
      within the `n` bytes exactly when there is one. */
  method Wcstombs(dst: array<Byte>, src: seq<Wide>, n: nat) returns (ret: nat)
    requires n <= dst.Length && 0 in src && (src[0] != 0 ==> dst.Length > 0)
    modifies dst
    ensures var w := Text(src);
      var done := EncodeAll(w[..Fitting(w, 0, 0, n)]);
      && ret == |done| && (w != [] ==> ret < dst.Length)
      && dst[..] == if w == [] then old(dst[..]) else done + [0] + old(dst[..])[ret + 1..]
    ensures src[0] != 0 ==> (ret < n <==> n > 0)
  {
    if src[0] == 0 {
      return 0;
    }
    hide EncodeAll, Fitting;
    ghost var w, orig := Text(src), dst[..];
    ghost var done := EncodeAll(w[..Fitting(w, 0, 0, n)]);
    ret := ConvertUnits(dst, src, n);
    Splice(done, [0], orig);
    Put(dst, ret, 0);
  }

  method Put(dst: array<Byte>, at: nat, b: Byte)
    requires at < dst.Length
    modifies dst
    ensures dst[..] == old(dst[..])[..at] + [b] + old(dst[..])[at + 1..]
  {
    dst[at] := b;
  }

  /** Writing `e` after `done` moves the boundary between new and original contents. */
  lemma Splice(done: seq<Byte>, e: seq<Byte>, orig: seq<Byte>)
    requires |done| + |e| <= |orig|
    ensures var now := done + orig[|done|..];
      now[..|done|] + e + now[|done| + |e|..] == done + e + orig[|done| + |e|..]
  {
  }

  ghost function NulIndex(src: seq<Wide>): (k: nat)
    requires 0 in src
    ensures k < |src| && src[k] == 0
  {
    var k: nat :| k < |src| && src[k] == 0; k
  }

  lemma EncodeAllEmpty()
    ensures EncodeAll([]) == []
  {
  }

  lemma EncodeOneMore(w: seq<Wide>, i: nat)
    requires i < |w|
    ensures EncodeAll(w[..i + 1]) == EncodeAll(w[..i]) + Encode(w[i])
  {
    assert w[..i + 1] == w[..i] + [w[i]];
    EncodeAllSplits(w[..i], [w[i]]);
    assert EncodeAll([w[i]]) == Encode(w[i]) + EncodeAll([]);
  }

  lemma FittingNext(w: seq<Wide>, i: nat, written: nat, n: nat)
    requires i < |w| && written + 4 < n
    ensures Fitting(w, i, written, n) == Fitting(w, i + 1, written + |Encode(w[i])|, n)
  {
  }

  lemma FittingEnds(w: seq<Wide>, i: nat, written: nat, n: nat)
    requires i == |w| || (i < |w| && written + 4 >= n)
    ensures Fitting(w, i, written, n) == i
  {
  }

  /** `wcstombs` converts a longest run of whole characters: all of them, or so many that fewer than five
      bytes are left. */
  lemma {:induction false} FittingIsLongest(w: seq<Wide>, i: nat, n: nat)
    requires i <= |w|
    ensures var k := Fitting(w, i, |EncodeAll(w[..i])|, n);
      && (k == |w| || |EncodeAll(w[..k])| + 4 >= n)
      && (forall j :: i <= j < k ==> |EncodeAll(w[..j])| + 4 < n)
    decreases |w| - i
  {
    if i < |w| {
      EncodeOneMore(w, i);
      FittingIsLongest(w, i + 1, n);
    }
  }

  /** With room for the whole text, `mbstowcs` gives back the string `wcstombs` converted. */
  lemma ConvertBack(w: seq<Wide>, n: nat, rest: seq<Byte>, m: nat)
    requires ZeroFree(w) && Fitting(w, 0, 0, n) == |w| && |w| < m < SIZE_LIMIT
    ensures Decode(EncodeAll(w[..Fitting(w, 0, 0, n)]) + [0] + rest, 0, m, 0) == Decoded(w)
  {
    var bytes := EncodeAll(w);
    var s := bytes + [0] + rest;
    assert w[..|w|] == w && s[0..|bytes|] == bytes && s[|bytes|] == 0;
    StringRoundTrip(w, s, 0, m, 0);
  }

  /** How many units a decoding writes: a NUL follows the text unless it is empty or malformed. */
  function Written(d: Decoding): nat
    requires !d.OutOfBounds?
  {
    |d.wide| + if d.Decoded? && d.wide != [] then 1 else 0
  }

  lemma DecodeSteps(s: seq<Byte>, at: nat, n: nat, count: nat)
    requires at < |s| && s[at] != 0
    ensures var length := LeadLength(s[at], Room(n, count));
      && length <= 4
      && Decode(s, at, n, count) ==
        if length == 0 then Malformed([])
        else if at + length > |s| then OutOfBounds
        else Prepend(Unit(s, at, length), Decode(s, at + length, n, count + 1))
  {
    LengthIsLow(s[at], Room(n, count));
    hide LeadLength, Unit, Room;
  }

  lemma LengthIsLow(lead: Byte, room: nat)
    ensures LeadLength(lead, room) <= 4
  {
  }

  /** The buffer once the first `count` units are in it. */
  ghost function Filled(w: seq<Wide>, was: seq<Wide>, count: nat): (r: seq<Wide>)
    requires count <= |w| <= |was|
    ensures |r| == |was|
  {
    w[..count] + was[count..]
  }

  lemma FilledNext(w: seq<Wide>, was: seq<Wide>, count: nat)
    requires count < |w| <= |was|
    ensures Filled(w, was, count)[count := w[count]] == Filled(w, was, count + 1)
  {
  }

  lemma FilledEnds(w: seq<Wide>, was: seq<Wide>)
    requires |w| <= |was|
    ensures Filled(w, was, 0) == was && Filled(w, was, |w|) == w + was[|w|..]
  {
  }

  method PutWide(dst: array<Wide>, at: nat, u: Wide)
    requires at < dst.Length
    modifies dst
    ensures dst[..] == old(dst[..])[at := u]
  {
    dst[at] := u;
  }

  lemma RemainingStarts(d: Decoding)
    requires !d.OutOfBounds?
    ensures Remaining(d, 0) == d
  {
  }

  lemma WithinText(s: seq<Byte>, at: nat, n: nat, count: nat)
    ensures at >= |s| ==> Decode(s, at, n, count).OutOfBounds?
  {
  }

  /** The conversion loop: the units up to the NUL, or up to a malformed character. */
  method DecodeUnits(dst: array<Wide>, s: seq<Byte>, n: nat) returns (count: nat, ok: bool)
    requires !Decode(s, 0, n, 0).OutOfBounds? && |Decode(s, 0, n, 0).wide| <= dst.Length
    modifies dst
    ensures var d := Decode(s, 0, n, 0);
      ok == d.Decoded? && count == |d.wide| && dst[..] == d.wide + old(dst[..])[count..]
  {
    hide *;
    ghost var d, was := Decode(s, 0, n, 0), dst[..];
    var at: nat := 0;
    count := 0;
    RemainingStarts(d);
    WithinText(s, at, n, count);
    FilledEnds(d.wide, was);
    while s[at] != 0
      invariant at < |s| && count <= |d.wide| && dst[..] == Filled(d.wide, was, count)
      invariant Remaining(d, count) == Decode(s, at, n, count) && !Remaining(d, count).OutOfBounds?
      decreases |s| - at
    {
      DecodeSteps(s, at, n, count);
      var length := LeadLength(s[at], Room(n, count));
      if length == 0 {
        RemainingEnds(d, count);
        return count, false;
      }
      RemainingNext(d, count, Unit(s, at, length), Decode(s, at + length, n, count + 1));
      FilledNext(d.wide, was, count);
      PutWide(dst, count, Unit(s, at, length));
      count := count + 1;
      at := at + length;
      WithinText(s, at, n, count);
    }
    DecodeAtNul(s, at, n, count);
    RemainingEnds(d, count);
    ok := true;
  }

  /** `mbstowcs`: the units of the text and a NUL, or -1 at a malformed character. The buffer has to hold what is
      written, which may be more than `n`. */
  method Mbstowcs(dst: array<Wide>, s: seq<Byte>, n: nat) returns (ret: int)
    requires !Decode(s, 0, n, 0).OutOfBounds? && Written(Decode(s, 0, n, 0)) <= dst.Length
    modifies dst
    ensures var d := Decode(s, 0, n, 0);
      && ret == (if d.Malformed? then -1 else |d.wide|)
      && dst[..|d.wide|] == d.wide
      && (d.Decoded? && d.wide != [] ==> dst[|d.wide|] == 0)
      && (forall k :: Written(d) <= k < dst.Length ==> dst[k] == old(dst[k]))
  {
    if s[0] == 0 {
      return 0;
    }
    StartsNonempty(s, n);
    hide Decode;
    var count, ok := DecodeUnits(dst, s, n);
    if !ok {
      return -1;
    }
    dst[count] := 0;
    ret := count;
  }

  lemma StartsNonempty(s: seq<Byte>, n: nat)
    requires |s| > 0 && s[0] != 0
    ensures Decode(s, 0, n, 0).Decoded? ==> Decode(s, 0, n, 0).wide != []
  {
    hide Unit, LeadLength, Room;
  }

  // ----- when `mbstowcs` keeps to `n` units

  lemma {:induction false} EncodedStaysInText(w: seq<Wide>, s: seq<Byte>, at: nat, n: nat, count: nat)
    requires ZeroFree(w)
    requires at + |EncodeAll(w)| < |s| && s[at..at + |EncodeAll(w)|] == EncodeAll(w) && s[at + |EncodeAll(w)|] == 0
    ensures !Decode(s, at, n, count).OutOfBounds?
    decreases |w|
  {
    hide Decode, Encode, Room;
    if w == [] {
      DecodeAtNul(s, at, n, count);
    } else {
      assert w[0] != 0 && ZeroFree(w[1..]);
      SplitText(s, at, Encode(w[0]), EncodeAll(w[1..]));
      DecodeOne(s, at, n, count, w[0]);
      EncodedStaysInText(w[1..], s, at + |Encode(w[0])|, n, count + 1);
    }
  }

  /** The unit that would be written first past `n` more is the NUL or an ASCII character, and nothing before it
      stops the conversion. */
  predicate Overruns(w: seq<Wide>, n: nat) {
    n <= |w| && (n > 0 ==> w[n - 1] < 0x800) && (n == |w| || w[n] < 0x80)
  }

  lemma {:induction false} WrittenExactly(w: seq<Wide>, s: seq<Byte>, at: nat, n: nat, count: nat)
    requires ZeroFree(w) && count <= n < SIZE_LIMIT
    requires at + |EncodeAll(w)| < |s| && s[at..at + |EncodeAll(w)|] == EncodeAll(w) && s[at + |EncodeAll(w)|] == 0
    ensures var d := Decode(s, at, n, count);
      !d.OutOfBounds? && (count + |d.wide| + (if d.Decoded? then 1 else 0) > n <==> Overruns(w, n - count))
    decreases |w|
  {
    hide Decode, Encode, Room;
    EncodedStaysInText(w, s, at, n, count);
    if w == [] {
      DecodeAtNul(s, at, n, count);
    } else {
      assert w[0] != 0 && ZeroFree(w[1..]);
      SplitText(s, at, Encode(w[0]), EncodeAll(w[1..]));
      DecodeOne(s, at, n, count, w[0]);
      RoomIs(n, count);
      EncodedStaysInText(w[1..], s, at + |Encode(w[0])|, n, count + 1);
      if count < n {
        WrittenExactly(w[1..], s, at + |Encode(w[0])|, n, count + 1);
        assert forall j :: 0 <= j < |w| - 1 ==> w[1..][j] == w[j + 1];
      }
    }
  }

  /** The call keeps to `n` units for the encoding of a nonempty text exactly unless the text is at least `n`
      units long, the unit before place `n` is below 0x800, and what comes at place `n` is the text's end or an
      ASCII character, which no check of the room stops. */
  lemma StaysWithinExactly(w: seq<Wide>, rest: seq<Byte>, n: nat)
    requires w != [] && ZeroFree(w) && n < SIZE_LIMIT
    ensures var d := Decode(EncodeAll(w) + [0] + rest, 0, n, 0);
      !d.OutOfBounds? && (Written(d) <= n <==> !Overruns(w, n))
  {
    hide Decode, Encode, EncodeAll;
    var bytes := EncodeAll(w);
    var s := bytes + [0] + rest;
    assert s[0..|bytes|] == bytes && s[|bytes|] == 0;
    WrittenExactly(w, s, 0, n, 0);
    SomethingWritten(w, s, n);
  }

  /** The decoding of a nonempty text is not the empty text. */
  lemma SomethingWritten(w: seq<Wide>, s: seq<Byte>, n: nat)
    requires w != [] && ZeroFree(w)
    requires |EncodeAll(w)| < |s| && s[0..|EncodeAll(w)|] == EncodeAll(w) && s[|EncodeAll(w)|] == 0
    ensures Decode(s, 0, n, 0) != Decoded([])
  {
    hide Decode, Encode, Room;
    assert w[0] != 0;
    SplitText(s, 0, Encode(w[0]), EncodeAll(w[1..]));
    DecodeOne(s, 0, n, 0, w[0]);
  }

  lemma RemainingNext(d: Decoding, count: nat, u: Wide, rest: Decoding)
    requires !d.OutOfBounds? && count <= |d.wide| && Remaining(d, count) == Prepend(u, rest)
    ensures count < |d.wide| && d.wide[count] == u && !rest.OutOfBounds? && Remaining(d, count + 1) == rest
  {
    assert d.wide[count..] == [u] + rest.wide;
    assert d.wide[count..][0] == u && d.wide[count..][1..] == d.wide[count + 1..] == rest.wide;
  }

  lemma RemainingEnds(d: Decoding, count: nat)
    requires !d.OutOfBounds? && count <= |d.wide| && !Remaining(d, count).OutOfBounds? && Remaining(d, count).wide == []
    ensures count == |d.wide| && Remaining(d, count).Malformed? == d.Malformed?
  {
    assert |d.wide[count..]| == |d.wide| - count;
  }

  /** The part of a decoding after its first `count` units. */
  ghost function Remaining(d: Decoding, count: nat): Decoding
    requires !d.OutOfBounds? && count <= |d.wide|
  {
    match d
    case Decoded(w) => Decoded(w[count..])
    case Malformed(w) => Malformed(w[count..])
  }

  // ----- counting

  /** How far `mblen` moves on from a lead byte. */
  function Skip(lead: Byte): (k: nat)
    ensures 1 <= k <= 4
  {
    if lead & 128 == 0 then 1 else if lead & 32 == 0 then 2 else if lead & 16 == 0
        then 3 else if lead & 8 == 0 then 4 else 1
  }

  /** The characters from `at` on that start within the first `n` bytes. */
  function Chars(s: seq<Byte>, at: nat, n: nat): nat
    requires n <= |s|
    decreases n - at
  {
    if at >= n || s[at] == 0 then 0 else 1 + Chars(s, at + Skip(s[at]), n)
  }

  method Mblen(s: seq<Byte>, n: nat) returns (c: nat)
    requires n <= |s|
    ensures c == Chars(s, 0, n)
  {
    var at := 0;
    c := 0;
    while at < n && s[at] != 0
      invariant c + Chars(s, at, n) == Chars(s, 0, n)
      decreases n - at
    {
      hide Skip;
      var lead := at;
      at := at + Skip(s[lead]);
      c := c + 1;
    }
  }

  lemma UnitSkip(u: Wide)
    requires u != 0
    ensures Skip(Encode(u)[0]) == |Encode(u)| && Encode(u)[0] != 0
  {
    UnitBytes(u, 2);
    if u < 0x80 {
      OneByte(u);
    } else if u < 0x800 {
      TwoBytes(u);
    } else {
      ThreeBytes(u);
    }
  }

  /** `mblen` counts the units of an encoded string. */
  lemma {:induction false} CharsOfText(w: seq<Wide>, s: seq<Byte>, at: nat, n: nat)
    requires ZeroFree(w) && n < |s| && at + |EncodeAll(w)| <= n
    requires s[at..at + |EncodeAll(w)|] == EncodeAll(w) && s[at + |EncodeAll(w)|] == 0
    ensures Chars(s, at, n) == |w|
    decreases |w|
  {
    hide Encode, Skip;
    if w != [] {
      assert w[0] != 0 && ZeroFree(w[1..]);
      SplitText(s, at, Encode(w[0]), EncodeAll(w[1..]));
      SliceAt(s, at, Encode(w[0]));
      UnitSkip(w[0]);
      CharsOfText(w[1..], s, at + |Encode(w[0])|, n);
    }
  }
}
