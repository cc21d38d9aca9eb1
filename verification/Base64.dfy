/** Base64 text (section 4 of RFC 4648), as the kernel's encoder and decoder write it. Shifts and masks of
    unsigned values are divisions and remainders by powers of two. */
module Base64 {
  import opened Arith
  import opened Bytes

  /** The encoding table: capitals, small letters, digits, plus and slash. */
  function Letter(v: nat): char
    requires v < 64
  {
    if v < 26 then (v + 'A' as int) as char
    else if v < 52 then (v - 26 + 'a' as int) as char
    else if v < 62 then (v - 52 + '0' as int) as char
    else if v == 62 then '+'
    else '/'
  }

  /** The decoding table: the place of an alphabet character, and 0 for every other one. */
  function Entry(c: char): nat {
    if 'A' <= c <= 'Z' then c as int - 'A' as int
    else if 'a' <= c <= 'z' then c as int - 'a' as int + 26
    else if '0' <= c <= '9' then c as int - '0' as int + 52
    else if c == '+' then 62
    else if c == '/' then 63
    else 0
  }

  predicate InAlphabet(c: char) {
    'A' <= c <= 'Z' || 'a' <= c <= 'z' || '0' <= c <= '9' || c == '+' || c == '/'
  }

  /** The two tables undo each other, and the padding sign is in neither. */
  lemma TablesAreInverse(v: nat, c: char)
    requires v < 64
    ensures InAlphabet(Letter(v)) && Entry(Letter(v)) == v
    ensures InAlphabet(c) ==> Entry(c) < 64 && Letter(Entry(c)) == c
    ensures !InAlphabet('=')
  {
  }

  const ALPHABET: string := "ABCDEFGHIJKLMNOPQRSTUVWXYZ" + "abcdefghijklmnopqrstuvwxyz" + "0123456789+/"

  /** Both tables are those of the alphabet. */
  lemma TablesAreTheAlphabet(v: nat)
    requires v < 64
    ensures |ALPHABET| == 64 && Letter(v) == ALPHABET[v] && Entry(ALPHABET[v]) == v
  {
    Capitals(v);
    Smalls(v);
    Others(v);
  }

  lemma Capitals(k: nat)
    ensures var s := "ABCDEFGHIJKLMNOPQRSTUVWXYZ"; |s| == 26 && (k < 26 ==> s[k] as int == k + 'A' as int)
  {
  }

  lemma Smalls(k: nat)
    ensures var s := "abcdefghijklmnopqrstuvwxyz";
      |s| == 26 && (26 <= k < 52 ==> s[k - 26] as int == k - 26 + 'a' as int)
  {
  }

  lemma Others(k: nat)
    ensures var s := "0123456789+/";
      && |s| == 12 && s[10] == '+' && s[11] == '/' && (52 <= k < 62 ==> s[k - 52] as int == k - 52 + '0' as int)
  {
  }

  /** What the decoder takes a character for. */
  function Sextet(c: char): (v: nat)
    ensures v < 64
  {
    if c == '=' then 0 else Entry(c)
  }

  // ----- what the text of some bytes is

  function EncodedLength(n: nat): nat { 4 * ((n + 2) / 3) }

  function Padding(n: nat): nat { if n % 3 == 0 then 0 else 3 - n % 3 }

  function ByteAt(x: seq<Byte>, i: nat): Byte { if i < |x| then x[i] else 0 }

  function Triple(x: seq<Byte>, at: nat): nat {
    ByteAt(x, at) * 0x10000 + ByteAt(x, at + 1) * 0x100 + ByteAt(x, at + 2)
  }

  function SextetIn(triple: nat, r: nat): (v: nat)
    ensures v < 64
  {
    if r == 0 then triple / 0x40000 % 64
    else if r == 1 then triple / 0x1000 % 64
    else if r == 2 then triple / 0x40 % 64
    else triple % 64
  }

  /** Sextet `k` of the bytes, which count as zero past their end. */
  function SextetAt(x: seq<Byte>, k: nat): (v: nat)
    ensures v < 64
  {
    SextetIn(Triple(x, k / 4 * 3), k % 4)
  }

  function EncodeText(x: seq<Byte>): (s: string)
    ensures |s| == EncodedLength(|x|)
  {
    seq(EncodedLength(|x|), k requires 0 <= k < EncodedLength(|x|) =>
      if k < EncodedLength(|x|) - Padding(|x|) then Letter(SextetAt(x, k)) else '=')
  }

  // ----- what the bytes of some text are

  function DecodedLength(s: string): nat
    requires |s| > 0 && |s| % 4 == 0
  {
    |s| / 4 * 3 - (if s[|s| - 1] == '=' then 1 else 0) - (if s[|s| - 2] == '=' then 1 else 0)
  }

  function Quad(s: string, at: nat): nat
    requires at + 4 <= |s|
  {
    Sextet(s[at]) * 0x40000 + Sextet(s[at + 1]) * 0x1000 + Sextet(s[at + 2]) * 0x40 + Sextet(s[at + 3])
  }

  function ByteIn(triple: nat, r: nat): Byte {
    if r == 0 then triple / 0x10000 % 256 else if r == 1 then triple / 0x100 % 256 else triple % 256
  }

  /** Byte `k` of the text. */
  function DecodedAt(s: string, k: nat): Byte
    requires k / 3 * 4 + 4 <= |s|
  {
    ByteIn(Quad(s, k / 3 * 4), k % 3)
  }

  function DecodeText(s: string): (x: seq<Byte>)
    requires |s| > 0 && |s| % 4 == 0
    ensures |x| == DecodedLength(s)
  {
    seq(DecodedLength(s), k requires 0 <= k < DecodedLength(s) => DecodedAt(s, k))
  }

  /** Only alphabet characters before at most two signs of padding, and no bit set that the padding drops. */
  ghost predicate Canonical(s: string) {
    && |s| > 0 && |s| % 4 == 0
    && (forall k :: 0 <= k < |s| - 2 ==> InAlphabet(s[k]))
    && (InAlphabet(s[|s| - 2]) || (s[|s| - 2] == '=' && s[|s| - 1] == '=' && Sextet(s[|s| - 3]) % 16 == 0))
    && (InAlphabet(s[|s| - 1]) || (s[|s| - 1] == '=' && Sextet(s[|s| - 2]) % 4 == 0))
  }

  // ----- decoding what was encoded

  lemma SextetDigits(p: nat, q: nat, r: nat, t: nat)
    requires p < 64 && q < 64 && r < 64 && t < 64
    ensures var w := p * 0x40000 + q * 0x1000 + r * 0x40 + t;
      SextetIn(w, 0) == p && SextetIn(w, 1) == q && SextetIn(w, 2) == r && SextetIn(w, 3) == t
  {
    var w := p * 0x40000 + q * 0x1000 + r * 0x40 + t;
    assert w / 0x40000 == p;
    assert w / 0x1000 == p * 64 + q;
    assert w / 0x40 == (p * 64 + q) * 64 + r;
  }

  lemma ByteDigits(a: Byte, b: Byte, c: Byte)
    ensures var w := a * 0x10000 + b * 0x100 + c;
      ByteIn(w, 0) == a && ByteIn(w, 1) == b && ByteIn(w, 2) == c
  {
    var w := a * 0x10000 + b * 0x100 + c;
    assert w / 0x10000 == a;
    assert w / 0x100 == a * 256 + b;
  }

  lemma TripleSplits(a: Byte, b: Byte, c: Byte)
    ensures var w := a * 0x10000 + b * 0x100 + c;
      && SextetIn(w, 0) * 0x40000 + SextetIn(w, 1) * 0x1000 + SextetIn(w, 2) * 0x40 + SextetIn(w, 3) == w
      && ByteIn(w, 0) == a && ByteIn(w, 1) == b && ByteIn(w, 2) == c
      && (c == 0 ==> SextetIn(w, 3) == 0 && SextetIn(w, 2) % 4 == 0)
      && (b == 0 && c == 0 ==> SextetIn(w, 2) == 0 && SextetIn(w, 1) % 16 == 0)
  {
    hide SextetIn, ByteIn;
    ByteDigits(a, b, c);
    SextetDigits(a / 4, a % 4 * 16 + b / 16, b % 16 * 4 + c / 64, c % 64);
  }

  /** The sextets past the last byte, where the padding goes, are zero. */
  lemma PaddedSextetsAreZero(x: seq<Byte>, k: nat)
    requires EncodedLength(|x|) - Padding(|x|) <= k < EncodedLength(|x|)
    ensures SextetAt(x, k) == 0
  {
    hide SextetIn, ByteIn;
    var at := k / 4 * 3;
    assert at + 3 == |x| + Padding(|x|) && k % 4 >= 4 - Padding(|x|);
    TripleSplits(ByteAt(x, at), ByteAt(x, at + 1), ByteAt(x, at + 2));
  }

  /** The decoder reads back every sextet, the padded ones included. */
  lemma SextetsComeBack(x: seq<Byte>, k: nat)
    requires k < EncodedLength(|x|)
    ensures Sextet(EncodeText(x)[k]) == SextetAt(x, k)
    ensures EncodeText(x)[k] == '=' <==> k >= EncodedLength(|x|) - Padding(|x|)
    ensures k < EncodedLength(|x|) - Padding(|x|) ==> InAlphabet(EncodeText(x)[k])
  {
    hide SextetAt, EncodedLength, Padding, Letter, Entry;
    if k < EncodedLength(|x|) - Padding(|x|) {
      TablesAreInverse(SextetAt(x, k), '=');
    } else {
      PaddedSextetsAreZero(x, k);
    }
  }

  lemma QuadsComeBack(x: seq<Byte>, g: nat)
    requires 4 * g + 4 <= EncodedLength(|x|)
    ensures Quad(EncodeText(x), 4 * g) == Triple(x, 3 * g)
  {
    hide EncodeText, SextetIn, ByteIn, Sextet, EncodedLength, Triple;
    SextetsComeBack(x, 4 * g);
    SextetsComeBack(x, 4 * g + 1);
    SextetsComeBack(x, 4 * g + 2);
    SextetsComeBack(x, 4 * g + 3);
    TripleIsItsSextets(x, 3 * g);
  }

  lemma TripleIsItsSextets(x: seq<Byte>, at: nat)
    ensures var w := Triple(x, at);
      SextetIn(w, 0) * 0x40000 + SextetIn(w, 1) * 0x1000 + SextetIn(w, 2) * 0x40 + SextetIn(w, 3) == w
  {
    hide SextetIn, ByteIn;
    TripleSplits(ByteAt(x, at), ByteAt(x, at + 1), ByteAt(x, at + 2));
  }

  lemma LengthsAgree(n: nat)
    requires n > 0
    ensures EncodedLength(n) >= 4 && EncodedLength(n) % 4 == 0 && Padding(n) <= 2
    ensures EncodedLength(n) / 4 * 3 - Padding(n) == n
  {
    var q := (n + 2) / 3;
    assert EncodedLength(n) / 4 == q && n == 3 * q - Padding(n);
  }

  lemma DecodedLengthComesBack(x: seq<Byte>)
    requires x != []
    ensures |EncodeText(x)| > 0 && |EncodeText(x)| % 4 == 0 && DecodedLength(EncodeText(x)) == |x|
  {
    hide EncodeText, EncodedLength, Padding, SextetAt;
    var s := EncodeText(x);
    LengthsAgree(|x|);
    SextetsComeBack(x, |s| - 1);
    SextetsComeBack(x, |s| - 2);
  }

  lemma DecodedByteComesBack(x: seq<Byte>, k: nat)
    requires k < |x|
    ensures k / 3 * 4 + 4 <= EncodedLength(|x|)
    ensures DecodedAt(EncodeText(x), k) == x[k]
  {
    hide EncodeText, Quad, ByteIn, SextetIn;
    var g := k / 3;
    QuadsComeBack(x, g);
    TripleSplits(ByteAt(x, 3 * g), ByteAt(x, 3 * g + 1), ByteAt(x, 3 * g + 2));
    assert k / 3 * 4 == 4 * g && k == 3 * g + k % 3;
  }

  lemma DecodeUndoesEncode(x: seq<Byte>)
    requires x != []
    ensures |EncodeText(x)| > 0 && |EncodeText(x)| % 4 == 0
    ensures DecodeText(EncodeText(x)) == x
  {
    hide EncodeText, EncodedLength, Quad, ByteIn, DecodedLength;
    DecodedLengthComesBack(x);
    forall k | 0 <= k < |x| ensures DecodeText(EncodeText(x))[k] == x[k] {
      DecodedByteComesBack(x, k);
    }
  }

  // ----- encoding what was decoded

  lemma EncodedIsCanonical(x: seq<Byte>)
    requires x != []
    ensures Canonical(EncodeText(x))
  {
    hide EncodeText, EncodedLength, Padding, SextetAt, InAlphabet, Sextet;
    var s := EncodeText(x);
    var n := |s|;
    LengthsAgree(|x|);
    forall k | 0 <= k < n - 2 ensures InAlphabet(s[k]) {
      SextetsComeBack(x, k);
    }
    SextetsComeBack(x, n - 1);
    SextetsComeBack(x, n - 2);
    SextetsComeBack(x, n - 3);
    DroppedBitsAreZero(x);
  }

  lemma DroppedBitsAreZero(x: seq<Byte>)
    requires x != []
    ensures EncodedLength(|x|) >= 4
    ensures Padding(|x|) == 2 ==>
              SextetAt(x, EncodedLength(|x|) - 3) % 16 == 0 && SextetAt(x, EncodedLength(|x|) - 2) == 0
    ensures Padding(|x|) == 1 ==> SextetAt(x, EncodedLength(|x|) - 2) % 4 == 0
  {
    hide SextetIn, ByteIn, Triple;
    LengthsAgree(|x|);
    var g := EncodedLength(|x|) / 4 - 1;
    LastGroup(g);
    LastBytes(x, g);
    TripleSplits(ByteAt(x, 3 * g), ByteAt(x, 3 * g + 1), ByteAt(x, 3 * g + 2));
    assert Triple(x, 3 * g) == ByteAt(x, 3 * g) * 0x10000 + ByteAt(x, 3 * g + 1) * 0x100 + ByteAt(x, 3 * g + 2) by {
      TripleIs(x, 3 * g);
    }
  }

  lemma TripleIs(x: seq<Byte>, at: nat)
    ensures Triple(x, at) == ByteAt(x, at) * 0x10000 + ByteAt(x, at + 1) * 0x100 + ByteAt(x, at + 2)
  {
  }

  lemma LastGroup(g: nat)
    ensures (4 * g + 1) / 4 == g && (4 * g + 1) % 4 == 1 && (4 * g + 2) / 4 == g && (4 * g + 2) % 4 == 2
  {
  }

  /** Past the last byte there are zeros, as many as the padding says. */
  lemma LastBytes(x: seq<Byte>, g: nat)
    requires EncodedLength(|x|) == 4 * g + 4
    ensures Padding(|x|) == 2 ==> ByteAt(x, 3 * g + 1) == 0 && ByteAt(x, 3 * g + 2) == 0
    ensures Padding(|x|) == 1 ==> ByteAt(x, 3 * g + 2) == 0
  {
  }

  lemma QuadSplits(p: nat, q: nat, r: nat, t: nat)
    requires p < 64 && q < 64 && r < 64 && t < 64
    ensures var w := p * 0x40000 + q * 0x1000 + r * 0x40 + t;
      && SextetIn(w, 0) == p && SextetIn(w, 1) == q && SextetIn(w, 2) == r && SextetIn(w, 3) == t
      && ByteIn(w, 0) * 0x10000 + ByteIn(w, 1) * 0x100 + ByteIn(w, 2) == w
      && (t == 0 && r % 4 == 0 ==> ByteIn(w, 2) == 0)
      && (t == 0 && r == 0 && q % 16 == 0 ==> ByteIn(w, 1) == 0 && ByteIn(w, 2) == 0)
  {
    hide SextetIn, ByteIn;
    SextetDigits(p, q, r, t);
    ByteDigits(p * 4 + q / 16, q % 16 * 16 + r / 4, r % 4 * 64 + t);
  }

  /** The bytes the padding drops are the zeros the encoder puts back. */
  lemma TriplesComeBack(s: string, g: nat)
    requires Canonical(s) && 4 * g + 4 <= |s|
    ensures Triple(DecodeText(s), 3 * g) == Quad(s, 4 * g)
  {
    hide SextetIn, ByteIn, InAlphabet, Entry;
    var x := DecodeText(s);
    var w := Quad(s, 4 * g);
    assert !InAlphabet('=') by { TablesAreInverse(0, '='); }
    QuadSplits(Sextet(s[4 * g]), Sextet(s[4 * g + 1]), Sextet(s[4 * g + 2]), Sextet(s[4 * g + 3]));
    forall r: nat | r < 3 ensures ByteAt(x, 3 * g + r) == ByteIn(w, r) {
      assert (3 * g + r) / 3 == g && (3 * g + r) % 3 == r;
      if 3 * g + r >= |x| {
        assert 4 * g + 4 == |s|;
      }
    }
  }

  lemma SextetComesBack(s: string, k: nat)
    requires Canonical(s) && k < |s|
    ensures SextetAt(DecodeText(s), k) == Sextet(s[k])
  {
    hide SextetIn, ByteIn, Triple, DecodeText, Sextet;
    var g := k / 4;
    TriplesComeBack(s, g);
    QuadSplits(Sextet(s[4 * g]), Sextet(s[4 * g + 1]), Sextet(s[4 * g + 2]), Sextet(s[4 * g + 3]));
    assert k == 4 * g + k % 4;
  }

  lemma PaddingComesBack(s: string)
    requires Canonical(s)
    ensures EncodedLength(DecodedLength(s)) == |s|
    ensures forall k :: 0 <= k < |s| ==> if k < |s| - Padding(DecodedLength(s)) then InAlphabet(s[k]) else s[k] == '='
  {
    hide InAlphabet, Sextet;
    assert !InAlphabet('=') by { TablesAreInverse(0, '='); }
    QuartersOf(|s|);
    PaddingLeft(|s| / 4, if s[|s| - 2] == '=' then 2 else if s[|s| - 1] == '=' then 1 else 0);
    hide EncodedLength, Padding;
  }

  lemma QuartersOf(n: nat)
    requires n % 4 == 0
    ensures n == 4 * (n / 4)
  {
  }

  /** A text of `q` groups with `p` signs of padding says so by its length. */
  lemma PaddingLeft(q: nat, p: nat)
    requires q > 0 && p <= 2
    ensures EncodedLength(q * 3 - p) == 4 * q && Padding(q * 3 - p) == p
  {
    var n := q * 3 - p;
    assert n % 3 == (if p == 0 then 0 else 3 - p) && (n + 2) / 3 == q;
  }

  lemma EncodeUndoesDecode(s: string)
    requires Canonical(s)
    ensures EncodeText(DecodeText(s)) == s
  {
    hide DecodeText, SextetAt, Padding, EncodedLength, Letter, Entry, InAlphabet, DecodedLength;
    var x := DecodeText(s);
    PaddingComesBack(s);
    forall k | 0 <= k < |s| ensures EncodeText(x)[k] == s[k] {
      SextetComesBack(s, k);
      TablesAreInverse(SextetAt(x, k), s[k]);
    }
  }

  /** Encoding gives a decoded text back exactly when the text was canonical. */
  lemma OnlyCanonicalTextComesBack(s: string)
    requires |s| > 0 && |s| % 4 == 0
    ensures EncodeText(DecodeText(s)) == s <==> Canonical(s)
  {
    hide EncodeText, DecodeText;
    if Canonical(s) {
      EncodeUndoesDecode(s);
    } else if EncodeText(DecodeText(s)) == s {
      EncodedIsCanonical(DecodeText(s));
    }
  }

  // ----- the text and the bytes are one number

  /** The bytes as the digits of one number in base 256. */
  function Number256(x: seq<Byte>): nat {
    if x == [] then 0 else Number256(x[..|x| - 1]) * 256 + x[|x| - 1]
  }

  /** The characters as the digits of one number in base 64. */
  function Number64(s: string): nat {
    if s == [] then 0 else Number64(s[..|s| - 1]) * 64 + Sextet(s[|s| - 1])
  }

  lemma ThreeDigits(x: seq<Byte>)
    requires |x| >= 3
    ensures Number256(x) == Number256(x[..|x| - 3]) * 0x100_0000 + Triple(x, |x| - 3)
  {
    var n := |x|;
    assert x[..n - 1][..n - 2] == x[..n - 2] && x[..n - 2][..n - 3] == x[..n - 3];
  }

  lemma FourDigits(s: string)
    requires |s| >= 4
    ensures Number64(s) == Number64(s[..|s| - 4]) * 0x100_0000 + Quad(s, |s| - 4)
  {
    var n := |s|;
    assert s[..n - 1][..n - 2] == s[..n - 2] && s[..n - 2][..n - 3] == s[..n - 3] && s[..n - 3][..n - 4] == s[..n - 4];
  }

  function Padded(x: seq<Byte>): seq<Byte> { x + Zeros(Padding(|x|)) }

  lemma PaddedByte(x: seq<Byte>, i: nat, n: nat)
    requires i < n && n <= |x| + Padding(|x|)
    ensures n <= |Padded(x)| && ByteAt(Padded(x)[..n], i) == ByteAt(x, i)
  {
    hide Padding;
  }

  lemma PaddedTriple(x: seq<Byte>, m: nat)
    requires 4 * m + 4 <= EncodedLength(|x|)
    ensures 3 * m + 3 <= |Padded(x)| && Triple(Padded(x)[..3 * m + 3], 3 * m) == Triple(x, 3 * m)
  {
    PaddedByte(x, 3 * m, 3 * m + 3);
    PaddedByte(x, 3 * m + 1, 3 * m + 3);
    PaddedByte(x, 3 * m + 2, 3 * m + 3);
    hide Padded, ByteAt;
  }

  lemma QuadOfPrefix(s: string, at: nat)
    requires at + 4 <= |s|
    ensures Quad(s[..at + 4], at) == Quad(s, at)
  {
    hide Sextet;
    var p := s[..at + 4];
    assert p[at] == s[at] && p[at + 1] == s[at + 1] && p[at + 2] == s[at + 2] && p[at + 3] == s[at + 3];
  }

  lemma PaddedLength(x: seq<Byte>)
    ensures |EncodeText(x)| == 4 * (|Padded(x)| / 3) && |Padded(x)| == 3 * (|Padded(x)| / 3)
  {
    var q := (|x| + 2) / 3;
    assert |x| + Padding(|x|) == 3 * q;
  }

  /** Rewriting the number of the bytes, zeros appended to whole groups, in base 64 gives the text. */
  lemma TextIsTheSameNumber(x: seq<Byte>)
    ensures Number64(EncodeText(x)) == Number256(Padded(x))
  {
    hide EncodeText, Number64, Number256, Padded, EncodedLength;
    var s, p := EncodeText(x), Padded(x);
    PaddedLength(x);
    GroupsAgree(x, |p| / 3);
    assert s[..|s|] == s && p[..|p|] == p;
  }

  lemma {:induction false} GroupsAgree(x: seq<Byte>, m: nat)
    requires 4 * m <= EncodedLength(|x|)
    ensures 3 * m <= |Padded(x)| && Number64(EncodeText(x)[..4 * m]) == Number256(Padded(x)[..3 * m])
  {
    hide EncodeText, EncodedLength, Padded, Quad, Triple, Number64, Number256;
    if m == 0 {
      NoDigits();
    } else {
      var g := m - 1;
      GroupsAgree(x, g);
      PaddedTriple(x, g);
      OneMoreGroup(x, g);
      QuadsComeBack(x, g);
    }
  }

  lemma NoDigits()
    ensures Number64("") == 0 == Number256([])
  {
  }

  lemma OneMoreGroup(x: seq<Byte>, g: nat)
    requires 4 * g + 4 <= EncodedLength(|x|) && 3 * g + 3 <= |Padded(x)|
    ensures Number64(EncodeText(x)[..4 * g + 4]) ==
            Number64(EncodeText(x)[..4 * g]) * 0x100_0000 + Quad(EncodeText(x), 4 * g)
    ensures Number256(Padded(x)[..3 * g + 3]) ==
            Number256(Padded(x)[..3 * g]) * 0x100_0000 + Triple(Padded(x)[..3 * g + 3], 3 * g)
  {
    hide EncodeText, EncodedLength, Padded, Quad, Triple, Number64, Number256;
    var s, p := EncodeText(x)[..4 * g + 4], Padded(x)[..3 * g + 3];
    FourDigits(s);
    ThreeDigits(p);
    QuadOfPrefix(EncodeText(x), 4 * g);
    assert s[..4 * g] == EncodeText(x)[..4 * g] && p[..3 * g] == Padded(x)[..3 * g];
  }

  // ----- the two loops

  /** `available` says whether the heap has room for the text. */
  method Encode(data: array<Byte>, available: bool) returns (text: array?<char>)
    requires EncodedLength(data.Length) <= INT_MAX
    ensures text == null <==> !available
    ensures text != null ==> fresh(text) && text[..] == EncodeText(data[..])
  {
    hide SextetAt, Letter;
    var length := 4 * ((data.Length + 2) / 3);
    if !available {
      return null;
    }
    text := new char[length];
    ghost var x := data[..];
    var i, j := 0, 0;
    while i < data.Length
      invariant 0 <= j <= length && j % 4 == 0
      invariant i == if j / 4 * 3 <= data.Length then j / 4 * 3 else data.Length
      invariant forall k :: 0 <= k < j ==> text[k] == Letter(SextetAt(x, k))
      decreases length - j
    {
      ghost var at := i;
      var octetA: Byte, octetB: Byte, octetC: Byte := 0, 0, 0;
      if i < data.Length { octetA := data[i]; i := i + 1; }
      if i < data.Length { octetB := data[i]; i := i + 1; }
      if i < data.Length { octetC := data[i]; i := i + 1; }
      var triple: nat := octetA * 0x10000 + octetB * 0x100 + octetC;
      assert triple == Triple(x, at);
      SextetsOfTriple(x, j, triple);
      text[j] := Letter(triple / 0x40000 % 64);
      text[j + 1] := Letter(triple / 0x1000 % 64);
      text[j + 2] := Letter(triple / 0x40 % 64);
      text[j + 3] := Letter(triple % 64);
      j := j + 4;
    }
    i := 0;
    while i < [0, 2, 1][data.Length % 3]
      invariant 0 <= i <= Padding(data.Length) <= length
      invariant forall k :: 0 <= k < length - i ==> text[k] == Letter(SextetAt(x, k))
      invariant forall k :: length - i <= k < length ==> text[k] == '='
    {
      text[length - 1 - i] := '=';
      i := i + 1;
    }
  }

  lemma SextetsOfTriple(x: seq<Byte>, j: nat, triple: nat)
    requires j % 4 == 0 && triple == Triple(x, j / 4 * 3)
    ensures SextetAt(x, j) == triple / 0x40000 % 64
    ensures SextetAt(x, j + 1) == triple / 0x1000 % 64
    ensures SextetAt(x, j + 2) == triple / 0x40 % 64
    ensures SextetAt(x, j + 3) == triple % 64
  {
    hide Triple;
  }

  /** The source reads the last two characters of a text it takes for nonempty, and indexes its table with
      characters below 128. */
  method Decode(data: array<char>, available: bool) returns (bytes: array?<Byte>)
    requires 0 < data.Length <= INT_MAX
    requires forall k :: 0 <= k < data.Length ==> data[k] as int < 128
    ensures bytes == null <==> data.Length % 4 != 0 || !available
    ensures bytes != null ==> fresh(bytes) && bytes[..] == DecodeText(data[..])
  {
    hide DecodedAt, Sextet, Quad;
    if data.Length % 4 != 0 {
      return null;
    }
    ghost var s := data[..];
    var length := data.Length / 4 * 3;
    if data[data.Length - 1] == '=' { length := length - 1; }
    if data[data.Length - 2] == '=' { length := length - 1; }
    if !available {
      return null;
    }
    bytes := new Byte[length];
    var i, j := 0, 0;
    ghost var quads: nat := 0;
    while i < data.Length
      invariant i == 4 * quads <= data.Length
      invariant j == if 3 * quads <= length then 3 * quads else length
      invariant forall k :: 0 <= k < j ==> bytes[k] == DecodedAt(s, k)
    {
      var sextetA := Sextet(data[i]);
      var sextetB := Sextet(data[i + 1]);
      var sextetC := Sextet(data[i + 2]);
      var sextetD := Sextet(data[i + 3]);
      var triple := sextetA * 0x40000 + sextetB * 0x1000 + sextetC * 0x40 + sextetD;
      BytesOfQuad(s, quads, triple);
      i := i + 4;
      quads := quads + 1;
      if j < length { bytes[j] := triple / 0x10000 % 256; j := j + 1; }
      if j < length { bytes[j] := triple / 0x100 % 256; j := j + 1; }
      if j < length { bytes[j] := triple % 256; j := j + 1; }
    }
  }

  lemma BytesOfQuad(s: string, q: nat, triple: nat)
    requires 4 * q + 4 <= |s|
    requires var i := 4 * q;
      triple == Sextet(s[i]) * 0x40000 + Sextet(s[i + 1]) * 0x1000 + Sextet(s[i + 2]) * 0x40 + Sextet(s[i + 3])
    ensures DecodedAt(s, 3 * q) == triple / 0x10000 % 256
    ensures DecodedAt(s, 3 * q + 1) == triple / 0x100 % 256
    ensures DecodedAt(s, 3 * q + 2) == triple % 256
  {
    hide Sextet;
  }
}
