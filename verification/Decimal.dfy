/** Printing an `int` and parsing numbers, both 32 bits wide. */
module Decimal {
  import opened Arith

  const NUL: char := '\0'

  // ----- printing

  function DigitChar(d: nat): char
    requires d < 10
  {
    (d + '0' as int) as char
  }

  /** The decimal digits of `n`, the highest first. */
  function Digits(n: nat): (s: string)
    ensures |s| >= 1 && forall k :: 0 <= k < |s| ==> '0' <= s[k] <= '9'
  {
    if n < 10 then [DigitChar(n)] else Digits(n / 10) + [DigitChar(n % 10)]
  }

  /** No zero stands in front, except for 0 itself. */
  lemma {:induction false} DigitsStartRight(n: nat)
    ensures if n == 0 then Digits(n) == "0" else Digits(n)[0] != '0'
  {
    if n >= 10 { DigitsStartRight(n / 10); }
  }

  function DecimalText(n: int): string { if n < 0 then "-" + Digits(-n) else Digits(n) }

  function Reversed(s: string): (r: string)
    ensures |r| == |s| && forall k :: 0 <= k < |s| ==> r[k] == s[|s| - 1 - k]
  {
    if s == [] then [] else Reversed(s[1..]) + [s[0]]
  }

  lemma ReversedAppend(s: string, c: char)
    ensures Reversed(s + [c]) == [c] + Reversed(s)
  {
  }

  /** The string in the array is `length` characters long. */
  ghost predicate StringIn(s: seq<char>, length: nat) {
    length < |s| && s[length] == NUL && forall k :: 0 <= k < length ==> s[k] != NUL
  }

  method Strlen(str: array<char>, ghost length: nat) returns (len: nat)
    requires StringIn(str[..], length)
    ensures len == length
  {
    len := 0;
    while str[len] != NUL
      invariant len <= length
      decreases length - len
    {
      len := len + 1;
    }
    assert str[..][len] == NUL;
  }

  /** Turns the string round in place; nothing from its NUL on changes. */
  method Reverse(str: array<char>, ghost length: nat)
    requires StringIn(str[..], length)
    modifies str
    ensures str[..length] == Reversed(old(str[..length]))
    ensures forall k :: length <= k < str.Length ==> str[k] == old(str[k])
  {
    var len := Strlen(str, length);
    var i := 0;
    while i < len / 2
      invariant 0 <= i <= len / 2
      invariant forall k :: 0 <= k < i ==> str[k] == old(str[len - 1 - k]) && str[len - 1 - k] == old(str[k])
      invariant forall k :: i <= k < len - i ==> str[k] == old(str[k])
      invariant forall k :: len <= k < str.Length ==> str[k] == old(str[k])
    {
      var temp := str[i];
      str[i] := str[len - i - 1];
      str[len - i - 1] := temp;
      i := i + 1;
    }
  }

  /** Writes the decimal text of `n` and a NUL. */
  method IntToAscii(value: int, str: array<char>)
    requires -INT_MAX <= value <= INT_MAX
    requires |DecimalText(value)| < str.Length
    modifies str
    ensures str[..|DecimalText(value)|] == DecimalText(value) && str[|DecimalText(value)|] == NUL
    ensures forall k :: |DecimalText(value)| < k < str.Length ==> str[k] == old(str[k])
  {
    hide Digits, Reversed, DecimalText, DigitChar;
    var n, sign := value, value;
    if sign < 0 {
      n := -n;
    }
    ghost var all := Digits(n);
    ghost var was := str[..];
    DecimalTextIs(value, n, all);
    ReversedNothing();
    var i := 0;
    var more := true;
    while more
      invariant n >= 0 && i <= |all|
      invariant more ==> Digits(n) + Reversed(str[..i]) == all
      invariant !more ==> Reversed(str[..i]) == all
      invariant forall k :: |all| <= k < str.Length ==> str[k] == was[k]
      decreases n, more
    {
      DigitsStep(n, str[..i], all);
      ghost var before := str[..i];
      str[i] := DigitChar(n % 10);
      i := i + 1;
      assert str[..i] == before + [DigitChar(n % 10)];
      n := n / 10;
      more := n > 0;
    }
    if sign < 0 {
      ReversedAppend(str[..i], '-');
      ghost var before := str[..i];
      str[i] := '-';
      i := i + 1;
      assert str[..i] == before + ['-'];
    }
    str[i] := NUL;
    NoNulInReverse(str[..i], DecimalText(value));
    Reverse(str, i);
  }

  lemma ReversedNothing()
    ensures Reversed([]) == []
  {
  }

  lemma DecimalTextIs(value: int, n: nat, all: string)
    requires n == (if value < 0 then -value else value) && all == Digits(n)
    ensures DecimalText(value) == if value < 0 then "-" + all else all
    ensures NUL !in DecimalText(value)
  {
  }

  lemma DigitsUnfold(n: nat)
    ensures Digits(n) == if n / 10 > 0 then Digits(n / 10) + [DigitChar(n % 10)] else [DigitChar(n % 10)]
  {
  }

  /** One turn of the digit loop, on values. */
  lemma DigitsStep(n: nat, before: string, all: string)
    requires Digits(n) + Reversed(before) == all
    ensures |before| < |all|
    ensures var after := before + [DigitChar(n % 10)];
      if n / 10 > 0 then Digits(n / 10) + Reversed(after) == all else Reversed(after) == all
  {
    hide Reversed, DigitChar, Digits;
    var c := DigitChar(n % 10);
    ReversedAppend(before, c);
    DigitsUnfold(n);
    if n / 10 > 0 {
      Regroup(Digits(n / 10), c, Reversed(before));
    }
  }

  lemma Regroup(a: string, c: char, b: string)
    ensures (a + [c]) + b == a + ([c] + b)
  {
  }

  lemma NoNulInReverse(s: string, text: string)
    requires Reversed(s) == text && NUL !in text
    ensures NUL !in s
  {
    assert forall k :: 0 <= k < |s| ==> s[k] == text[|s| - 1 - k];
  }

  // ----- parsing

  predicate IsSpace(c: char) { c == ' ' || '\t' <= c <= '\r' }

  /** The value of a character as a digit, or `base` for one that is none. */
  function DigitValue(c: char, base: nat): nat {
    if '0' <= c <= '9' then c as int - '0' as int
    else if 'a' <= c <= 'z' then c as int - 'a' as int + 10
    else if 'A' <= c <= 'Z' then c as int - 'A' as int + 10
    else base
  }

  function Number(s: string, base: nat): nat {
    if s == [] then 0 else Number(s[..|s| - 1], base) * base + DigitValue(s[|s| - 1], base)
  }

  ghost predicate Ended(t: string) { |t| > 0 && t[|t| - 1] == NUL }

  function SkipSpace(t: string, i: nat): (j: nat)
    requires Ended(t) && i < |t|
    ensures i <= j < |t|
    decreases |t| - i
  {
    if IsSpace(t[i]) then SkipSpace(t, i + 1) else i
  }

  function SkipDigits(t: string, i: nat, base: nat): (j: nat)
    requires Ended(t) && i < |t|
    ensures i <= j < |t| && DigitValue(t[j], base) >= base
    ensures forall k :: i <= k < j ==> DigitValue(t[k], base) < base
    decreases |t| - i
  {
    if DigitValue(t[i], base) < base then SkipDigits(t, i + 1, base) else i
  }

  /** Where the digits start, in what base and with what sign. */
  datatype Prefix = BadBase | Prefix(at: nat, base: nat)

  function SignEnd(t: string): (j: nat)
    requires Ended(t)
    ensures j < |t|
  {
    var i := SkipSpace(t, 0);
    if t[i] == '-' || t[i] == '+' then i + 1 else i
  }

  function Negative(t: string): bool
    requires Ended(t)
  {
    t[SkipSpace(t, 0)] == '-'
  }

  function PrefixOf(t: string, base: int): (p: Prefix)
    requires Ended(t)
    ensures p.Prefix? ==> p.at < |t|
  {
    var i := SignEnd(t);
    var hex := t[i] == '0' && (t[i + 1] == 'x' || t[i + 1] == 'X');
    if base == 0 then
      if t[i] != '0' then Prefix(i, 10) else if hex then Prefix(i + 2, 16) else Prefix(i, 8)
    else if base == 16 && t[i] == '0' then (if hex then Prefix(i + 2, 16) else Prefix(i, 16))
    else if base < 0 || 36 < base then BadBase
    else Prefix(i, base)
  }

  /** The digits the text goes on with after its prefix. */
  function DigitsOf(t: string, base: int): string
    requires Ended(t)
  {
    var p := PrefixOf(t, base);
    if p.BadBase? then "" else t[p.at..SkipDigits(t, p.at, p.base)]
  }

  /** The number the text spells, before it is cut to 32 bits. */
  function Spelled(t: string, base: int): int
    requires Ended(t)
  {
    var p := PrefixOf(t, base);
    var n := if p.BadBase? then 0 else Number(DigitsOf(t, base), p.base);
    if Negative(t) then -n else n
  }

  /** The first character not used: the text's own start when there are no digits. */
  function EndOf(t: string, base: int): nat
    requires Ended(t)
  {
    if DigitsOf(t, base) == "" then 0 else PrefixOf(t, base).at + |DigitsOf(t, base)|
  }

  /** A cut that `nn < n` notices. */
  predicate Noticed(s: string, base: nat, k: nat)
    requires k < |s|
  {
    WrapInt(Number(s[..k + 1], base)) < WrapInt(Number(s[..k], base))
  }

  ghost predicate HasNotice(s: string, base: nat) {
    exists k :: 0 <= k < |s| && Noticed(s, base, k)
  }

  /** The overflow flag `strtol` computes. */
  ghost predicate Reported(t: string, base: int)
    requires Ended(t)
  {
    PrefixOf(t, base).Prefix? && HasNotice(DigitsOf(t, base), PrefixOf(t, base).base)
  }

  predicate BelowLimit(v: int) { 0 - WORD_LIMIT < v < WORD_LIMIT }

  /** The bases in which no text overflows without being reported. */
  predicate CatchesAll(base: int) { base < 0 || base == 1 || base == 2 || 36 < base }

  method ScanSpace(t: string) returns (p: nat)
    requires Ended(t)
    ensures p == SkipSpace(t, 0)
  {
    p := 0;
    while t[p] == ' ' || t[p] == '\t' || t[p] == '\n' || t[p] == '\U{0C}' || t[p] == '\r' || t[p] == '\U{0B}'
      invariant p < |t| && SkipSpace(t, 0) == SkipSpace(t, p)
      decreases |t| - p
    {
      p := p + 1;
    }
  }

  lemma NumberOfNothing(s: string, base: nat)
    ensures Number(s[..0], base) == 0
  {
  }

  lemma NumberSnoc(s: string, base: nat, k: nat)
    requires k < |s|
    ensures Number(s[..k + 1], base) == Number(s[..k], base) * base + DigitValue(s[k], base)
  {
    assert s[..k + 1][..k] == s[..k];
  }

  /** Reads digits up to the first character that is none, cutting to 32 bits at every step. */
  method ScanDigits(t: string, at: nat, base: nat) returns (n: int, end: nat, ovfl: bool)
    requires Ended(t) && at < |t|
    ensures end == SkipDigits(t, at, base)
    ensures n == WrapInt(Number(t[at..end], base))
    ensures ovfl <==> HasNotice(t[at..end], base)
  {
    hide WrapInt, Number, DigitValue;
    ghost var digits := t[at..SkipDigits(t, at, base)];
    n, end, ovfl := 0, at, false;
    WrapIntExactly(0);
    NumberOfNothing(digits, base);
    while true
      invariant at <= end <= at + |digits| && SkipDigits(t, at, base) == SkipDigits(t, end, base)
      invariant n == WrapInt(Number(digits[..end - at], base))
      invariant ovfl <==> exists k :: 0 <= k < end - at && Noticed(digits, base, k)
      decreases |t| - end
    {
      var v := DigitValue(t[end], base);
      if v >= base {
        break;
      }
      ghost var k := end - at;
      assert digits[k] == t[end];
      NumberSnoc(digits, base, k);
      WrapIntMulAdd(Number(digits[..k], base), base, v);
      var nn := WrapInt(n * base + v);
      if nn < n {
        ovfl := true;
      }
      assert nn < n <==> Noticed(digits, base, k);
      n := nn;
      end := end + 1;
    }
    assert digits[..end - at] == digits == t[at..end];
  }

  /** The base the digits are read in, and where they start. */
  method ScanBase(t: string, at: nat, base: int) returns (p: nat, b: int, valid: bool)
    requires Ended(t) && at == SignEnd(t)
    ensures p < |t| && (valid ==> b >= 0)
    ensures PrefixOf(t, base) == if valid then Prefix(p, b) else BadBase
  {
    hide SignEnd;
    p, b, valid := at, base, true;
    if b == 0 {
      if t[p] != '0' {
        b := 10;
      } else {
        b := 8;
        if t[p + 1] == 'x' || t[p + 1] == 'X' {
          p := p + 2;
          b := 16;
        }
      }
    } else if b == 16 && t[p] == '0' {
      if t[p + 1] == 'x' || t[p + 1] == 'X' {
        p := p + 2;
      }
    } else if b < 0 || 36 < b {
      valid := false;
    }
  }

  /** `strtol`: the value, the index of the first character not used, and whether a cut was noticed. */
  method Strtol(t: string, base: int) returns (value: int, end: nat, ovfl: bool)
    requires Ended(t)
    ensures value == WrapInt(Spelled(t, base))
    ensures value == Spelled(t, base) <==> FitsInt(Spelled(t, base))
    ensures end == EndOf(t, base)
    ensures ovfl <==> Reported(t, base)
    ensures CatchesAll(base) || BelowLimit(Spelled(t, base)) ==>
              (ovfl <==> !FitsInt(Spelled(t, base)) || Spelled(t, base) == -INT_MAX - 1)
  {
    hide SkipSpace, SkipDigits, WrapInt, Number, HasNotice, PrefixOf;
    if CatchesAll(base) || BelowLimit(Spelled(t, base)) {
      FlagIsRightExactly(t, base);
    }
    WrapIntExactly(Spelled(t, base));
    var at := ScanSpace(t);
    var neg := false;
    if t[at] == '-' || t[at] == '+' {
      neg := t[at] == '-';
      at := at + 1;
    }
    var p, b, valid := ScanBase(t, at, base);
    var n := 0;
    end, ovfl := p, false;
    WrapIntExactly(0);
    if valid {
      n, end, ovfl := ScanDigits(t, p, b);
      WrapIntNeg(Number(DigitsOf(t, base), b));
    }
    if end == p {
      end := 0;
    }
    value := if neg then WrapInt(-n) else n;
  }

  // ----- what a text spells, by its parts

  /** The white space the parser skips, and the digits in order, small and capital. */
  lemma CharactersAre(c: char, k: nat, base: nat)
    ensures IsSpace(c) <==> c in " \t\n\U{0B}\U{0C}\r"
    ensures var s := "0123456789"; |s| == 10 && (k < 10 ==> DigitValue(s[k], base) == k)
    ensures var s := "abcdefghijklmnopqrstuvwxyz"; |s| == 26 && (k < 26 ==> DigitValue(s[k], base) == k + 10)
    ensures var s := "ABCDEFGHIJKLMNOPQRSTUVWXYZ"; |s| == 26 && (k < 26 ==> DigitValue(s[k], base) == k + 10)
    ensures !('0' <= c <= '9') && !('a' <= c <= 'z') && !('A' <= c <= 'Z') ==> DigitValue(c, base) == base
  {
    SmallLetter(k);
    CapitalLetter(k);
  }

  lemma SmallLetter(k: nat)
    ensures var s := "abcdefghijklmnopqrstuvwxyz"; |s| == 26 && (k < 26 ==> s[k] as int == k + 'a' as int)
  {
  }

  lemma CapitalLetter(k: nat)
    ensures var s := "ABCDEFGHIJKLMNOPQRSTUVWXYZ"; |s| == 26 && (k < 26 ==> s[k] as int == k + 'A' as int)
  {
  }

  lemma {:induction false} SkipSpaceTo(t: string, i: nat, j: nat)
    requires Ended(t) && i <= j < |t| && !IsSpace(t[j]) && forall k :: i <= k < j ==> IsSpace(t[k])
    ensures SkipSpace(t, i) == j
    decreases j - i
  {
    if i < j { SkipSpaceTo(t, i + 1, j); }
  }

  lemma SkipDigitsTo(t: string, i: nat, j: nat, base: nat)
    requires Ended(t) && i <= j < |t| && DigitValue(t[j], base) >= base
    requires forall k :: i <= k < j ==> DigitValue(t[k], base) < base
    ensures SkipDigits(t, i, base) == j
  {
    hide DigitValue;
    var e := SkipDigits(t, i, base);
    assert !(e < j) && !(j < e);
  }

  /** `u` starts like a hexadecimal number. */
  predicate HexMark(u: string) { |u| > 1 && u[0] == '0' && (u[1] == 'x' || u[1] == 'X') }

  /** In base `base` the digits of `mark + digits + rest` are read in base `b` after the mark. */
  predicate ReadIn(base: int, b: nat, mark: string, u: string) {
    if mark == "0x" || mark == "0X" then b == 16 && (base == 0 || base == 16)
    else
      && mark == "" && |u| > 0
      && if base == 0 then b == (if u[0] != '0' then 10 else 8) && !HexMark(u)
         else 1 <= base <= 36 && b == base && (base == 16 ==> !HexMark(u))
  }

  /** White space, a sign, a mark of the base, digits, and whatever cannot go on: the number is the digits', with
      the sign, and what follows them is not used. */
  lemma SpelledByParts(space: string, sign: string, mark: string, digits: string, rest: string, base: int, b: nat)
    requires |rest| > 0 && rest[|rest| - 1] == NUL && ReadIn(base, b, mark, digits + rest)
    requires forall k :: 0 <= k < |space| ==> IsSpace(space[k])
    requires sign in {"", "-", "+"}
    requires sign == "" ==> var c := (mark + digits + rest)[0]; !IsSpace(c) && c != '-' && c != '+'
    requires (forall k :: 0 <= k < |digits| ==> DigitValue(digits[k], b) < b) && DigitValue(rest[0], b) >= b
    ensures var t, n: int := space + sign + mark + digits + rest, Number(digits, b);
      && Ended(t) && DigitsOf(t, base) == digits
      && Spelled(t, base) == (if sign == "-" then -n else n)
      && EndOf(t, base) == if digits == "" then 0 else |space| + |sign| + |mark| + |digits|
  {
    hide *;
    var t := space + sign + mark + digits + rest;
    Associate(space + sign, mark, digits, rest);
    EndsLikeRest(mark + digits, rest);
    EndsLikeRest(digits, rest);
    PartsSignEnd(space, sign, mark + digits + rest);
    PartsPrefix(t, space + sign, mark, digits + rest, base, b);
    DigitsFound(t, space + sign + mark, digits, rest, b);
    SpelledIs(t, base, |space + sign + mark|, b, digits);
  }

  lemma Associate(a: string, m: string, d: string, r: string)
    ensures a + m + d + r == a + (m + d + r) == a + m + (d + r)
  {
  }

  lemma EndsLikeRest(a: string, rest: string)
    requires |rest| > 0
    ensures |a + rest| > 0 && (a + rest)[|a + rest| - 1] == rest[|rest| - 1]
  {
  }

  lemma DigitsFound(t: string, before: string, digits: string, rest: string, b: nat)
    requires t == before + digits + rest && Ended(t) && |rest| > 0 && DigitValue(rest[0], b) >= b
    requires forall k :: 0 <= k < |digits| ==> DigitValue(digits[k], b) < b
    ensures SkipDigits(t, |before|, b) == |before| + |digits| && t[|before|..|before| + |digits|] == digits
  {
    hide *;
    var at := |before|;
    MiddleOf(t, before, digits, rest);
    forall k | at <= k < at + |digits| ensures DigitValue(t[k], b) < b { assert t[k] == digits[k - at]; }
    SkipDigitsTo(t, at, at + |digits|, b);
  }

  lemma MiddleOf(t: string, a: string, m: string, r: string)
    requires t == a + m + r && |r| > 0
    ensures |a| + |m| < |t| && t[|a| + |m|] == r[0] && t[|a|..|a| + |m|] == m
    ensures forall k :: |a| <= k < |a| + |m| ==> t[k] == m[k - |a|]
  {
  }

  lemma SpelledIs(t: string, base: int, at: nat, b: nat, digits: string)
    requires Ended(t) && PrefixOf(t, base) == Prefix(at, b) && SkipDigits(t, at, b) == at + |digits|
    requires t[at..at + |digits|] == digits
    ensures DigitsOf(t, base) == digits && EndOf(t, base) == (if digits == "" then 0 else at + |digits|)
    ensures var n: int := Number(digits, b); Spelled(t, base) == if Negative(t) then -n else n
  {
    hide PrefixOf, SkipDigits, Number, Negative;
  }

  /** In a base that is none nothing is read. */
  lemma BadBaseReadsNothing(t: string, base: int)
    requires Ended(t) && (base < 0 || 36 < base)
    ensures Spelled(t, base) == 0 && EndOf(t, base) == 0 && !Reported(t, base)
  {
  }

  lemma PartsSignEnd(space: string, sign: string, u: string)
    requires |u| > 0 && u[|u| - 1] == NUL && sign in {"", "-", "+"}
    requires forall k :: 0 <= k < |space| ==> IsSpace(space[k])
    requires sign == "" ==> !IsSpace(u[0]) && u[0] != '-' && u[0] != '+'
    ensures var t := space + sign + u;
      Ended(t) && SignEnd(t) == |space + sign| && (Negative(t) <==> sign == "-")
  {
    var t := space + sign + u;
    assert t[|space|] == if sign == "" then u[0] else sign[0];
    SkipSpaceTo(t, 0, |space|);
    hide SkipSpace;
  }

  lemma PartsPrefix(t: string, before: string, mark: string, u: string, base: int, b: nat)
    requires |u| > 0 && u[|u| - 1] == NUL && t == before + mark + u && Ended(t) && SignEnd(t) == |before|
    requires ReadIn(base, b, mark, u)
    ensures PrefixOf(t, base) == Prefix(|before + mark|, b)
  {
    hide SignEnd;
    var i := |before|;
    if mark == "" {
      assert t[i] == u[0] && (|u| > 1 ==> t[i + 1] == u[1]);
    } else {
      assert t[i] == mark[0] == '0' && t[i + 1] == mark[1];
    }
  }

  // ----- what parsing makes of a number

  lemma TimesAtLeast(a: nat, b: nat)
    requires b >= 1
    ensures a * b >= a
  {
    assert a * b == a + a * (b - 1);
  }

  lemma {:induction false} PrefixesGrow(s: string, base: nat, k: nat)
    requires k <= |s| && base >= 1
    ensures Number(s[..k], base) <= Number(s, base)
    decreases |s|
  {
    hide DigitValue;
    if k == |s| {
      assert s[..k] == s;
    } else {
      var most := s[..|s| - 1];
      PrefixesGrow(most, base, k);
      assert most[..k] == s[..k];
      TimesAtLeast(Number(most, base), base);
    }
  }

  lemma StepsGrow(s: string, base: nat, k: nat)
    requires k < |s| && base >= 1
    ensures Number(s[..k], base) <= Number(s[..k + 1], base) <= Number(s, base)
  {
    PrefixesGrow(s, base, k + 1);
    PrefixesGrow(s[..k + 1], base, k);
    assert s[..k + 1][..k] == s[..k];
  }

  // ----- when the overflow flag is right

  /** A notice in the digits read so far stays one. */
  lemma NoticeStays(s: string, base: nat, m: nat, k: nat)
    requires k < m <= |s|
    ensures Noticed(s[..m], base, k) <==> Noticed(s, base, k)
  {
    assert s[..m][..k] == s[..k] && s[..m][..k + 1] == s[..k + 1];
  }

  lemma SmallIsQuiet(s: string, base: nat)
    requires base >= 1 && Number(s, base) <= INT_MAX
    ensures !HasNotice(s, base)
  {
    hide Number, WrapInt;
    forall k | 0 <= k < |s| ensures !Noticed(s, base, k) {
      StepsGrow(s, base, k);
      WrapIntExactly(Number(s[..k], base));
      WrapIntExactly(Number(s[..k + 1], base));
    }
  }

  lemma CrossingIsNoticed(n: int, next: int)
    requires 0 <= n <= INT_MAX < next < WORD_LIMIT
    ensures WrapInt(next) < WrapInt(n)
  {
  }

  ghost predicate StepsBelow(s: string, base: nat, k: nat)
    requires k < |s|
  {
    Number(s[..k], base) <= INT_MAX ==> Number(s[..k + 1], base) < WORD_LIMIT
  }

  /** Where the digits first leave the range without passing 2^32, the cut is noticed. */
  lemma {:induction false} CrossingIsFound(s: string, base: nat)
    requires base >= 1 && Number(s, base) > INT_MAX
    requires forall k :: 0 <= k < |s| ==> StepsBelow(s, base, k)
    ensures HasNotice(s, base)
    decreases |s|
  {
    assert s != [];
    var k := |s| - 1;
    assert s[..k + 1] == s && StepsBelow(s, base, k);
    if Number(s[..k], base) <= INT_MAX {
      CrossingIsNoticed(Number(s[..k], base), Number(s, base));
      assert Noticed(s, base, k);
    } else {
      forall j | 0 <= j < k ensures StepsBelow(s[..k], base, j) {
        assert StepsBelow(s, base, j);
        assert s[..k][..j] == s[..j] && s[..k][..j + 1] == s[..j + 1];
      }
      CrossingIsFound(s[..k], base);
      var j :| 0 <= j < k && Noticed(s[..k], base, j);
      NoticeStays(s, base, k, j);
    }
  }

  lemma MiddleIsNoticed(s: string, base: nat)
    requires base >= 1 && INT_MAX < Number(s, base) < WORD_LIMIT
    ensures HasNotice(s, base)
  {
    hide Number, HasNotice;
    forall k | 0 <= k < |s| ensures StepsBelow(s, base, k) {
      StepsGrow(s, base, k);
    }
    CrossingIsFound(s, base);
  }

  lemma BinaryIsNoticed(s: string)
    requires Number(s, 2) > INT_MAX && forall k :: 0 <= k < |s| ==> DigitValue(s[k], 2) < 2
    ensures HasNotice(s, 2)
  {
    hide Number, HasNotice, DigitValue;
    forall k | 0 <= k < |s| ensures StepsBelow(s, 2, k) {
      NumberSnoc(s, 2, k);
    }
    CrossingIsFound(s, 2);
  }

  lemma {:induction false} UnaryIsZero(s: string)
    requires forall k :: 0 <= k < |s| ==> DigitValue(s[k], 1) < 1
    ensures Number(s, 1) == 0
  {
    if s != [] {
      UnaryIsZero(s[..|s| - 1]);
    }
  }

  lemma DigitsAreDigits(t: string, base: int)
    requires Ended(t) && PrefixOf(t, base).Prefix?
    ensures var p := PrefixOf(t, base);
      && p.base >= 1 && (CatchesAll(base) ==> p.base <= 2)
      && forall k :: 0 <= k < |DigitsOf(t, base)| ==> DigitValue(DigitsOf(t, base)[k], p.base) < p.base
  {
    hide SignEnd, SkipDigits, DigitValue;
  }

  /** Whether the flag is set, told from the number alone. */
  lemma ReportedBySize(t: string, base: int)
    requires Ended(t)
    ensures -INT_MAX <= Spelled(t, base) <= INT_MAX ==> !Reported(t, base)
    ensures CatchesAll(base) || BelowLimit(Spelled(t, base)) ==>
              (Reported(t, base) <==> !(-INT_MAX <= Spelled(t, base) <= INT_MAX))
  {
    hide PrefixOf, DigitsOf, Number, HasNotice, DigitValue, Negative;
    var p, s := PrefixOf(t, base), DigitsOf(t, base);
    if p.Prefix? {
      DigitsAreDigits(t, base);
      if Number(s, p.base) <= INT_MAX {
        SmallIsQuiet(s, p.base);
      } else if Number(s, p.base) < WORD_LIMIT {
        MiddleIsNoticed(s, p.base);
      } else if p.base == 2 {
        BinaryIsNoticed(s);
      } else if p.base == 1 {
        UnaryIsZero(s);
      }
    }
  }

  /** Up to 2^32, and in bases that catch everything for any number, the flag tells an overflow exactly unless
      the number is the most negative `long`: that one fits and is reported. */
  lemma FlagIsRightExactly(t: string, base: int)
    requires Ended(t) && (CatchesAll(base) || BelowLimit(Spelled(t, base)))
    ensures (Reported(t, base) <==> !FitsInt(Spelled(t, base))) <==> Spelled(t, base) != -INT_MAX - 1
    ensures Spelled(t, base) == -INT_MAX - 1 ==> Reported(t, base)
  {
    hide Spelled, Reported;
    ReportedBySize(t, base);
  }

  /** In every base, the false alarms are exactly the texts of the most negative `long`. */
  lemma FalseAlarmExactly(t: string, base: int)
    requires Ended(t)
    ensures Reported(t, base) && FitsInt(Spelled(t, base)) <==> Spelled(t, base) == -INT_MAX - 1
  {
    hide Spelled, Reported;
    ReportedBySize(t, base);
  }

  // ----- texts that slip through

  lemma DigitsAreScanned(t: string, at: nat, s: string, base: nat)
    requires Ended(t) && at + |s| < |t| && t[at..at + |s|] == s && t[at + |s|] == NUL
    requires forall k :: 0 <= k < |s| ==> DigitValue(s[k], base) < base
    ensures SkipDigits(t, at, base) == at + |s|
  {
    forall i | at <= i < at + |s| ensures DigitValue(t[i], base) < base {
      assert t[i] == s[i - at];
    }
    assert DigitValue(NUL, base) == base;
  }

  function DigitIn(v: nat): char
    requires v < 36
  {
    if v < 10 then (v + '0' as int) as char else (v - 10 + 'a' as int) as char
  }

  /** The digits of `n > 0` in a base, the highest first. */
  function DigitText(n: nat, base: nat): string
    requires 2 <= base <= 36
  {
    if n < base then [DigitIn(n)] else Shrinks(n, base); DigitText(n / base, base) + [DigitIn(n % base)]
  }

  lemma ProductSize(q: int, base: nat)
    requires 2 <= base
    ensures if q <= 0 then q * base <= 0 else q * base >= 2 * q
  {
    if q > 0 {
      assert q * (base - 2) >= 0;
      assert q * base == q * (base - 2) + 2 * q;
    }
  }

  lemma QuotientBetween(n: nat, q: int, r: nat, base: nat)
    requires n == q * base + r && r < base <= n && 2 <= base
    ensures 0 < q < n
  {
    ProductSize(q, base);
  }

  lemma Shrinks(n: nat, base: nat)
    requires 2 <= base <= n
    ensures 0 < n / base < n && n == n / base * base + n % base
  {
    QuotientBetween(n, n / base, n % base, base);
  }

  /** A digit string that reads as a number: no zero, blank, sign or prefix in front. */
  ghost predicate Plain(s: string, base: nat) {
    s != [] && s[0] != '0' && forall k :: 0 <= k < |s| ==> DigitValue(s[k], base) < base
  }

  lemma DigitSnoc(s: string, v: nat, base: nat)
    requires Plain(s, base) && v < base <= 36
    ensures Plain(s + [DigitIn(v)], base) && Number(s + [DigitIn(v)], base) == Number(s, base) * base + v
  {
    assert (s + [DigitIn(v)])[..|s|] == s;
  }

  lemma OneDigit(n: nat, base: nat)
    requires 0 < n < base <= 36
    ensures Plain([DigitIn(n)], base) && Number([DigitIn(n)], base) == n
  {
    assert [DigitIn(n)][..0] == "";
  }

  lemma {:induction false} DigitTextReads(n: nat, base: nat)
    requires 2 <= base <= 36 && n > 0
    ensures Plain(DigitText(n, base), base) && Number(DigitText(n, base), base) == n
  {
    hide Plain, Number, DigitIn;
    if n >= base {
      Shrinks(n, base);
      DigitTextReads(n / base, base);
      DigitSnoc(DigitText(n / base, base), n % base, base);
    } else {
      OneDigit(n, base);
    }
  }

  function Effective(base: int): int { if base == 0 then 10 else base }

  function TextOf(s: string, negative: bool): string { (if negative then "-" else "") + s + [NUL] }

  lemma PlainTextReads(s: string, base: int, negative: bool)
    requires (base == 0 || 2 <= base <= 36) && Plain(s, Effective(base))
    ensures var t := TextOf(s, negative);
      && Ended(t) && PrefixOf(t, base) == Prefix(if negative then 1 else 0, Effective(base))
      && DigitsOf(t, base) == s
      && Spelled(t, base) == (if negative then 0 - Number(s, Effective(base)) else Number(s, Effective(base)))
  {
    hide Number;
    var t, at := TextOf(s, negative), if negative then 1 else 0;
    assert t[0] == (if negative then '-' else s[0]) && t[at] == s[0];
    assert DigitValue(s[0], Effective(base)) < Effective(base);
    assert SkipSpace(t, 0) == 0 && SignEnd(t) == at;
    assert t[at..at + |s|] == s;
    DigitsAreScanned(t, at, s, Effective(base));
  }

  /** All but the last digit, and the last digit, of a number that wraps round to no less than it was. */
  function SlipHead(base: nat): nat
    requires 3 <= base
  {
    if base == 3 then INT_MAX else WORD_LIMIT / (base - 1) + 1
  }

  function SlipTail(base: nat): nat { if base == 3 then 2 else 0 }

  lemma SlipWraps(base: nat)
    requires 3 <= base <= 36
    ensures var n, next := SlipHead(base), SlipHead(base) * base + SlipTail(base);
      0 < n <= INT_MAX && WORD_LIMIT <= next && WrapInt(next) == next - WORD_LIMIT >= n == WrapInt(n)
  {
    hide WrapInt;
    var n := SlipHead(base);
    if base > 3 {
      SlipSize(base, WORD_LIMIT / (base - 1), WORD_LIMIT % (base - 1));
    }
    WrapsOnce(n * base + SlipTail(base));
    WrapIntExactly(n);
  }

  lemma SlipSize(base: nat, q: nat, r: nat)
    requires 4 <= base <= 36 && WORD_LIMIT == q * (base - 1) + r && r < base - 1
    ensures 3 * q <= WORD_LIMIT && (q + 1) * base == WORD_LIMIT - r + q + base
  {
    assert q * (base - 1) == 3 * q + q * (base - 4) && q * (base - 4) >= 0;
    assert (q + 1) * base == q * (base - 1) + q + base;
  }

  lemma WrapsOnce(v: int)
    requires WORD_LIMIT <= v <= WORD_LIMIT + INT_MAX
    ensures WrapInt(v) == v - WORD_LIMIT
  {
  }

  function SlipDigits(base: nat): string
    requires 3 <= base <= 36
  {
    DigitText(SlipHead(base), base) + [DigitIn(SlipTail(base))]
  }

  lemma SlipDigitsAreQuiet(base: nat)
    requires 3 <= base <= 36
    ensures var s := SlipDigits(base);
      Plain(s, base) && Number(s, base) == SlipHead(base) * base + SlipTail(base) && !HasNotice(s, base)
  {
    hide Number, WrapInt, DigitText, SlipHead;
    var n, head, s := SlipHead(base), DigitText(SlipHead(base), base), SlipDigits(base);
    SlipWraps(base);
    DigitTextReads(n, base);
    var last := |head|;
    DigitSnoc(head, SlipTail(base), base);
    assert s[..last] == head && s[..last + 1] == s;
    SmallIsQuiet(head, base);
    forall k | 0 <= k < |s| ensures !Noticed(s, base, k) {
      if k < last {
        NoticeStays(s, base, last, k);
      }
    }
  }

  /** From base 3 on a text overflows without being reported; in decimal it is 4772185890, read as 477218594. */
  lemma OverflowSlipsThrough(base: int)
    requires base == 0 || 3 <= base <= 36
    ensures var t := TextOf(SlipDigits(Effective(base)), false);
      && Ended(t) && Spelled(t, base) == SlipHead(Effective(base)) * Effective(base) + SlipTail(Effective(base))
      && !FitsInt(Spelled(t, base)) && !Reported(t, base)
    ensures SlipHead(10) * 10 + SlipTail(10) == 4772185890 && WrapInt(4772185890) == 477218594
  {
    var b := Effective(base);
    assert SlipHead(10) * 10 + SlipTail(10) == 4772185890 && WrapInt(4772185890) == 477218594;
    hide SlipDigits, Number, WrapInt, HasNotice, SlipHead, PrefixOf, DigitsOf, Spelled;
    SlipDigitsAreQuiet(b);
    SlipWraps(b);
    PlainTextReads(SlipDigits(b), base, false);
  }

  /** Every overflow of every text is reported exactly in the bases 1 and 2 and where there is no base at all. */
  lemma EveryOverflowReportedExactly(base: int)
    ensures (forall t: string :: Ended(t) && !FitsInt(Spelled(t, base)) ==> Reported(t, base)) <==> CatchesAll(base)
  {
    hide Spelled, Reported, Ended;
    if CatchesAll(base) {
      forall t: string | Ended(t) && !FitsInt(Spelled(t, base)) ensures Reported(t, base) {
        FlagIsRightExactly(t, base);
      }
    } else {
      OverflowSlipsThrough(base);
    }
  }

  /** The flag is right for every text exactly where no number past 0 can be spelled at all: base 2 still has the
      false alarm. */
  lemma FlagAlwaysRightExactly(base: int)
    ensures (forall t: string :: Ended(t) ==> (Reported(t, base) <==> !FitsInt(Spelled(t, base))))
            <==> base < 0 || base == 1 || 36 < base
  {
    if base < 0 || base == 1 || 36 < base {
      forall t: string | Ended(t) ensures Reported(t, base) <==> !FitsInt(Spelled(t, base)) {
        NothingSpelled(t, base);
        FlagIsRightExactly(t, base);
      }
    } else {
      hide Spelled, Reported, Ended, FitsInt;
      MostNegativeText(base);
    }
  }

  lemma NothingSpelled(t: string, base: int)
    requires Ended(t) && (base < 0 || base == 1 || 36 < base)
    ensures Spelled(t, base) == 0
  {
    hide SignEnd, SkipDigits, DigitValue, Number;
    if PrefixOf(t, base).Prefix? {
      DigitsAreDigits(t, base);
      UnaryIsZero(DigitsOf(t, base));
    }
  }

  lemma MostNegativeText(base: int)
    requires base == 0 || 2 <= base <= 36
    ensures var t := TextOf(DigitText(INT_MAX + 1, Effective(base)), true);
      Ended(t) && Spelled(t, base) == -INT_MAX - 1 && Reported(t, base) && FitsInt(Spelled(t, base))
  {
    hide DigitText, Number, PrefixOf, DigitsOf, Spelled, Reported;
    var s := DigitText(INT_MAX + 1, Effective(base));
    DigitTextReads(INT_MAX + 1, Effective(base));
    PlainTextReads(s, base, true);
    FalseAlarmExactly(TextOf(s, true), base);
  }

  lemma {:induction false} DigitsSpellTheNumber(n: nat)
    ensures Number(Digits(n), 10) == n
  {
    if n >= 10 {
      DigitsSpellTheNumber(n / 10);
      assert Digits(n)[..|Digits(n)| - 1] == Digits(n / 10);
    } else {
      assert Digits(n)[..0] == "";
    }
  }

  /** A digit or a minus sign opens the printed text, so it has no blanks, no plus and no other base. */
  lemma PrintedPrefix(n: int)
    ensures var t := DecimalText(n) + [NUL];
      && Ended(t) && (Negative(t) <==> n < 0)
      && PrefixOf(t, 10) == Prefix(if n < 0 then 1 else 0, 10)
      && DigitsOf(t, 10) == Digits(if n < 0 then -n else n)
  {
    hide Digits;
    var t := DecimalText(n) + [NUL];
    var digits := Digits(if n < 0 then -n else n);
    var at := if n < 0 then 1 else 0;
    assert t[0] == if n < 0 then '-' else digits[0];
    assert SkipSpace(t, 0) == 0 && SignEnd(t) == at && PrefixOf(t, 10) == Prefix(at, 10);
    assert t[at..at + |digits|] == digits;
    DigitsAreScanned(t, at, digits, 10);
  }

  /** Parsing what was printed gives the number back, and uses the whole text, for every `int` that can be
      negated. */
  lemma ParseUndoesPrint(n: int)
    requires -INT_MAX <= n <= INT_MAX
    ensures var t := DecimalText(n) + [NUL];
      Ended(t) && Spelled(t, 10) == WrapInt(Spelled(t, 10)) == n && EndOf(t, 10) == |DecimalText(n)|
  {
    hide Digits, PrefixOf, DigitsOf, WrapInt, Negative;
    PrintedPrefix(n);
    DigitsSpellTheNumber(if n < 0 then -n else n);
    WrapIntExactly(n);
  }
}
