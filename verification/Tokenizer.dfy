/** Splitting a string at delimiters, one call at a time: the resumable tokenizer and what it yields over a
    whole run of calls. */
module Tokenizer {

  const NUL: char := '\0'

  /** A `char_t*`: NULL, or an index into the text. */
  datatype Cursor = Null | At(index: nat)

  /** A delimiter string: NULL, or its characters before the NUL. */
  datatype Delimiters = Missing | Chars(chars: string) {
    ghost predicate Valid() { Chars? ==> NUL !in chars }
  }

  /** The string at `i` ends inside the text. */
  ghost predicate Ends(t: string, i: nat) {
    exists e :: i <= e < |t| && t[e] == NUL
  }

  lemma EndsLater(t: string, i: nat)
    requires Ends(t, i) && t[i] != NUL
    ensures Ends(t, i + 1)
  {
    var e :| i <= e < |t| && t[e] == NUL;
    assert i + 1 <= e;
  }

  /** The first place from `i` on that holds no delimiter. */
  ghost function FirstKept(t: string, d: string, i: nat): (a: nat)
    requires Ends(t, i) && NUL !in d
    ensures i <= a < |t| && t[a] !in d && Ends(t, a)
    ensures forall k :: i <= k < a ==> t[k] in d
    decreases |t| - i
  {
    if t[i] in d then EndsLater(t, i); FirstKept(t, d, i + 1) else i
  }

  /** The first place from `i` on that holds a delimiter or the NUL. */
  ghost function RunEnd(t: string, d: string, i: nat): (b: nat)
    requires Ends(t, i)
    ensures i <= b < |t| && (t[b] == NUL || t[b] in d) && (t[b] != NUL ==> Ends(t, b + 1))
    ensures forall k :: i <= k < b ==> t[k] != NUL && t[k] !in d
    decreases |t| - i
  {
    if t[i] == NUL || t[i] in d then (if t[i] != NUL then EndsLater(t, i); i else i)
    else EndsLater(t, i); RunEnd(t, d, i + 1)
  }

  lemma FirstKeptStep(t: string, d: string, i: nat)
    requires Ends(t, i) && NUL !in d
    ensures i < |t|
    ensures t[i] in d ==> Ends(t, i + 1) && FirstKept(t, d, i) == FirstKept(t, d, i + 1)
    ensures t[i] !in d ==> FirstKept(t, d, i) == i
  {
    if t[i] in d { EndsLater(t, i); }
  }

  lemma RunEndStep(t: string, d: string, i: nat)
    requires Ends(t, i)
    ensures i < |t|
    ensures t[i] != NUL && t[i] !in d ==> Ends(t, i + 1) && RunEnd(t, d, i) == RunEnd(t, d, i + 1)
    ensures t[i] == NUL || t[i] in d ==> RunEnd(t, d, i) == i
  {
    if t[i] != NUL { EndsLater(t, i); }
  }

  // ----- one call

  /** What a call leaves behind: its result, the text and the saved cursor. */
  datatype Outcome = Outcome(token: Cursor, text: string, saved: Cursor)

  ghost function Next(t: string, d: string, i: nat): Outcome
    requires Ends(t, i) && NUL !in d
  {
    var a := FirstKept(t, d, i);
    if t[a] == NUL then Outcome(Null, t, Null)
    else
      var b := RunEnd(t, d, a);
      if t[b] == NUL then Outcome(At(a), t, Null) else Outcome(At(a), t[b := NUL], At(b + 1))
  }

  /** Where a call reads: the text given, or else the saved place. */
  function Source(s: Cursor, saved: Cursor): Cursor { if s.Null? then saved else s }

  ghost predicate Readable(t: string, from: Cursor, d: Delimiters) {
    d.Chars? && from.At? ==> Ends(t, from.index)
  }

  ghost function Call(t: string, saved: Cursor, s: Cursor, d: Delimiters): Outcome
    requires d.Valid() && Readable(t, Source(s, saved), d)
  {
    var from := Source(s, saved);
    if d.Missing? || from.Null? then Outcome(Null, t, saved) else Next(t, d.chars, from.index)
  }

  /** Holds the cursor between calls, as `*p` does. */
  class Resume {
    var saved: Cursor

    method StrtokR(text: array<char>, s: Cursor, d: Delimiters) returns (token: Cursor)
      requires d.Valid() && Readable(text[..], Source(s, saved), d)
      modifies this, text
      ensures Outcome(token, text[..], saved) == Call(old(text[..]), old(saved), s, d)
    {
      hide FirstKept, RunEnd, Ends;
      var from := Source(s, saved);
      if d.Missing? || from.Null? {
        return Null;
      }
      ghost var t := text[..];
      var i, again := from.index, true;
      while again
        invariant text[..] == t && saved == old(saved) && Ends(t, i)
        invariant FirstKept(t, d.chars, i) == FirstKept(t, d.chars, from.index)
        invariant !again ==> i == FirstKept(t, d.chars, from.index)
        decreases text.Length - i, again
      {
        FirstKeptStep(t, d.chars, i);
        again := Matches(d.chars, text[i]);
        if again { i := i + 1; }
      }
      if text[i] == NUL {
        saved := Null;
        return Null;
      }
      token := At(i);
      ghost var a := i;
      var running := true;
      while running
        invariant a <= i && text[..] == t && saved == old(saved) && Ends(t, i)
        invariant RunEnd(t, d.chars, i) == RunEnd(t, d.chars, a)
        invariant !running ==> i == RunEnd(t, d.chars, a)
        decreases text.Length - i, running
      {
        RunEndStep(t, d.chars, i);
        var found := Matches(d.chars, text[i]);
        if found || text[i] == NUL { running := false; } else { i := i + 1; }
      }
      if text[i] == NUL {
        saved := Null;
      } else {
        text[i] := NUL;
        saved := At(i + 1);
      }
    }
  }

  /** One scan of the delimiter string. */
  method Matches(d: string, c: char) returns (found: bool)
    ensures found <==> c in d
  {
    var sp := 0;
    while sp < |d|
      invariant sp <= |d| && c !in d[..sp]
    {
      if d[sp] == c {
        return true;
      }
      sp := sp + 1;
    }
    return false;
  }

  // ----- a run of calls

  /** The results of `n` calls without a text that go on from `from`, and the text after them. */
  datatype Trace = Trace(tokens: seq<Cursor>, text: string)

  ghost function Calls(t: string, d: string, from: Cursor, n: nat): Trace
    requires NUL !in d && (from.At? ==> Ends(t, from.index))
    decreases n
  {
    if n == 0 then Trace([], t)
    else
      var o := Call(t, from, Null, Chars(d));
      if from.At? then SavedEnds(t, d, from.index);
        var rest := Calls(o.text, d, o.saved, n - 1);
        Trace([o.token] + rest.tokens, rest.text)
      else
        var rest := Calls(o.text, d, o.saved, n - 1);
        Trace([o.token] + rest.tokens, rest.text)
  }

  ghost predicate SameFrom(t: string, u: string, i: nat) {
    |t| == |u| && forall k :: i <= k < |t| ==> t[k] == u[k]
  }

  /** The saved cursor lies past every byte written, so the text ahead of it is untouched. */
  lemma SavedEnds(t: string, d: string, i: nat)
    requires Ends(t, i) && NUL !in d
    ensures var o := Next(t, d, i);
      && |o.text| == |t|
      && (o.saved.At? ==> i < o.saved.index <= |t| && Ends(o.text, o.saved.index)
                          && SameFrom(o.text, t, o.saved.index))
  {
    var o := Next(t, d, i);
    if o.saved.At? {
      var e :| o.saved.index <= e < |t| && t[e] == NUL;
      assert o.text[e] == NUL;
    }
  }

  predicate Kept(w: string, d: string, k: int) { 0 <= k < |w| && w[k] !in d }

  /** A maximal piece of `w` without a delimiter. */
  ghost predicate IsRun(w: string, d: string, a: nat, b: nat) {
    a < b <= |w| && (forall k :: a <= k < b ==> Kept(w, d, k)) && !Kept(w, d, a - 1) && !Kept(w, d, b)
  }

  datatype Piece = Piece(from: nat, end: nat)

  /** The pieces the calls find from `i` on in an unchanged text. */
  ghost function Pieces(t: string, d: string, i: nat): seq<Piece>
    requires Ends(t, i) && NUL !in d
    decreases |t| - i
  {
    var a := FirstKept(t, d, i);
    if t[a] == NUL then []
    else
      var b := RunEnd(t, d, a);
      [Piece(a, b)] + if t[b] == NUL then [] else Pieces(t, d, b + 1)
  }

  ghost predicate Ascending(p: seq<Piece>, i: nat) {
    && (forall j :: 0 <= j < |p| ==> i <= p[j].from < p[j].end)
    && (forall j, k :: 0 <= j < k < |p| ==> p[j].end < p[k].from)
  }

  /** The NUL-ended text seen through the piece's own characters. */
  lemma SearchesKept(w: string, d: string, i: nat)
    requires NUL !in w && NUL !in d && i <= |w|
    ensures var t := w + [NUL]; Ends(t, i)
    ensures var a := FirstKept(w + [NUL], d, i);
      a <= |w| && ((w + [NUL])[a] == NUL <==> a == |w|) && (forall k :: i <= k < a ==> !Kept(w, d, k))
      && (a < |w| ==> Kept(w, d, a))
    ensures var b := RunEnd(w + [NUL], d, i);
      b <= |w| && ((w + [NUL])[b] == NUL <==> b == |w|) && (forall k :: i <= k < b ==> Kept(w, d, k)) && !Kept(w, d, b)
  {
    hide FirstKept, RunEnd;
    var t := w + [NUL];
    assert t[|w|] == NUL;
    assert forall k :: 0 <= k < |w| ==> t[k] == w[k] && w[k] != NUL;
    var a, b := FirstKept(t, d, i), RunEnd(t, d, i);
    assert a < |w| ==> t[a] == w[a];
    assert b < |w| ==> t[b] == w[b];
    forall k | i <= k < a ensures !Kept(w, d, k) { assert t[k] in d; }
    forall k | i <= k < b ensures Kept(w, d, k) { assert t[k] !in d; }
  }

  lemma FirstPieceIsARun(w: string, d: string, i: nat)
    requires NUL !in w && NUL !in d && i <= |w| && !Kept(w, d, i - 1)
    ensures Ends(w + [NUL], i)
    ensures var t := w + [NUL];
      var a := FirstKept(t, d, i);
      && (forall k :: i <= k < a ==> !Kept(w, d, k))
      && (if t[a] == NUL then a == |w| else
          var b := RunEnd(t, d, a); IsRun(w, d, a, b) && (t[b] == NUL <==> b == |w|) && b <= |w|)
  {
    hide FirstKept, RunEnd, Kept;
    SearchesKept(w, d, i);
    var t := w + [NUL];
    var a := FirstKept(t, d, i);
    SearchesKept(w, d, a);
    var b := RunEnd(t, d, a);
    if t[a] != NUL {
      assert Kept(w, d, a) && !Kept(w, d, b);
    }
  }

  /** The pieces are the runs that start at `i` or later, all of them. */
  ghost predicate AreTheRuns(p: seq<Piece>, w: string, d: string, i: nat) {
    forall a: nat, b: nat :: Piece(a, b) in p <==> i <= a && IsRun(w, d, a, b)
  }

  /** The pieces found are exactly the maximal delimiter-free ones, in order. */
  lemma {:induction false} PiecesAreTheRuns(w: string, d: string, i: nat)
    requires NUL !in w && NUL !in d && i <= |w| && !Kept(w, d, i - 1)
    ensures Ends(w + [NUL], i)
    ensures Ascending(Pieces(w + [NUL], d, i), i) && AreTheRuns(Pieces(w + [NUL], d, i), w, d, i)
    decreases |w| - i
  {
    hide Ends, FirstKept, RunEnd, IsRun, Ascending, Kept, AreTheRuns, Pieces;
    var t := w + [NUL];
    FirstPieceIsARun(w, d, i);
    var a := FirstKept(t, d, i);
    PiecesStep(t, d, i, a, RunEnd(t, d, a));
    if t[a] == NUL {
      NoRunsLeft(w, d, i);
    } else {
      var b := RunEnd(t, d, a);
      EndsUnkept(w, d, a, b);
      if b < |w| {
        PiecesAreTheRuns(w, d, b + 1);
        FirstOfTheRuns(w, d, i, a, b, Pieces(t, d, b + 1));
      } else {
        NoRunsLeft(w, d, b + 1);
        FirstOfTheRuns(w, d, i, a, b, []);
        assert [Piece(a, b)] + [] == [Piece(a, b)];
      }
    }
  }

  lemma PieceIsARun(p: seq<Piece>, w: string, d: string, i: nat, j: nat)
    requires AreTheRuns(p, w, d, i) && j < |p|
    ensures IsRun(w, d, p[j].from, p[j].end)
  {
    assert p[j] == Piece(p[j].from, p[j].end);
  }

  lemma EndsUnkept(w: string, d: string, a: nat, b: nat)
    requires IsRun(w, d, a, b)
    ensures !Kept(w, d, b) && a < b <= |w|
  {
  }

  lemma NoRunsLeft(w: string, d: string, i: nat)
    requires forall k :: i <= k < |w| ==> !Kept(w, d, k)
    ensures Ascending([], i) && AreTheRuns([], w, d, i)
  {
    forall x: nat, y: nat | i <= x ensures !IsRun(w, d, x, y) {
      assert !Kept(w, d, x);
    }
  }

  lemma FirstOfTheRuns(w: string, d: string, i: nat, a: nat, b: nat, rest: seq<Piece>)
    requires i <= a && IsRun(w, d, a, b) && forall k :: i <= k < a ==> !Kept(w, d, k)
    requires Ascending(rest, b + 1) && AreTheRuns(rest, w, d, b + 1)
    ensures Ascending([Piece(a, b)] + rest, i) && AreTheRuns([Piece(a, b)] + rest, w, d, i)
  {
    forall x: nat, y: nat ensures Piece(x, y) in [Piece(a, b)] + rest <==> i <= x && IsRun(w, d, x, y) {
      if i <= x <= b && IsRun(w, d, x, y) {
        OnlyRun(w, d, i, a, b, x, y);
      }
    }
  }

  /** The first run is the only one that starts at its end or before. */
  lemma OnlyRun(w: string, d: string, i: nat, a: nat, b: nat, x: nat, y: nat)
    requires i <= a && IsRun(w, d, a, b) && IsRun(w, d, x, y) && i <= x <= b
    requires forall k :: i <= k < a ==> !Kept(w, d, k)
    ensures x == a && y == b
  {
    hide Kept;
    assert Kept(w, d, x) && !Kept(w, d, b) && !Kept(w, d, x - 1) && !Kept(w, d, y);
  }

  /** Where the calls look, only the text ahead matters. */
  lemma {:induction false} SearchLooksAhead(t: string, u: string, d: string, i: nat)
    requires SameFrom(t, u, i) && Ends(t, i) && NUL !in d
    ensures Ends(u, i) && FirstKept(t, d, i) == FirstKept(u, d, i) && RunEnd(t, d, i) == RunEnd(u, d, i)
    decreases |t| - i
  {
    hide FirstKept, RunEnd;
    var e :| i <= e < |t| && t[e] == NUL;
    assert u[e] == NUL;
    FirstKeptStep(t, d, i);
    FirstKeptStep(u, d, i);
    RunEndStep(t, d, i);
    RunEndStep(u, d, i);
    if t[i] != NUL {
      EndsLater(t, i);
      SearchLooksAhead(t, u, d, i + 1);
    }
  }

  lemma PiecesStep(t: string, d: string, i: nat, a: nat, b: nat)
    requires Ends(t, i) && NUL !in d && a == FirstKept(t, d, i) && b == RunEnd(t, d, a)
    ensures t[a] == NUL ==> Pieces(t, d, i) == []
    ensures t[a] != NUL && t[b] == NUL ==> Pieces(t, d, i) == [Piece(a, b)]
    ensures t[a] != NUL && t[b] != NUL ==> Pieces(t, d, i) == [Piece(a, b)] + Pieces(t, d, b + 1)
  {
    hide FirstKept, RunEnd, Ends;
    if t[a] != NUL && t[b] == NUL {
      assert [Piece(a, b)] + [] == [Piece(a, b)];
    }
  }

  lemma {:induction false} PiecesLookAhead(t: string, u: string, d: string, i: nat)
    requires SameFrom(t, u, i) && Ends(t, i) && NUL !in d
    ensures Ends(u, i) && Pieces(t, d, i) == Pieces(u, d, i)
    decreases |t| - i
  {
    hide FirstKept, RunEnd, Ends, Pieces;
    SearchLooksAhead(t, u, d, i);
    var a := FirstKept(t, d, i);
    SearchLooksAhead(t, u, d, a);
    var b := RunEnd(t, d, a);
    PiecesStep(t, d, i, a, b);
    PiecesStep(u, d, i, a, b);
    if t[b] != NUL {
      PiecesLookAhead(t, u, d, b + 1);
    }
  }

  ghost predicate EndedBy(p: seq<Piece>, n: nat, k: int) {
    exists j :: 0 <= j < n && j < |p| && p[j].end == k
  }

  /** The text after `n` calls: the place that ends each token already returned holds NUL. */
  ghost predicate Marked(after: string, before: string, p: seq<Piece>, n: nat) {
    && |after| == |before|
    && forall k :: 0 <= k < |before| ==> after[k] == if EndedBy(p, n, k) then NUL else before[k]
  }

  ghost predicate Yields(tokens: seq<Cursor>, p: seq<Piece>, n: nat) {
    |tokens| == n && forall j :: 0 <= j < n ==> tokens[j] == if j < |p| then At(p[j].from) else Null
  }

  lemma {:induction false} SpentCalls(t: string, d: string, n: nat)
    requires NUL !in d
    ensures Calls(t, d, Null, n).text == t && Yields(Calls(t, d, Null, n).tokens, [], n)
  {
    if n > 0 {
      SpentCalls(t, d, n - 1);
    }
  }

  lemma MarkFirst(after: string, before: string, b: nat, rest: seq<Piece>, a: nat, n: nat)
    requires b < |before| && Marked(after, before[b := NUL], rest, n)
    ensures Marked(after, before, [Piece(a, b)] + rest, n + 1)
  {
    var p := [Piece(a, b)] + rest;
    forall k | 0 <= k < |before| ensures EndedBy(p, n + 1, k) <==> k == b || EndedBy(rest, n, k) {
      assert p[0].end == b;
      assert forall j :: 0 <= j < |rest| ==> p[j + 1].end == rest[j].end;
      if EndedBy(p, n + 1, k) {
        var j :| 0 <= j < n + 1 && j < |p| && p[j].end == k;
        assert j > 0 ==> rest[j - 1].end == k;
      }
      if EndedBy(rest, n, k) {
        var j :| 0 <= j < n && j < |rest| && rest[j].end == k;
        assert p[j + 1].end == k;
      }
    }
  }

  lemma CallsStep(t: string, d: string, i: nat, n: nat)
    requires Ends(t, i) && NUL !in d && n > 0
    ensures var o := Next(t, d, i);
      && (o.saved.At? ==> Ends(o.text, o.saved.index))
      && Calls(t, d, At(i), n).tokens == [o.token] + Calls(o.text, d, o.saved, n - 1).tokens
      && Calls(t, d, At(i), n).text == Calls(o.text, d, o.saved, n - 1).text
  {
    hide Next, Ends;
    SavedEnds(t, d, i);
  }

  lemma YieldsFirst(tokens: seq<Cursor>, a: nat, b: nat, rest: seq<Piece>, n: nat)
    requires Yields(tokens, rest, n)
    ensures Yields([At(a)] + tokens, [Piece(a, b)] + rest, n + 1)
  {
  }

  lemma YieldsNothing(tokens: seq<Cursor>, n: nat)
    requires Yields(tokens, [], n)
    ensures Yields([Null] + tokens, [], n + 1)
  {
  }

  /** Call after call finds piece after piece, then NULL for ever. */
  lemma {:induction false} CallsFollowPieces(t: string, d: string, i: nat, n: nat)
    requires Ends(t, i) && NUL !in d
    ensures Yields(Calls(t, d, At(i), n).tokens, Pieces(t, d, i), n)
    ensures Marked(Calls(t, d, At(i), n).text, t, Pieces(t, d, i), n)
    decreases n
  {
    hide FirstKept, RunEnd, Ends, Marked, Yields, Pieces, Calls, SameFrom;
    if n == 0 {
      NoCalls(t, d, i);
    } else {
      CallsStep(t, d, i, n);
      var o := Next(t, d, i);
      var a := FirstKept(t, d, i);
      var b := RunEnd(t, d, a);
      PiecesStep(t, d, i, a, b);
      if t[a] == NUL {
        SpentCalls(t, d, n - 1);
        YieldsNothing(Calls(t, d, Null, n - 1).tokens, n - 1);
        MarkNoPiece(t, n);
      } else if t[b] == NUL {
        SpentCalls(t, d, n - 1);
        YieldsFirst(Calls(t, d, Null, n - 1).tokens, a, b, [], n - 1);
        MarkNoPiece(t, n - 1);
        assert t[b := NUL] == t && [Piece(a, b)] + [] == [Piece(a, b)];
        MarkFirst(t, t, b, [], a, n - 1);
      } else {
        SavedEnds(t, d, i);
        CallsFollowPieces(o.text, d, b + 1, n - 1);
        PiecesLookAhead(o.text, t, d, b + 1);
        var rest := Pieces(t, d, b + 1);
        YieldsFirst(Calls(o.text, d, o.saved, n - 1).tokens, a, b, rest, n - 1);
        MarkFirst(Calls(t, d, At(i), n).text, t, b, rest, a, n - 1);
      }
    }
  }

  lemma NoCalls(t: string, d: string, i: nat)
    requires Ends(t, i) && NUL !in d
    ensures Yields(Calls(t, d, At(i), 0).tokens, Pieces(t, d, i), 0)
    ensures Marked(Calls(t, d, At(i), 0).text, t, Pieces(t, d, i), 0)
  {
  }

  lemma MarkNoPiece(t: string, n: nat)
    ensures Marked(t, t, [], n)
  {
  }

  /** The C string at `i`. */
  ghost function StringAt(t: string, i: nat): string
    requires Ends(t, i)
  {
    t[i..RunEnd(t, [], i)]
  }

  /** The results of `n` calls, the first with the text and the others without, whatever is saved before. */
  ghost function Tokens(t: string, d: string, saved: Cursor, n: nat): Trace
    requires NUL !in d && Ends(t, 0)
  {
    if n == 0 then Trace([], t)
    else
      var o := Call(t, saved, At(0), Chars(d));
      SavedEnds(t, d, 0);
      var rest := Calls(o.text, d, o.saved, n - 1);
      Trace([o.token] + rest.tokens, rest.text)
  }

  /** The first of them starts where a call without the text would from cursor 0. */
  lemma FirstCall(t: string, d: string, saved: Cursor, n: nat)
    requires NUL !in d && Ends(t, 0)
    ensures Tokens(t, d, saved, n) == Calls(t, d, At(0), n)
  {
  }

  /** Whatever was saved and whatever the number of calls, they return the maximal delimiter-free pieces of the
      text, each once and in order, then NULL for ever. */
  lemma CallsReturnTheRuns(w: string, d: string, saved: Cursor, n: nat)
    requires NUL !in w && NUL !in d
    ensures Ends(w + [NUL], 0)
    ensures var p := Pieces(w + [NUL], d, 0);
      && Yields(Tokens(w + [NUL], d, saved, n).tokens, p, n) && Ascending(p, 0)
      && AreTheRuns(p, w, d, 0)
      && (forall j :: 0 <= j < |p| ==> p[j].end <= |w|)
  {
    hide *;
    StartIsUnkept(w, d);
    PiecesAreTheRuns(w, d, 0);
    FirstCall(w + [NUL], d, saved, n);
    CallsFollowPieces(w + [NUL], d, 0, n);
    var p := Pieces(w + [NUL], d, 0);
    forall j | 0 <= j < |p| ensures p[j].end <= |w| {
      PieceIsARun(p, w, d, 0, j);
      RunEndsAtDelimiter(w, d, p[j].from, p[j].end);
    }
  }

  /** Each returned pointer is the C string of its piece, also after all the later calls. */
  lemma TokensReadAsTheRuns(w: string, d: string, saved: Cursor, n: nat, j: nat)
    requires NUL !in w && NUL !in d && Ends(w + [NUL], 0) && j < n && j < |Pieces(w + [NUL], d, 0)|
    ensures var piece, after := Pieces(w + [NUL], d, 0)[j], Tokens(w + [NUL], d, saved, n).text;
      && piece.from < piece.end <= |w|
      && Ends(after, piece.from) && StringAt(after, piece.from) == w[piece.from..piece.end]
  {
    hide *;
    var t := w + [NUL];
    CallsReturnTheRuns(w, d, saved, n);
    FirstCall(t, d, saved, n);
    CallsFollowPieces(t, d, 0, n);
    var p := Pieces(t, d, 0);
    PieceIsARun(p, w, d, 0, j);
    TokenIsItsPiece(w, d, Tokens(t, d, saved, n).text, p, n, j);
  }

  /** The calls change only delimiters that end a returned token, and make them NUL. */
  lemma OnlyEndsChange(w: string, d: string, saved: Cursor, n: nat, k: nat)
    requires NUL !in w && NUL !in d && Ends(w + [NUL], 0) && k <= |w|
    ensures |Tokens(w + [NUL], d, saved, n).text| == |w| + 1
    ensures Tokens(w + [NUL], d, saved, n).text[k] != (w + [NUL])[k] ==>
        k < |w| && w[k] in d && Tokens(w + [NUL], d, saved, n).text[k] == NUL && EndedBy(Pieces(w + [NUL], d, 0), n, k)
  {
    hide FirstKept, RunEnd, IsRun, Pieces, Calls, Tokens, Kept, Ends, Yields, Ascending;
    CallsReturnTheRuns(w, d, saved, n);
    FirstCall(w + [NUL], d, saved, n);
    CallsFollowPieces(w + [NUL], d, 0, n);
    var p := Pieces(w + [NUL], d, 0);
    if EndedBy(p, n, k) {
      var j :| 0 <= j < n && j < |p| && p[j].end == k;
      PieceIsARun(p, w, d, 0, j);
      RunEndsAtDelimiter(w, d, p[j].from, k);
    }
  }

  lemma StartIsUnkept(w: string, d: string)
    ensures !Kept(w, d, 0 - 1)
  {
  }

  lemma RunEndsAtDelimiter(w: string, d: string, a: nat, b: nat)
    requires IsRun(w, d, a, b)
    ensures b <= |w| && (b < |w| ==> w[b] in d)
  {
  }

  /** No run ends inside another. */
  lemma EndsAreUnkept(w: string, d: string, p: seq<Piece>, n: nat, k: nat)
    requires AreTheRuns(p, w, d, 0)
    ensures EndedBy(p, n, k) ==> !Kept(w, d, k)
  {
    if EndedBy(p, n, k) {
      var m :| 0 <= m < n && m < |p| && p[m].end == k;
      PieceIsARun(p, w, d, 0, m);
    }
  }

  lemma TokenIsItsPiece(w: string, d: string, after: string, p: seq<Piece>, n: nat, j: nat)
    requires NUL !in w && Marked(after, w + [NUL], p, n) && Ascending(p, 0) && AreTheRuns(p, w, d, 0)
    requires j < n && j < |p| && IsRun(w, d, p[j].from, p[j].end)
    ensures p[j].from < p[j].end <= |w|
    ensures Ends(after, p[j].from) && StringAt(after, p[j].from) == w[p[j].from..p[j].end]
  {
    hide AreTheRuns, EndedBy;
    var a, b := p[j].from, p[j].end;
    assert after[b] == NUL by { EndedByItself(p, n, j); }
    forall k | a <= k < b ensures after[k] == w[k] && w[k] != NUL {
      assert Kept(w, d, k);
      EndsAreUnkept(w, d, p, n, k);
    }
    assert forall k :: a <= k < RunEnd(after, [], a) ==> after[k] != NUL;
    assert RunEnd(after, [], a) == b;
  }

  lemma EndedByItself(p: seq<Piece>, n: nat, j: nat)
    requires j < n && j < |p|
    ensures EndedBy(p, n, p[j].end)
  {
  }
}
