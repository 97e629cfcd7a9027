/** The characters behind the last break of a piece sequence (`tail_chars_of`). */
module TailText {
  import opened Rows
  import opened Pieces
  import opened Utf8

  const TAIL_WINDOW := 4096

  ghost predicate PlainFrom(s: Bytes, p: nat) {
    forall i :: p <= i < |s| ==> s[i] != LF && s[i] != CR
  }

  /** Place behind the last CR or LF byte, 0 when there is none. */
  function LastBreak(s: Bytes): (p: nat)
    ensures p <= |s| && PlainFrom(s, p)
    ensures p > 0 ==> s[p - 1] == LF || s[p - 1] == CR
  {
    if s == [] then 0
    else if s[|s| - 1] == LF || s[|s| - 1] == CR then |s|
    else LastBreak(s[..|s| - 1])
  }

  lemma {:induction false} LastBreakUnique(s: Bytes, p: nat)
    requires p <= |s| && PlainFrom(s, p) && (p > 0 ==> s[p - 1] == LF || s[p - 1] == CR)
    ensures p == LastBreak(s)
  {
  }

  /** The last break is where the row after all terminators starts. */
  lemma {:induction false} LastBreakIsRowStart(s: Bytes)
    ensures LastBreak(s) == RowStart(s, Breaks(s))
  {
    RowAtFacts(s, Breaks(s));
    LastBreakUnique(s, RowStart(s, Breaks(s)));
  }

  /** Number of characters behind the last break. */
  function TailChars(s: Bytes): nat {
    |Decode(s[LastBreak(s)..])|
  }

  /** A break in the second part is the last one of the whole; without one the whole tail is longer. */
  lemma {:induction false} LastBreakConcat(a: Bytes, b: Bytes)
    ensures LastBreak(b) > 0 ==> (a + b)[LastBreak(a + b)..] == b[LastBreak(b)..]
    ensures LastBreak(b) == 0 ==> (a + b)[LastBreak(a + b)..] == a[LastBreak(a)..] + b
  {
    if LastBreak(b) > 0 {
      LastBreakUnique(a + b, |a| + LastBreak(b));
    } else {
      LastBreakUnique(a + b, LastBreak(a));
    }
  }

  /** Read `[a, b)` backwards in windows until a break is met. */
  method ReadTail(source: Source, a: nat, b: nat) returns (found: bool, text: Bytes)
    requires a <= b <= |source.data|
    ensures var s := source.data[a..b]; found == (LastBreak(s) > 0) && text == s[LastBreak(s)..]
  {
    var window := TAIL_WINDOW;
    assert window > 0;
    hide *;
    text := [];
    var stop := b;
    ghost var data := source.data;
    LastBreakUnique([], 0);
    assert data[b..b] == [];
    while stop > a
      invariant a <= stop <= b && text == data[stop..b] && LastBreak(text) == 0
    {
      var begin := if stop - window > a then stop - window else a;
      var chunk := source.Read(begin, stop);
      ReadIs(source, begin, stop);
      SliceJoin(data, begin, stop, b);
      LastBreakConcat(chunk, text);
      var cut := LastBreak(chunk);
      if cut > 0 {
        SliceJoin(data, a, begin, b);
        LastBreakConcat(data[a..begin], chunk + text);
        LastBreakPositive(chunk, text);
        LastBreakPositive2(data[a..begin], chunk + text);
        return true, chunk[cut..] + text;
      }
      LastBreakZero(chunk, text);
      text := chunk + text;
      stop := begin;
    }
    found := false;
  }

  lemma {:induction false} ReadIs(source: Source, a: nat, b: nat)
    requires a <= b <= |source.data|
    ensures source.Read(a, b) == source.data[a..b]
  {
  }

  lemma {:induction false} SliceJoin(s: Bytes, x: nat, y: nat, z: nat)
    requires x <= y <= z <= |s|
    ensures s[x..z] == s[x..y] + s[y..z]
  {
  }

  lemma {:induction false} LastBreakPositive2(a: Bytes, b: Bytes)
    requires LastBreak(b) > 0
    ensures LastBreak(a + b) > 0
  {
    assert (a + b)[|a| + LastBreak(b) - 1] == b[LastBreak(b) - 1];
  }

  lemma {:induction false} LastBreakZero(a: Bytes, b: Bytes)
    requires LastBreak(a) == 0 && LastBreak(b) == 0
    ensures LastBreak(a + b) == 0
  {
    LastBreakUnique(a + b, 0);
  }

  /** `tail_chars_of`: the reading windows and the cuts between pieces never show in the result. */
  method TailCharsOf(pieces: seq<Piece>, S: Sources) returns (n: nat)
    requires AllTrue(pieces, S)
    ensures n == TailChars(Doc(pieces, S))
  {
    hide *;
    var later: Bytes := [];
    var i := |pieces|;
    ghost var d := Doc(pieces, S);
    assert pieces[..i] == pieces;
    LastBreakUnique([], 0);
    while i > 0
      invariant 0 <= i <= |pieces|
      invariant d == Doc(pieces[..i], S) + later && LastBreak(later) == 0
    {
      i := i - 1;
      PieceBehind(pieces, i, S);
      ghost var front, mid := Doc(pieces[..i], S), S[pieces[i].src].data[pieces[i].a..pieces[i].b];
      var found, text := ReadTail(S[pieces[i].src], pieces[i].a, pieces[i].b);
      assert d == front + (mid + later);
      if found {
        LastBreakConcat(mid, later);
        LastBreakPositive(mid, later);
        LastBreakConcat(front, mid + later);
        LastBreakPositive2(front, mid + later);
        TailCharsAre(d, text + later);
        return |Decode(text + later)|;
      }
      LastBreakZero(mid, later);
      later := text + later;
    }
    DocNone(S);
    assert pieces[..0] == [];
    assert d == later && later[0..] == later;
    TailCharsAre(d, later);
    n := |Decode(later)|;
  }

  lemma {:induction false} TailCharsAre(d: Bytes, t: Bytes)
    requires t == d[LastBreak(d)..]
    ensures TailChars(d) == |Decode(t)|
  {
  }

  lemma {:induction false} LastBreakPositive(a: Bytes, b: Bytes)
    requires LastBreak(a) > 0
    ensures LastBreak(a + b) > 0
  {
    assert (a + b)[LastBreak(a) - 1] == a[LastBreak(a) - 1];
  }

  lemma {:induction false} DocNone(S: Sources)
    ensures Doc([], S) == []
  {
  }

  lemma {:induction false} PieceBehind(pieces: seq<Piece>, i: nat, S: Sources)
    requires i < |pieces| && AllTrue(pieces, S)
    ensures pieces[i].src in S && pieces[i].a <= pieces[i].b <= |S[pieces[i].src].data|
    ensures Doc(pieces[..i + 1], S) == Doc(pieces[..i], S) + S[pieces[i].src].data[pieces[i].a..pieces[i].b]
  {
    hide Doc;
    assert TruePiece(pieces[i], S);
    assert pieces[..i + 1] == pieces[..i] + [pieces[i]];
    DocConcat(pieces[..i], [pieces[i]], S);
    PieceDoc(pieces[i], S);
  }
}
