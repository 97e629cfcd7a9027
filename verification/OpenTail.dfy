/**
 Rows of a document that is a tree part followed by the open tail `[a, L)` of the original: where its breaks
 lie, also when the last CR of the tree and the first LF of the tail are one terminator.
 */
module OpenTail {
  import opened Rows
  import opened Pieces
  import opened Navigation

  /** Counting in the tail is counting in the original from `a` on. */
  lemma {:induction false} TailCount(d: Bytes, a: nat, m: nat)
    requires a <= |d| && m <= |d| - a
    ensures Count(d[a..], m) == Count(d, a + m) - Count(d, a)
    ensures Breaks(d[a..]) == Breaks(d) - Count(d, a)
  {
    assert d[a..] == d[a..|d|];
    CountSlice(d, a, |d|, m);
    CountSlice(d, a, |d|, |d| - a);
  }

  /** The terminators of the tail are those of the original behind `a`. */
  lemma {:induction false} TailBreak(d: Bytes, a: nat, rank: nat)
    requires a <= |d| && 1 <= rank <= Breaks(d) - Count(d, a)
    ensures Breaks(d[a..]) == Breaks(d) - Count(d, a)
    ensures BreakEnd(d[a..], rank) == BreakEnd(d, Count(d, a) + rank) - a
  {
    var e := BreakEnd(d, Count(d, a) + rank);
    if e <= a {
      CountMonotone(d, e, a);
    }
    TailCount(d, a, e - a);
    assert EndsAt(d[a..], e - a);
    BreakEndIs(d[a..], e - a);
  }

  /** A break of the front part keeps its rank; at the seam it may be completed by the first byte behind. */
  lemma {:induction false} FrontBreak(b: Bytes, t: Bytes, k: nat)
    requires 1 <= k <= Breaks(b)
    ensures k <= Breaks(b + t)
    ensures BreakEnd(b + t, k) == BreakEnd(b, k) + if BreakEnd(b, k) == |b| && Junction(b, t) then 1 else 0
  {
    var e := BreakEnd(b, k);
    var n := e + if e == |b| && Junction(b, t) then 1 else 0;
    RankBehind(b, t, e, n);
    BreakEndIs(b + t, n);
  }

  /** A break of the part behind, counted from the seam. */
  lemma {:induction false} BehindBreak(b: Bytes, t: Bytes, k: nat)
    requires Breaks(b) < k
    requires k - Breaks(b) + (if Junction(b, t) then 1 else 0) <= Breaks(t)
    ensures k <= Breaks(b + t)
    ensures BreakEnd(b + t, k) == |b| + BreakEnd(t, k - Breaks(b) + if Junction(b, t) then 1 else 0)
  {
    var rank := k - Breaks(b) + if Junction(b, t) then 1 else 0;
    var e := BreakEnd(t, rank);
    CountConcat(b, t, e);
    assert EndsAt(b + t, |b| + e);
    BreakEndIs(b + t, |b| + e);
  }

  /** Number of terminators in front of an offset of the document. */
  lemma {:induction false} CountInText(b: Bytes, d: Bytes, a: nat, offset: nat)
    requires a <= |d| && offset <= |b| + |d| - a
    ensures offset < |b| ==> Count(b + d[a..], offset) == Count(b, offset)
    ensures offset >= |b| ==>
              Count(b + d[a..], offset)
              == Breaks(b) - (if Junction(b, d[a..]) then 1 else 0) + Count(d, a + offset - |b|) - Count(d, a)
  {
    if offset < |b| {
      CountPrefix(b, d[a..], offset);
    } else {
      CountConcat(b, d[a..], offset - |b|);
      TailCount(d, a, offset - |b|);
    }
  }

  /** Breaks of the document. */
  lemma {:induction false} BreaksInText(b: Bytes, d: Bytes, a: nat)
    requires a <= |d|
    ensures Breaks(b + d[a..]) == Breaks(b) + Breaks(d) - Count(d, a) - if Junction(b, d[a..]) then 1 else 0
    ensures Junction(b, d[a..]) <==> |b| > 0 && b[|b| - 1] == CR && a < |d| && d[a] == LF
    ensures Junction(b, d[a..]) ==> Breaks(b) >= 1 && Breaks(d) > Count(d, a)
  {
    BreaksConcat(b, d[a..]);
    TailCount(d, a, 0);
    if Junction(b, d[a..]) {
      CrLast(b);
      LfFirst(d[a..]);
    }
  }

  /** A boundary inside a CRLF, seen from the two parts. */
  lemma {:induction false} InsideInText(b: Bytes, d: Bytes, a: nat, offset: nat)
    requires a <= |d| && offset <= |b| + |d| - a
    ensures offset < |b| ==> (InsideCrlf(b + d[a..], offset) <==> InsideCrlf(b, offset))
    ensures offset == |b| ==> (InsideCrlf(b + d[a..], offset) <==> Junction(b, d[a..]))
    ensures offset > |b| ==> (InsideCrlf(b + d[a..], offset) <==> InsideCrlf(d, a + offset - |b|))
  {
  }
}
