/**
 The row rule of the editor core on plain byte strings: LF, CRLF or a lone CR ends a row, and the
 terminator belongs to the row it ends. Everything the fast structures answer is compared with the
 definitions of this module.
 */
module Rows {

  type Byte = b: int | 0 <= b < 256
  type Bytes = seq<Byte>

  const LF: Byte := 10
  const CR: Byte := 13

  /** The three terminators. */
  predicate IsTerminator(t: Bytes) {
    t == [LF] || t == [CR] || t == [CR, LF]
  }

  datatype Option<+T> = None | Some(value: T)

  /** `p` separates the two bytes of one CRLF. */
  predicate InsideCrlf(s: Bytes, p: int) {
    0 < p < |s| && s[p - 1] == CR && s[p] == LF
  }

  /** A terminator of `s` ends just before `p`. */
  predicate EndsAt(s: Bytes, p: int) {
    0 < p <= |s| && (s[p - 1] == LF || s[p - 1] == CR) && !InsideCrlf(s, p)
  }

  /** Number of terminators of `s` that end at or before `n`: the row of offset `n`. */
  function Count(s: Bytes, n: nat): nat
    requires n <= |s|
  {
    if n == 0 then 0 else Count(s, n - 1) + if EndsAt(s, n) then 1 else 0
  }

  function Breaks(s: Bytes): nat {
    Count(s, |s|)
  }

  /** `a` ends in a CR and `b` starts with an LF: glued together they share one terminator. */
  predicate Junction(a: Bytes, b: Bytes) {
    |a| > 0 && |b| > 0 && a[|a| - 1] == CR && b[0] == LF
  }

  // ----- counting ---------------------------------------------------------------------------

  lemma {:induction false} CountMonotone(s: Bytes, m: nat, n: nat)
    requires m <= n <= |s|
    ensures Count(s, m) <= Count(s, n) <= Count(s, m) + n - m
  {
    if m < n {
      CountMonotone(s, m, n - 1);
    }
  }

  lemma {:induction false} CountStrict(s: Bytes, m: nat, n: nat)
    requires m < n <= |s| && EndsAt(s, n)
    ensures Count(s, m) < Count(s, n)
  {
    CountMonotone(s, m, n - 1);
  }

  /** Counting in a slice, even when the slice begins or ends inside a CRLF of `s`. */
  lemma {:induction false} CountSlice(s: Bytes, a: nat, b: nat, m: nat)
    requires a <= b <= |s| && m <= b - a
    ensures Count(s[a..b], m) == Count(s, a + m) - Count(s, a)
                                 + if 0 < m == b - a && InsideCrlf(s, b) then 1 else 0
  {
    if m > 0 {
      CountSlice(s, a, b, m - 1);
    }
  }

  /** Counting in a concatenation: one terminator is shared at a CR/LF seam. */
  lemma {:induction false} CountConcat(a: Bytes, b: Bytes, m: nat)
    requires m <= |b|
    ensures Count(a + b, |a| + m) == Breaks(a) - (if Junction(a, b) then 1 else 0) + Count(b, m)
  {
    var s := a + b;
    if m == 0 {
      if |a| > 0 {
        CountPrefix(a, b, |a| - 1);
      }
    } else {
      CountConcat(a, b, m - 1);
      assert EndsAt(s, |a| + m) <==> EndsAt(b, m);
    }
  }

  lemma {:induction false} CountPrefix(a: Bytes, b: Bytes, n: nat)
    requires n < |a|
    ensures Count(a + b, n) == Count(a, n)
  {
    if n > 0 {
      CountPrefix(a, b, n - 1);
    }
  }

  lemma {:induction false} BreaksConcat(a: Bytes, b: Bytes)
    ensures Breaks(a + b) == Breaks(a) + Breaks(b) - if Junction(a, b) then 1 else 0
  {
    CountConcat(a, b, |b|);
  }

  // ----- the k-th terminator ----------------------------------------------------------------

  /** The end of the `k`-th terminator of `s` (counted from 1). */
  function BreakEnd(s: Bytes, k: nat): (p: nat)
    requires 1 <= k <= Breaks(s)
    ensures EndsAt(s, p) && Count(s, p) == k
  {
    BreakEndUpTo(s, k, |s|)
  }

  function BreakEndUpTo(s: Bytes, k: nat, n: nat): (p: nat)
    requires n <= |s| && 1 <= k <= Count(s, n)
    ensures p <= n && EndsAt(s, p) && Count(s, p) == k
  {
    if EndsAt(s, n) && Count(s, n) == k then n else BreakEndUpTo(s, k, n - 1)
  }

  /** Terminator ends are told apart by their rank. */
  lemma {:induction false} BreakEndUnique(s: Bytes, p: nat, q: nat)
    requires EndsAt(s, p) && EndsAt(s, q) && Count(s, p) == Count(s, q)
    ensures p == q
  {
    if p != q {
      CountStrict(s, if p < q then p else q, if p < q then q else p);
    }
  }

  lemma {:induction false} BreakEndIs(s: Bytes, p: nat)
    requires EndsAt(s, p)
    ensures 1 <= Count(s, p) <= Breaks(s) && BreakEnd(s, Count(s, p)) == p
  {
    CountMonotone(s, p, |s|);
    BreakEndUnique(s, p, BreakEnd(s, Count(s, p)));
  }

  // ----- rows -------------------------------------------------------------------------------

  /** Byte range of one row; the bytes from `contentEnd` to `end` are its terminator. */
  datatype RowRange = RowRange(start: nat, contentEnd: nat, end: nat)

  function RowStart(s: Bytes, r: nat): (p: nat)
    requires r <= Breaks(s)
    ensures p <= |s|
  {
    if r == 0 then 0 else BreakEnd(s, r)
  }

  function RowEnd(s: Bytes, r: nat): (p: nat)
    requires r <= Breaks(s)
    ensures p <= |s|
  {
    if r < Breaks(s) then BreakEnd(s, r + 1) else |s|
  }

  /** Length of the terminator that ends at `p`, 0 when none does. */
  function TerminatorLength(s: Bytes, p: nat): nat
    requires p <= |s|
  {
    if p >= 2 && s[p - 2] == CR && s[p - 1] == LF then 2
    else if p >= 1 && (s[p - 1] == LF || s[p - 1] == CR) then 1 else 0
  }

  /** Row `r` of the naive split of `s` at LF, CRLF and lone CR. */
  function RowAt(s: Bytes, r: nat): RowRange
    requires r <= Breaks(s)
  {
    var end := RowEnd(s, r);
    RowRange(RowStart(s, r), if r < Breaks(s) then end - TerminatorLength(s, end) else end, end)
  }

  /** No terminator ends strictly inside a row, and every byte of row `r` has count `r`. */
  lemma {:induction false} RowSpan(s: Bytes, r: nat)
    requires r <= Breaks(s)
    ensures RowStart(s, r) <= RowEnd(s, r)
    ensures r < Breaks(s) ==> RowStart(s, r) < RowEnd(s, r)
    ensures forall i :: RowStart(s, r) < i <= |s| && (i < RowEnd(s, r) || r == Breaks(s)) ==> !EndsAt(s, i)
    ensures forall i :: RowStart(s, r) <= i < RowEnd(s, r) ==> Count(s, i) == r
  {
    var start, end := RowStart(s, r), RowEnd(s, r);
    if r < Breaks(s) && end <= start {
      CountMonotone(s, end, start);
    }
    forall i | start < i <= |s| && (i < end || r == Breaks(s))
      ensures !EndsAt(s, i)
    {
      if EndsAt(s, i) {
        CountStrict(s, start, i);
        CountMonotone(s, i, if r < Breaks(s) then end - 1 else end);
      }
    }
    forall i | start <= i < end
      ensures Count(s, i) == r
    {
      QuietSpan(s, start, i);
    }
  }

  /**
   The naive split is what it should be: a row starts where the previous one ends, its content holds
   no CR and no LF, only the last row lacks a terminator, and a byte belongs to row `Count`.
   */
  lemma {:induction false} RowAtFacts(s: Bytes, r: nat)
    requires r <= Breaks(s)
    ensures var w := RowAt(s, r);
            && w.start <= w.contentEnd <= w.end <= |s|
            && (r < Breaks(s) ==> w.end == RowStart(s, r + 1) && IsTerminator(s[w.contentEnd..w.end]))
            && (r == Breaks(s) ==> w.contentEnd == w.end == |s|)
            && (forall i :: w.start <= i < w.contentEnd ==> s[i] != LF && s[i] != CR)
            && (forall i :: w.start <= i < w.end ==> Count(s, i) == r)
  {
    RowSpan(s, r);
    var w := RowAt(s, r);
    if r < Breaks(s) {
      assert w.start <= w.contentEnd by {
        assert w.start == 0 || EndsAt(s, w.start);
      }
      var t := s[w.contentEnd..w.end];
      assert t == [LF] || t == [CR] || t == [CR, LF];
    }
    forall i | w.start <= i < w.contentEnd
      ensures s[i] != LF && s[i] != CR
    {
      assert !EndsAt(s, i + 1) || i + 1 == w.end;
      if InsideCrlf(s, i + 1) {
        assert EndsAt(s, i + 2);
      }
    }
  }

  /** An offset lies in the row its count names. */
  lemma {:induction false} RowHolds(s: Bytes, o: nat)
    requires o <= |s|
    ensures var r := Count(s, o);
            r <= Breaks(s) && RowAt(s, r).start <= o && (o < RowAt(s, r).end || o == |s| == RowAt(s, r).end)
  {
    CountMonotone(s, o, |s|);
    var r := Count(s, o);
    if r > 0 && BreakEnd(s, r) > o {
      CountMonotone(s, o, BreakEnd(s, r) - 1);
    }
    if r < Breaks(s) && BreakEnd(s, r + 1) <= o {
      CountMonotone(s, BreakEnd(s, r + 1), o);
    }
  }

  /** The rows of a list are those of the naive split from `first` on. */
  ghost predicate RowsFrom(data: Bytes, first: nat, out: seq<RowRange>) {
    forall i :: 0 <= i < |out| ==> first + i <= Breaks(data) && out[i] == RowAt(data, first + i)
  }

  lemma {:induction false} NoRows(data: Bytes, first: nat)
    ensures RowsFrom(data, first, [])
  {
  }

  lemma {:induction false} MoreRows(data: Bytes, first: nat, out: seq<RowRange>)
    requires RowsFrom(data, first, out)
    ensures first + |out| <= Breaks(data) ==> RowsFrom(data, first, out + [RowAt(data, first + |out|)])
  {
    hide RowAt;
    hide Breaks;
  }

  lemma {:induction false} RowsAt(data: Bytes, first: nat, out: seq<RowRange>, i: nat)
    requires RowsFrom(data, first, out) && i < |out|
    ensures first + i <= Breaks(data) && out[i] == RowAt(data, first + i)
  {
  }

  lemma {:induction false} FrontRows(data: Bytes, first: nat, out: seq<RowRange>, k: nat)
    requires RowsFrom(data, first, out) && k <= |out|
    ensures RowsFrom(data, first, out[..k])
    decreases k
  {
    hide *;
    if k == 0 {
      NoRows(data, first);
      assert out[..0] == [];
    } else {
      FrontRows(data, first, out, k - 1);
      RowsAt(data, first, out, k - 1);
      MoreRows(data, first, out[..k - 1]);
      assert out[..k] == out[..k - 1] + [out[k - 1]];
    }
  }

  // ----- the regular expression \r\n|\n|\r ---------------------------------------------------

  datatype Match = Match(start: nat, end: nat)

  /** Leftmost match of `\r\n|\n|\r` in `s` at or after `pos`: it finds the next terminator end. */
  function Search(s: Bytes, pos: nat): (m: Option<Match>)
    ensures m.None? ==> forall p :: pos < p <= |s| ==> !EndsAt(s, p)
    ensures m.Some? ==> pos <= m.value.start < m.value.end <= |s| && EndsAt(s, m.value.end)
    ensures m.Some? ==> forall p :: pos < p < m.value.end ==> !EndsAt(s, p)
    ensures m.Some? ==> IsTerminator(s[m.value.start..m.value.end])
    ensures m.Some? && pos < m.value.end - 1 ==> m.value.end - m.value.start == TerminatorLength(s, m.value.end)
    decreases |s| - pos
  {
    if pos >= |s| then None
    else if InsideCrlf(s, pos + 1) then
      assert s[pos..pos + 2] == [CR, LF];
      Some(Match(pos, pos + 2))
    else if s[pos] == LF || s[pos] == CR then
      Some(Match(pos, pos + 1))
    else Search(s, pos + 1)
  }

  /** The terminator found from `pos` is the next one by rank. */
  lemma {:induction false} SearchRank(s: Bytes, pos: nat)
    requires pos <= |s|
    ensures Count(s, pos) <= Breaks(s)
    ensures Search(s, pos).None? <==> Count(s, pos) == Breaks(s)
    ensures Search(s, pos).Some? ==> Count(s, Search(s, pos).value.end) == Count(s, pos) + 1
    ensures Search(s, pos).Some? ==> BreakEnd(s, Count(s, pos) + 1) == Search(s, pos).value.end
  {
    var m := Search(s, pos);
    CountMonotone(s, pos, |s|);
    if m.Some? {
      QuietSpan(s, pos, m.value.end - 1);
      BreakEndIs(s, m.value.end);
    } else {
      QuietSpan(s, pos, |s|);
    }
  }

  lemma {:induction false} QuietSpan(s: Bytes, m: nat, n: nat)
    requires m <= n <= |s|
    requires forall p :: m < p <= n ==> !EndsAt(s, p)
    ensures Count(s, m) == Count(s, n)
  {
    if m < n {
      QuietSpan(s, m, n - 1);
    }
  }

  /** A slice of a slice. */
  lemma {:induction false} SubSlice<T>(s: seq<T>, a: nat, b: nat, lo: nat, hi: nat)
    requires a <= b <= |s| && lo <= hi <= b - a
    ensures s[a + lo..a + hi] == s[a..b][lo..hi]
  {
    var x, y := s[a + lo..a + hi], s[a..b][lo..hi];
    assert forall k :: 0 <= k < hi - lo ==> x[k] == s[a + lo + k] && y[k] == s[a + lo + k];
  }
}
