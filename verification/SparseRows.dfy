/**
 The sparse facts an index keeps about the rows of a byte string: the start of every `stride`-th row and
 the rows longer than a threshold. They are stated on the whole string, for every way of scanning it.
 */
module SparseRows {
  import opened Rows

  /** Ends of the terminators of `s` up to `n` whose rank is a multiple of `stride`, ascending. */
  function Entries(s: Bytes, stride: nat, n: nat): seq<nat>
    requires stride > 0 && n <= |s|
  {
    if n == 0 then []
    else Entries(s, stride, n - 1) + if EndsAt(s, n) && Count(s, n) % stride == 0 then [n] else []
  }

  lemma {:induction false} EntriesNone(s: Bytes, stride: nat)
    requires stride > 0
    ensures Entries(s, stride, 0) == []
  {
  }

  /** No terminator ends in between, so no entry is added. */
  lemma {:induction false} EntriesQuiet(s: Bytes, stride: nat, m: nat, n: nat)
    requires stride > 0 && m <= n <= |s| && forall p :: m < p <= n ==> !EndsAt(s, p)
    ensures Entries(s, stride, n) == Entries(s, stride, m) && Count(s, n) == Count(s, m)
  {
    if m < n {
      EntriesQuiet(s, stride, m, n - 1);
    }
  }

  /** The next terminator adds its end when its rank is a multiple of the stride. */
  lemma {:induction false} EntriesStep(s: Bytes, stride: nat, m: nat, n: nat)
    requires stride > 0 && m < n <= |s| && EndsAt(s, n) && forall p :: m < p < n ==> !EndsAt(s, p)
    ensures Count(s, n) == Count(s, m) + 1
    ensures Entries(s, stride, n) == Entries(s, stride, m) + if Count(s, n) % stride == 0 then [n] else []
  {
    EntriesQuiet(s, stride, m, n - 1);
  }

  /** Entries depend only on the bytes in front of them. */
  lemma {:induction false} EntriesPrefix(s: Bytes, t: Bytes, stride: nat, n: nat)
    requires stride > 0 && n < |s|
    ensures Entries(s + t, stride, n) == Entries(s, stride, n) && Count(s + t, n) == Count(s, n)
  {
    CountPrefix(s, t, n);
    if n > 0 {
      EntriesPrefix(s, t, stride, n - 1);
      assert EndsAt(s + t, n) <==> EndsAt(s, n);
    }
  }

  /** Entry `k` is the start of row `(k + 1) * stride`, and there is one for every such row. */
  lemma {:induction false} EntriesAre(s: Bytes, stride: nat, n: nat)
    requires stride > 0 && n <= |s|
    ensures |Entries(s, stride, n)| == Count(s, n) / stride
    ensures forall k :: 0 <= k < |Entries(s, stride, n)| ==>
                          EndsAt(s, Entries(s, stride, n)[k]) && Entries(s, stride, n)[k] <= n
                          && Count(s, Entries(s, stride, n)[k]) == Multiple(k + 1, stride)
  {
    if n > 0 {
      EntriesAre(s, stride, n - 1);
      var e := Entries(s, stride, n - 1);
      if EndsAt(s, n) {
        DivideNext(Count(s, n - 1), stride);
        if Count(s, n) % stride == 0 {
          MultipleOf(Count(s, n), stride);
        }
      }
    }
  }

  function Multiple(k: nat, stride: nat): nat { k * stride }

  lemma {:induction false} DivideNext(x: nat, stride: nat)
    requires stride > 0
    ensures (x + 1) / stride == x / stride + if (x + 1) % stride == 0 then 1 else 0
  {
    var q, r := x / stride, x % stride;
    assert x == q * stride + r;
    if r + 1 == stride {
      assert x + 1 == (q + 1) * stride;
      DivideUnique(x + 1, stride, q + 1, 0);
    } else {
      DivideUnique(x + 1, stride, q, r + 1);
    }
  }

  lemma {:induction false} DivideUnique(x: nat, stride: nat, q: nat, r: nat)
    requires stride > 0 && x == q * stride + r && r < stride
    ensures x / stride == q && x % stride == r
  {
    DivideParts(x, stride);
    SameQuotient(x / stride, x % stride, q, r, stride);
  }

  lemma {:induction false} DivideParts(x: nat, stride: nat)
    requires stride > 0
    ensures x == (x / stride) * stride + x % stride && 0 <= x % stride < stride
  {
  }

  lemma {:induction false} SameQuotient(a: int, b: int, q: int, r: int, stride: int)
    requires a * stride + b == q * stride + r && 0 <= b < stride && 0 <= r < stride
    ensures a == q && b == r
  {
    assert (a - q) * stride == r - b;
    AtLeast(a - q, stride);
    AtLeast(q - a, stride);
    assert (q - a) * stride == b - r;
  }

  lemma {:induction false} AtLeast(k: int, stride: int)
    requires stride > 0
    ensures k >= 1 ==> k * stride >= stride
  {
    if k >= 1 {
      assert k * stride == (k - 1) * stride + stride;
    }
  }

  lemma {:induction false} MultipleOf(x: nat, stride: nat)
    requires stride > 0 && x % stride == 0
    ensures x == Multiple(x / stride, stride)
  {
  }

  /** Number of entries at or before `offset`: `bisect_right`. */
  method BisectRight(entries: seq<nat>, offset: int) returns (slot: nat)
    requires forall i, j :: 0 <= i < j < |entries| ==> entries[i] <= entries[j]
    ensures slot <= |entries|
    ensures forall i :: 0 <= i < slot ==> entries[i] <= offset
    ensures forall i :: slot <= i < |entries| ==> offset < entries[i]
  {
    var lo, hi := 0, |entries|;
    while lo < hi
      invariant 0 <= lo <= hi <= |entries|
      invariant forall i :: 0 <= i < lo ==> entries[i] <= offset
      invariant forall i :: hi <= i < |entries| ==> offset < entries[i]
    {
      var mid := (lo + hi) / 2;
      if offset < entries[mid] {
        hi := mid;
      } else {
        lo := mid + 1;
      }
    }
    slot := lo;
  }

  lemma {:induction false} EntriesAscend(s: Bytes, stride: nat, n: nat)
    requires stride > 0 && n <= |s|
    ensures forall i, j :: 0 <= i < j < |Entries(s, stride, n)| ==> Entries(s, stride, n)[i] <= Entries(s, stride, n)[j]
  {
    if n > 0 {
      EntriesAscend(s, stride, n - 1);
      EntriesAre(s, stride, n - 1);
    }
  }

  /** Where a walk to a row may begin: the entry before it, or the start of the string. */
  function EntryPlace(entries: seq<nat>, slot: nat): nat
    requires slot <= |entries|
  {
    if slot > 0 then entries[slot - 1] else 0
  }

  lemma {:induction false} EntryPlaceIs(s: Bytes, stride: nat, n: nat, slot: nat)
    requires stride > 0 && n <= |s| && slot <= |Entries(s, stride, n)|
    ensures var p := EntryPlace(Entries(s, stride, n), slot);
            p <= |s| && Count(s, p) == Multiple(slot, stride) && (slot > 0 ==> EndsAt(s, p)) && (slot == 0 ==> p == 0)
  {
    EntriesAre(s, stride, n);
  }

  // ----- long rows ---------------------------------------------------------------------------------

  /** Row `row` spans `[start, end)`. */
  datatype LongRow = LongRow(row: nat, start: nat, end: nat)

  /** Start of the row that is open at `n`: the last terminator end at or before `n`, else 0. */
  function OpenRow(s: Bytes, n: nat): (p: nat)
    requires n <= |s|
    ensures p <= n
  {
    if n == 0 then 0 else if EndsAt(s, n) then n else OpenRow(s, n - 1)
  }

  lemma {:induction false} OpenRowIs(s: Bytes, n: nat)
    requires n <= |s|
    ensures Count(s, n) <= Breaks(s) && RowStart(s, Count(s, n)) == OpenRow(s, n)
  {
    CountMonotone(s, n, |s|);
    if n > 0 {
      if EndsAt(s, n) {
        BreakEndIs(s, n);
      } else {
        OpenRowIs(s, n - 1);
      }
    }
  }

  /** The terminated rows that end at or before `n` and are longer than `threshold`, ascending. */
  function Longs(s: Bytes, threshold: nat, n: nat): seq<LongRow>
    requires n <= |s|
  {
    if n == 0 then []
    else Longs(s, threshold, n - 1)
         + if EndsAt(s, n) && n - OpenRow(s, n - 1) > threshold then [LongRow(Count(s, n - 1), OpenRow(s, n - 1), n)] else []
  }

  /** All rows longer than the threshold: the terminated ones and perhaps the last one. */
  function AllLongs(s: Bytes, threshold: nat): seq<LongRow> {
    Longs(s, threshold, |s|) + LastLong(Breaks(s), OpenRow(s, |s|), |s|, threshold)
  }

  /** The last row as a long row, when it is one (`finish`). */
  function LastLong(row: nat, start: nat, length: nat, threshold: nat): seq<LongRow> {
    if length - start > threshold then [LongRow(row, start, length)] else []
  }

  lemma {:induction false} LongsQuiet(s: Bytes, threshold: nat, m: nat, n: nat)
    requires m <= n <= |s| && forall p :: m < p <= n ==> !EndsAt(s, p)
    ensures Longs(s, threshold, n) == Longs(s, threshold, m) && OpenRow(s, n) == OpenRow(s, m)
  {
    if m < n {
      LongsQuiet(s, threshold, m, n - 1);
    }
  }

  lemma {:induction false} LongsStep(s: Bytes, threshold: nat, m: nat, n: nat)
    requires m < n <= |s| && EndsAt(s, n) && forall p :: m < p < n ==> !EndsAt(s, p)
    ensures OpenRow(s, n) == n && OpenRow(s, m) <= m
    ensures Longs(s, threshold, n)
            == Longs(s, threshold, m) + if n - OpenRow(s, m) > threshold then [LongRow(Count(s, m), OpenRow(s, m), n)] else []
  {
    LongsQuiet(s, threshold, m, n - 1);
    QuietSpan(s, m, n - 1);
  }

  lemma {:induction false} LongsPrefix(s: Bytes, t: Bytes, threshold: nat, n: nat)
    requires n < |s|
    ensures Longs(s + t, threshold, n) == Longs(s, threshold, n) && OpenRow(s + t, n) == OpenRow(s, n)
  {
    if n > 0 {
      LongsPrefix(s, t, threshold, n - 1);
      CountPrefix(s, t, n - 1);
      assert EndsAt(s + t, n) <==> EndsAt(s, n);
    }
  }

  lemma {:induction false} LongsNone(s: Bytes, threshold: nat)
    ensures Longs(s, threshold, 0) == [] && OpenRow(s, 0) == 0 && Count(s, 0) == 0
  {
  }

  /** Each recorded row is a row of the naive split, longer than the threshold; rows ascend. */
  lemma {:induction false} LongsAre(s: Bytes, threshold: nat, n: nat)
    requires n <= |s|
    ensures forall i :: 0 <= i < |Longs(s, threshold, n)| ==>
                          var w := Longs(s, threshold, n)[i];
                          w.row < Count(s, n) <= Breaks(s) && w.start == RowStart(s, w.row) && w.end == RowEnd(s, w.row)
                          && w.end <= n && w.end - w.start > threshold
    ensures forall i, j :: 0 <= i < j < |Longs(s, threshold, n)| ==> Longs(s, threshold, n)[i].row < Longs(s, threshold, n)[j].row
  {
    CountMonotone(s, n, |s|);
    if n > 0 {
      LongsAre(s, threshold, n - 1);
      OpenRowIs(s, n - 1);
      if EndsAt(s, n) {
        BreakEndIs(s, n);
      }
    }
  }

  /** Every terminated long row up to `n` is recorded. */
  lemma {:induction false} LongsHas(s: Bytes, threshold: nat, n: nat, row: nat)
    requires n <= |s| && row < Count(s, n)
    ensures row < Breaks(s)
    ensures RowEnd(s, row) - RowStart(s, row) > threshold ==> LongRow(row, RowStart(s, row), RowEnd(s, row)) in Longs(s, threshold, n)
  {
    CountMonotone(s, n, |s|);
    if row < Count(s, n - 1) {
      LongsHas(s, threshold, n - 1, row);
    } else {
      OpenRowIs(s, n - 1);
      BreakEndIs(s, n);
    }
  }

  /** The complete table holds exactly the rows of the naive split that are longer than the threshold, ascending. */
  lemma {:induction false} AllLongsAre(s: Bytes, threshold: nat)
    ensures forall i :: 0 <= i < |AllLongs(s, threshold)| ==> TrueLong(s, threshold, AllLongs(s, threshold)[i])
    ensures forall i, j :: 0 <= i < j < |AllLongs(s, threshold)| ==> AllLongs(s, threshold)[i].row < AllLongs(s, threshold)[j].row
    ensures forall row :: 0 <= row <= Breaks(s) && RowEnd(s, row) - RowStart(s, row) > threshold ==>
                            LongRow(row, RowStart(s, row), RowEnd(s, row)) in AllLongs(s, threshold)
  {
    LongsAre(s, threshold, |s|);
    OpenRowIs(s, |s|);
    hide Longs;
    forall row | 0 <= row <= Breaks(s) && RowEnd(s, row) - RowStart(s, row) > threshold
      ensures LongRow(row, RowStart(s, row), RowEnd(s, row)) in AllLongs(s, threshold)
    {
      if row < Breaks(s) {
        LongsHas(s, threshold, |s|, row);
      } else {
        var last := LastLong(Breaks(s), OpenRow(s, |s|), |s|, threshold);
        assert last[0] == LongRow(row, RowStart(s, row), RowEnd(s, row));
      }
    }
  }

  /** `w` is a row of the naive split, longer than the threshold. */
  ghost predicate TrueLong(s: Bytes, threshold: nat, w: LongRow) {
    && w.row <= Breaks(s) && w.start == RowStart(s, w.row) && w.end == RowEnd(s, w.row)
    && w.end - w.start > threshold
  }

  lemma {:induction false} LongsTrue(s: Bytes, threshold: nat, n: nat)
    requires n <= |s|
    ensures Count(s, n) <= Breaks(s)
    ensures forall i :: 0 <= i < |Longs(s, threshold, n)| ==>
                          TrueLong(s, threshold, Longs(s, threshold, n)[i]) && Longs(s, threshold, n)[i].row < Count(s, n)
    ensures forall i, j :: 0 <= i < j < |Longs(s, threshold, n)| ==> Longs(s, threshold, n)[i].row < Longs(s, threshold, n)[j].row
    ensures forall row :: 0 <= row < Count(s, n) && RowEnd(s, row) - RowStart(s, row) > threshold ==>
                            LongRow(row, RowStart(s, row), RowEnd(s, row)) in Longs(s, threshold, n)
  {
    CountMonotone(s, n, |s|);
    LongsAre(s, threshold, n);
    forall row | 0 <= row < Count(s, n) && RowEnd(s, row) - RowStart(s, row) > threshold
      ensures LongRow(row, RowStart(s, row), RowEnd(s, row)) in Longs(s, threshold, n)
    {
      LongsHas(s, threshold, n, row);
    }
  }
}
