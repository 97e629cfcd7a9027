/**
 The sparse line index of the original (`line_index.py`): the scan publishes, and the queries walk from the
 nearest entry within a byte budget. The file is taken as unchanged, so a read returns exactly its bytes.
 */
module LineIndex {
  import opened Rows
  import opened SparseRows
  import opened RowScanner
  import Pieces
  import opened OriginalSource

  const TAIL_BYTES: nat := 2
  const DEFAULT_STRIDE: nat := 64
  const DEFAULT_LONG_LINE_THRESHOLD: nat := 16384
  const DEFAULT_READ_BUDGET: nat := 4194304

  // ----- the walker ---------------------------------------------------------------------------------

  /** Outcome of one `advance`. */
  datatype Step = OverBudget | Last | Ended(end: nat, terminator: nat)

  /** The row that starts at a row start `pos` ends here. */
  function EndOfRowFrom(data: Bytes, pos: nat): (e: nat)
    requires pos <= |data|
    ensures pos <= e <= |data|
  {
    var m := Search(data, pos);
    if m.Some? then m.value.end else |data|
  }

  /** The source of an index. It counts the bytes it was asked for. */
  class Reader {
    const data: Bytes
    var asked: nat

    constructor (data: Bytes)
      ensures this.data == data && asked == 0
    {
      this.data, asked := data, 0;
    }

    method Read(offset: nat, size: nat) returns (b: Bytes)
      requires offset + size <= |data|
      modifies this
      ensures b == data[offset..offset + size] && asked == old(asked) + size
    {
      b := data[offset..offset + size];
      asked := asked + size;
    }
  }

  class Walker {
    const source: Reader
    const length: nat
    const budget: nat
    const window: nat
    var pos: nat
    var spent: nat
    var buf: Bytes
    var base: nat
    ghost const data: Bytes
    /** What the source had been asked for before this walk. */
    ghost const began: nat

    ghost predicate Valid()
      reads this, source
    {
      && window > 0 && data == source.data && length == |data|
      && base <= pos <= base + |buf| <= |data|
      && buf == data[base..base + |buf|]
      && source.asked <= began + budget && (spent <= budget ==> source.asked == began + spent)
    }

    constructor (source: Reader, pos: nat, budget: nat, window: nat)
      requires pos <= |source.data| && window > 0
      ensures Valid() && this.pos == pos && spent == 0 && buf == [] && base == pos && began == source.asked
      ensures this.source == source && data == source.data && this.budget == budget && this.window == window
    {
      this.source, this.budget, this.window := source, budget, window;
      this.pos, this.base := pos, pos;
      spent, buf, length := 0, [], |source.data|;
      data, began := source.data, source.asked;
    }

    /** `charge`: false when the budget is exceeded; the bytes are not asked for then. */
    method Charge(size: nat) returns (ok: bool)
      modifies this`spent
      ensures spent == old(spent) + size && ok == (spent <= budget)
    {
      spent := spent + size;
      ok := spent <= budget;
    }

    /** `jump`: continue at `to` without the bytes in between. */
    method Jump(to: nat)
      requires Valid() && to <= |data|
      modifies this`pos, this`buf, this`base
      ensures Valid() && pos == to && base == to && buf == []
    {
      pos, buf, base := to, [], to;
    }

    /** `_fill`: drop what was crossed and read the next window. */
    method Fill() returns (ok: bool)
      requires Valid() && base + |buf| < |data| && spent <= budget
      modifies this`spent, this`buf, this`base, source
      ensures Valid() && pos == old(pos) && ok == (spent <= budget)
      ensures var want := if window < |data| - old(base + |buf|) then window else |data| - old(base + |buf|);
              && spent == old(spent) + want && want > 0
              && base + |buf| == old(base + |buf|) + (if ok then want else 0)
    {
      Bounds();
      ghost var d, b0, had := data, base, buf;
      var cut := pos - base;
      var offset := base + |buf|;
      var want := if window < length - offset then window else length - offset;
      ok := Charge(want);
      if ok {
        var more := source.Read(offset, want);
        FillIs(d, b0, offset, offset + want, cut);
        assert had == d[b0..offset];
        buf := buf[cut..] + more;
        base := base + cut;
      }
    }

    static lemma {:induction false} FillIs(data: Bytes, base: nat, offset: nat, end: nat, cut: nat)
      requires base + cut <= offset <= end <= |data|
      ensures data[base..offset][cut..] + data[offset..end] == data[base + cut..end]
    {
    }

    /**
     `advance`: the end of the row that starts at `pos`, whatever the windows are. The cost is bounded by the window
     that reaches behind the row.
     */
    method Advance() returns (r: Step)
      requires Valid() && spent <= budget && (pos == 0 || EndsAt(data, pos))
      modifies this`pos, this`spent, this`buf, this`base, source
      ensures Valid()
      ensures r.Ended? ==> Search(data, old(pos)).Some? && r.end == EndOfRowFrom(data, old(pos)) == pos
                           && r.terminator == TerminatorLength(data, r.end) && r.end - r.terminator >= old(pos)
      ensures r.Last? ==> Search(data, old(pos)).None? && pos == old(pos) && base + |buf| == |data|
      ensures r.OverBudget? <==> spent > budget
      ensures spent + old(base + |buf|) <=
              old(spent) + Larger(old(base + |buf|), EndOfRowFrom(data, old(pos)) + window)
      ensures !r.OverBudget? ==> spent == old(spent) + (base + |buf|) - old(base + |buf|)
    {
      hide *;
      Bounds();
      ghost var from, start, cost := base + |buf|, pos, spent;
      ghost var reach := Larger(from, EndOfRowFrom(data, pos) + window);
      AheadOf(from, from, EndOfRowFrom(data, pos), window, |data|);
      while true
        invariant Valid() && pos == start && spent <= budget && spent == cost + base + |buf| - from
        invariant from <= base + |buf| <= reach
        decreases |data| - (base + |buf|)
      {
        Bounds();
        var m := Search(buf, pos - base);
        var bufferEnd := base + |buf|;
        Look();
        AheadOf(from, bufferEnd, EndOfRowFrom(data, pos), window, |data|);
        if m.Some? {
          if !(LoneCrAtEdge(buf, m.value) && bufferEnd < length) {
            Cross(base + m.value.end);
            return Ended(pos, m.value.end - m.value.start);
          }
        } else if bufferEnd >= length {
          return Last;
        }
        var ok := Fill();
        if !ok {
          return OverBudget;
        }
      }
    }

    method Cross(to: nat)
      requires Valid() && pos <= to <= base + |buf|
      modifies this`pos
      ensures Valid() && pos == to
    {
      pos := to;
    }

    lemma {:induction false} Asked()
      requires Valid()
      ensures source.asked <= began + budget
    {
    }

    lemma {:induction false} Bounds()
      requires Valid()
      ensures window > 0 && base <= pos <= base + |buf| <= |data| == length
    {
    }

    /** What the window of this walker tells. */
    lemma {:induction false} Look()
      requires Valid() && (pos == 0 || EndsAt(data, pos))
      ensures base <= pos
      ensures var m := Search(buf, pos - base);
              && (m.Some? && !(LoneCrAtEdge(buf, m.value) && base + |buf| < |data|) ==>
                    && Search(data, pos).Some? && EndOfRowFrom(data, pos) == base + m.value.end
                    && m.value.end - m.value.start == TerminatorLength(data, base + m.value.end) && base + m.value.start >= pos)
              && (m.None? && base + |buf| >= |data| ==> Search(data, pos).None?)
              && (m.None? || LoneCrAtEdge(buf, m.value) ==> EndOfRowFrom(data, pos) >= base + |buf|)
    {
      hide Search;
      hide EndsAt;
      hide LoneCrAtEdge;
      hide EndOfRowFrom;
      hide TerminatorLength;
      WindowSearch(data, base, buf, pos);
    }

    /** The next window starts at or before the row's end, so it reaches at most one window behind it. */
    static lemma {:induction false} AheadOf(from: nat, at: nat, end: nat, window: nat, length: nat)
      requires from <= at <= length
      ensures at <= Larger(from, end + window) && at <= end ==>
                at + (if window < length - at then window else length - at) <= Larger(from, end + window)
      ensures from <= Larger(from, end + window)
    {
    }

    static function Larger(a: int, b: int): int { if a < b then b else a }

    /** A CR that ends the window may be the first half of a CRLF. */
    static predicate LoneCrAtEdge(buf: Bytes, m: Match) {
      m.start <= m.end == |buf| && buf[m.start..m.end] == [CR]
    }

    static lemma {:induction false} EdgeTerminator(buf: Bytes, m: Match)
      requires m.start < m.end <= |buf| && IsTerminator(buf[m.start..m.end])
      ensures LoneCrAtEdge(buf, m) <==> m.end == |buf| && buf[m.end - 1] == CR
      ensures m.end - m.start == 1 || (m.end - m.start == 2 && buf[m.end - 2] == CR && buf[m.end - 1] == LF)
    {
      var t := buf[m.start..m.end];
      assert t[|t| - 1] == buf[m.end - 1];
      if |t| == 2 {
        assert t[0] == buf[m.end - 2];
      }
    }

    /** What a search in the window tells about the whole data. */
    static lemma {:induction false} WindowSearch(data: Bytes, base: nat, buf: Bytes, pos: nat)
      requires base <= pos <= base + |buf| <= |data| && buf == data[base..base + |buf|]
      requires pos == 0 || EndsAt(data, pos)
      ensures var m := Search(buf, pos - base);
              && (m.Some? && !(LoneCrAtEdge(buf, m.value) && base + |buf| < |data|) ==>
                    && Search(data, pos).Some? && EndOfRowFrom(data, pos) == base + m.value.end
                    && m.value.end - m.value.start == TerminatorLength(data, base + m.value.end) && base + m.value.start >= pos)
              && (m.None? && base + |buf| >= |data| ==> Search(data, pos).None?)
              && (m.None? || LoneCrAtEdge(buf, m.value) ==> EndOfRowFrom(data, pos) >= base + |buf|)
    {
      hide *;
      var m := Search(buf, pos - base);
      NoneBefore(data, base, buf, pos);
      if m.None? {
        EndAtLeast(data, pos, base + |buf|);
        if base + |buf| == |data| {
          NoEnd(data, pos);
        }
      } else {
        EdgeTerminator(buf, m.value);
        EndAtLeast(data, pos, base + m.value.end);
        if !(LoneCrAtEdge(buf, m.value) && base + |buf| < |data|) {
          WindowHit(data, base, buf, pos, m.value);
          EndIs(data, pos, base + m.value.end);
        }
      }
    }

    static lemma {:induction false} EndIs(data: Bytes, pos: nat, e: nat)
      requires pos < e <= |data| && EndsAt(data, e) && forall p :: pos < p < e ==> !EndsAt(data, p)
      ensures Search(data, pos).Some? && EndOfRowFrom(data, pos) == e
    {
      hide EndsAt;
      hide Search;
      var m := Search(data, pos);
      assert m.Some?;
      assert EndsAt(data, m.value.end);
    }

    static lemma {:induction false} NoEnd(data: Bytes, pos: nat)
      requires pos <= |data| && forall p :: pos < p <= |data| ==> !EndsAt(data, p)
      ensures Search(data, pos).None?
    {
      hide EndsAt;
      hide Search;
      var m := Search(data, pos);
    }

    static lemma {:induction false} EndAtLeast(data: Bytes, pos: nat, b: nat)
      requires pos <= b <= |data| && forall p :: pos < p < b ==> !EndsAt(data, p)
      ensures b <= EndOfRowFrom(data, pos)
    {
      hide EndsAt;
      hide Search;
      var m := Search(data, pos);
      if m.Some? {
        assert EndsAt(data, m.value.end);
      }
    }

    static lemma {:induction false} NoneBefore(data: Bytes, base: nat, buf: Bytes, pos: nat)
      requires base <= pos <= base + |buf| <= |data| && buf == data[base..base + |buf|]
      ensures var m := Search(buf, pos - base);
              && (forall p :: pos < p < base + |buf| && (m.None? || p < base + m.value.end) ==> !EndsAt(data, p))
              && (m.None? && base + |buf| == |data| ==> forall p :: pos < p <= |data| ==> !EndsAt(data, p))
              && (m.None? && pos < base + |buf| ==> !EndsAt(data, base + |buf|))
    {
      hide EndsAt;
      var m := Search(buf, pos - base);
      WindowEnds(data, base, buf);
      forall p | pos < p < base + |buf| && (m.None? || p < base + m.value.end)
        ensures !EndsAt(data, p)
      {
        assert !EndsAt(buf, p - base);
      }
    }

    static lemma {:induction false} WindowHit(data: Bytes, base: nat, buf: Bytes, pos: nat, m: Match)
      requires base <= pos <= base + |buf| <= |data| && buf == data[base..base + |buf|]
      requires pos == 0 || EndsAt(data, pos)
      requires pos - base <= m.start < m.end <= |buf| && EndsAt(buf, m.end)
      requires m.end - m.start == 1 || (m.end - m.start == 2 && buf[m.end - 2] == CR && buf[m.end - 1] == LF)
      requires pos - base < m.end - 1 ==> m.end - m.start == TerminatorLength(buf, m.end)
      requires m.end == |buf| && buf[m.end - 1] == CR ==> base + |buf| == |data|
      ensures EndsAt(data, base + m.end) && m.end - m.start == TerminatorLength(data, base + m.end)
    {
      var e := base + m.end;
      WindowEnds(data, base, buf);
      assert data[e - 1] == buf[m.end - 1];
      if m.end - 1 > pos - base {
        assert data[e - 2] == buf[m.end - 2];
      }
    }

    /** Inside the window terminators end where they do in the data. */
    static lemma {:induction false} WindowEnds(data: Bytes, base: nat, buf: Bytes)
      requires base + |buf| <= |data| && buf == data[base..base + |buf|]
      ensures forall q :: 0 < q < |buf| ==> (EndsAt(buf, q) <==> EndsAt(data, base + q))
      ensures |buf| > 0 && EndsAt(buf, |buf|) && (buf[|buf| - 1] != CR || base + |buf| == |data|) ==> EndsAt(data, base + |buf|)
      ensures |buf| > 0 && EndsAt(data, base + |buf|) ==> EndsAt(buf, |buf|)
    {
      forall q | 0 < q < |buf|
        ensures EndsAt(buf, q) <==> EndsAt(data, base + q)
      {
        assert buf[q - 1] == data[base + q - 1] && buf[q] == data[base + q];
      }
      if |buf| > 0 {
        assert buf[|buf| - 1] == data[base + |buf| - 1];
      }
    }
  }

  // ----- crossing one row ----------------------------------------------------------------------------

  datatype Crossed = Crossed(start: nat, end: nat, terminator: nat)

  /** Rows recorded in the side table, by number. */
  type Recorded = map<nat, LongRow>

  ghost predicate TrueRecorded(data: Bytes, threshold: nat, recorded: Recorded) {
    forall r :: r in recorded ==> recorded[r].row == r && TrueLong(data, threshold, recorded[r])
  }

  /** Row `row` is longer than the threshold. */
  predicate IsLong(data: Bytes, threshold: nat, row: nat) {
    row <= Breaks(data) && RowEnd(data, row) - RowStart(data, row) > threshold
  }

  /** A walk that pays at most `2 * threshold + 2` bytes for each row it crosses. */
  function Price(threshold: nat): nat { 2 * threshold + 2 }

  /** After `n` crossed rows, with `ahead` bytes read behind the last of them. */
  ghost predicate Thrifty(spent: int, ahead: int, n: nat, threshold: nat) {
    && 0 <= ahead <= threshold + TAIL_BYTES
    && (if ahead > 0 then spent - ahead + threshold + TAIL_BYTES <= Multiple(n, Price(threshold))
        else spent <= Multiple(n, Price(threshold)))
  }

  lemma {:induction false} ThriftyStep(spent: int, ahead: int, n: nat, threshold: nat, length: int, window: nat, after: int, aheadAfter: int)
    requires Thrifty(spent, ahead, n, threshold) && 0 <= length <= threshold && window <= threshold + TAIL_BYTES
    requires after <= spent - ahead + Walker.Larger(ahead, length + window)
    ensures after <= Multiple(n + 1, Price(threshold))
    ensures after == spent - ahead + length + aheadAfter && aheadAfter >= 0 ==> Thrifty(after, aheadAfter, n + 1, threshold)
  {
    NextMultiple(n, Price(threshold));
  }

  lemma {:induction false} ThriftyJump(spent: int, ahead: int, n: nat, threshold: nat)
    requires Thrifty(spent, ahead, n, threshold)
    ensures spent <= Multiple(n, Price(threshold)) && Thrifty(spent, 0, n + 1, threshold)
  {
    NextMultiple(n, Price(threshold));
  }

  /**
   A walk that began at `p0`, whatever the rows are: it paid for the bytes up to the end of its window, and for one more
   window and one tail for each recorded row it jumped over.
   */
  ghost predicate Frugal(spent: int, edge: int, pos: int, p0: int, jumps: nat, window: nat) {
    spent <= edge - p0 + Multiple(jumps, window + TAIL_BYTES) && pos <= edge <= pos + window
  }

  /** Reading row `[pos, end)` from an `edge` to a later one. */
  lemma {:induction false} FrugalRead(spent: int, edge: int, pos: int, p0: int, jumps: nat, window: nat, end: int, after: int, edgeAfter: int)
    requires Frugal(spent, edge, pos, p0, jumps, window) && pos <= end
    requires after + edge <= spent + Walker.Larger(edge, end + window)
    ensures after <= end - p0 + Multiple(jumps + 1, window + TAIL_BYTES)
    ensures after == spent + edgeAfter - edge && end <= edgeAfter ==> Frugal(after, edgeAfter, end, p0, jumps, window)
  {
    NextMultiple(jumps, window + TAIL_BYTES);
  }

  /** Jumping over row `[pos, end)`. */
  lemma {:induction false} FrugalJump(spent: int, edge: int, pos: int, p0: int, jumps: nat, window: nat, end: int, after: int)
    requires Frugal(spent, edge, pos, p0, jumps, window) && pos <= end && after <= spent + TAIL_BYTES
    ensures after <= end - p0 + Multiple(jumps + 1, window + TAIL_BYTES)
    ensures Frugal(after, end, end, p0, jumps + 1, window)
  {
    NextMultiple(jumps, window + TAIL_BYTES);
  }

  lemma {:induction false} NextMultiple(n: nat, price: nat)
    ensures Multiple(n + 1, price) == Multiple(n, price) + price
  {
  }

  lemma {:induction false} MultipleGrows(m: nat, n: nat, price: nat)
    requires m <= n
    ensures Multiple(m, price) <= Multiple(n, price)
  {
    if m < n {
      MultipleGrows(m, n - 1, price);
      NextMultiple(n - 1, price);
    }
  }

  /** The walk from the start of a row finds the row of the naive split. */
  lemma {:induction false} RowFromStart(data: Bytes, row: nat)
    requires row <= Breaks(data)
    ensures var pos := RowStart(data, row);
            && (pos == 0 || EndsAt(data, pos))
            && EndOfRowFrom(data, pos) == RowEnd(data, row)
            && (Search(data, pos).None? <==> row == Breaks(data))
            && Count(data, pos) == row
  {
    SearchRank(data, RowStart(data, row));
  }

  lemma {:induction false} RowAtIs(data: Bytes, row: nat)
    requires row <= Breaks(data)
    ensures var end := RowEnd(data, row);
            && RowAt(data, row).start == RowStart(data, row) && RowAt(data, row).end == end
            && RowAt(data, row).contentEnd == if row < Breaks(data) then end - TerminatorLength(data, end) else end
    ensures row < Breaks(data) ==> RowEnd(data, row) == RowStart(data, row + 1)
    ensures row == Breaks(data) ==> RowEnd(data, row) == |data|
    ensures row == Breaks(data) && RowStart(data, row) + 1 < |data| ==> TerminatorLength(data, |data|) == 0
    ensures RowStart(data, row) <= RowEnd(data, row)
  {
    RowSpan(data, row);
    if row == Breaks(data) && RowStart(data, row) + 1 < |data| {
      assert !EndsAt(data, |data|);
    }
  }

  /** `_tail_terminator`: the terminator of a recorded row, from a tail read that is charged. */
  method TailTerminator(walker: Walker, start: nat, end: nat) returns (r: Option<nat>)
    requires walker.Valid() && walker.spent <= walker.budget && start <= end <= |walker.data| && end - start >= TAIL_BYTES
    modifies walker`spent, walker.source
    ensures walker.Valid() && walker.spent == old(walker.spent) + TAIL_BYTES
    ensures r.None? <==> walker.spent > walker.budget
    ensures r.Some? ==> r.value == TerminatorLength(walker.data, end) <= TAIL_BYTES
  {
    var size := if TAIL_BYTES < end - start then TAIL_BYTES else end - start;
    var ok := walker.Charge(size);
    if !ok {
      return None;
    }
    var tail := walker.source.Read(end - size, size);
    assert tail == [walker.data[end - 2], walker.data[end - 1]];
    r := Some(if tail == [CR, LF] then 2 else if tail[1] == LF || tail[1] == CR then 1 else 0);
  }

  /** Cross row `row`, which starts at the walker: jump when it is recorded, else read to its end. */
  method CrossRow(walker: Walker, row: nat, recorded: Recorded, needTail: bool, ghost n: nat, ghost threshold: nat)
      returns (r: Option<Crossed>)
    requires walker.Valid() && walker.spent <= walker.budget && threshold > 0
    requires row <= Breaks(walker.data) && walker.pos == RowStart(walker.data, row)
    requires TrueRecorded(walker.data, threshold, recorded)
    modifies walker, walker.source
    ensures walker.Valid() && (r.None? <==> walker.spent > walker.budget)
    ensures r.Some? ==> r.value.start == RowStart(walker.data, row) && r.value.end == RowEnd(walker.data, row)
    ensures r.Some? && row < Breaks(walker.data) ==> walker.pos == RowStart(walker.data, row + 1)
    ensures r.Some? && (needTail || row !in recorded) ==>
              r.value.end - r.value.terminator >= 0
              && RowRange(r.value.start, r.value.end - r.value.terminator, r.value.end) == RowAt(walker.data, row)
    ensures row in recorded ==> walker.spent <= old(walker.spent) + TAIL_BYTES
    ensures row in recorded && r.Some? ==> walker.base + |walker.buf| == RowEnd(walker.data, row)
    ensures row !in recorded ==>
              walker.spent + old(walker.base + |walker.buf|) <=
              old(walker.spent) + Walker.Larger(old(walker.base + |walker.buf|), RowEnd(walker.data, row) + walker.window)
    ensures row !in recorded && r.Some? ==>
              && walker.spent == old(walker.spent) + (walker.base + |walker.buf|) - old(walker.base + |walker.buf|)
              && RowEnd(walker.data, row) <= walker.base + |walker.buf|
    ensures Thrifty(old(walker.spent), old(walker.base + |walker.buf| - walker.pos), n, threshold)
            && walker.window <= threshold + TAIL_BYTES
            && (row in recorded || RowEnd(walker.data, row) - RowStart(walker.data, row) <= threshold) ==>
              && walker.spent <= Multiple(n + 1, Price(threshold)) + TAIL_BYTES
              && (!needTail || row !in recorded ==> walker.spent <= Multiple(n + 1, Price(threshold)))
              && (r.Some? && (!needTail || row !in recorded) && row < Breaks(walker.data) ==>
                    Thrifty(walker.spent, walker.base + |walker.buf| - walker.pos, n + 1, threshold))
  {
    hide *;
    ghost var data, spent, ahead := walker.data, walker.spent, walker.base + |walker.buf| - walker.pos;
    RowAtIs(data, row);
    RowFromStart(data, row);
    walker.Bounds();
    if row in recorded {
      var w := recorded[row];
      RecordedAt(data, threshold, recorded, row);
      if Thrifty(spent, ahead, n, threshold) {
        ThriftyJump(spent, ahead, n, threshold);
        NextMultiple(n, Price(threshold));
      }
      walker.Jump(w.end);
      var terminator: nat := 0;
      if needTail {
        var tail := TailTerminator(walker, w.start, w.end);
        if tail.None? {
          return None;
        }
        terminator := tail.value;
      }
      return Some(Crossed(w.start, w.end, terminator));
    }
    var start := walker.pos;
    var found := walker.Advance();
    walker.Bounds();
    if Thrifty(spent, ahead, n, threshold) && walker.window <= threshold + TAIL_BYTES && RowEnd(data, row) - start <= threshold {
      LargerShift(start + ahead, RowEnd(data, row) + walker.window, start);
      ThriftyStep(spent, ahead, n, threshold, RowEnd(data, row) - start, walker.window, walker.spent,
                  walker.base + |walker.buf| - RowEnd(data, row));
    }
    if found.OverBudget? {
      return None;
    }
    if found.Last? {
      return Some(Crossed(start, walker.length, 0));
    }
    r := Some(Crossed(start, found.end, found.terminator));
  }

  lemma {:induction false} LargerShift(a: int, b: int, x: int)
    ensures Walker.Larger(a - x, b - x) == Walker.Larger(a, b) - x
  {
  }

  lemma {:induction false} RecordedAt(data: Bytes, threshold: nat, recorded: Recorded, row: nat)
    requires TrueRecorded(data, threshold, recorded) && row in recorded && threshold > 0
    ensures var w := recorded[row];
            w.row == row <= Breaks(data) && w.start == RowStart(data, row) && w.end == RowEnd(data, row) <= |data| && w.end - w.start >= TAIL_BYTES == 2
  {
    RowAtIs(data, row);
  }

  // ----- the index -------------------------------------------------------------------------------------

  /** At most `cap` long rows are kept. */
  function Kept(all: seq<LongRow>, cap: nat): seq<LongRow> {
    if |all| <= cap then all else all[..cap]
  }

  /** The long rows known at a frontier; the last row only once the scan is complete. */
  function KnownLongs(data: Bytes, threshold: nat, frontier: nat, complete: bool): seq<LongRow>
    requires frontier <= |data|
  {
    if complete then AllLongs(data, threshold) else Longs(data, threshold, frontier)
  }

  class LineIndex {
    const source: Reader
    const length: nat
    const stride: nat
    const threshold: nat
    const cap: nat
    const budget: nat
    const maxLines: nat
    const scanBlock: nat
    const fillSize: nat
    var starts: seq<nat>
    var longRows: seq<nat>
    var longStarts: seq<nat>
    var longEnds: seq<nat>
    var overflow: bool
    var count: nat
    var scanned: nat
    var complete: bool
    ghost const data: Bytes
    /** The bytes in front of it have been counted. */
    ghost var frontier: nat

    ghost predicate Settings() {
      data == source.data && length == |data| && stride > 0 && threshold > 0 && budget > 0 && maxLines > 0 && scanBlock > 0 && 0 < fillSize <= threshold + TAIL_BYTES
    }

    /** The published state is that of the bytes in front of the frontier. */
    ghost predicate Valid()
      reads this
    {
      && Settings()
      && frontier <= |data| && (complete ==> frontier == |data|)
      && starts == [0] + Entries(data, stride, frontier)
      && count == Count(data, frontier) + 1
      && scanned == (if complete then |data| else OpenRow(data, frontier))
      && |longRows| == |longStarts| == |longEnds|
      && Table() == Kept(KnownLongs(data, threshold, frontier, complete), cap)
      && (overflow <==> |KnownLongs(data, threshold, frontier, complete)| > cap)
    }

    /** The side table as a sequence. */
    ghost function Table(): seq<LongRow>
      requires |longRows| == |longStarts| == |longEnds|
      reads this
    {
      TableOf(longRows, longStarts, longEnds)
    }

    static ghost function TableOf(rows: seq<nat>, starts: seq<nat>, ends: seq<nat>): seq<LongRow>
      requires |rows| == |starts| == |ends|
    {
      seq(|rows|, i requires 0 <= i < |rows| => LongRow(rows[i], starts[i], ends[i]))
    }

    /** What this index can answer at best: the oracle the rest of the editor relies on. */
    ghost function View(): Index
      requires Valid()
      reads this
    {
      Index(data, count, complete, scanned, {}, {})
    }

    /** No row is missing in the side table and the budget covers every walk between two entries. */
    ghost predicate Roomy()
      reads this
    {
      !overflow && stride * (2 * threshold + 2) + 2 <= budget
    }

    /** The default settings leave room. */
    lemma {:induction false} DefaultsAreRoomy()
      requires stride == DEFAULT_STRIDE && threshold == DEFAULT_LONG_LINE_THRESHOLD && budget == DEFAULT_READ_BUDGET
      ensures Roomy() <==> !overflow
    {
    }

    constructor (source: Reader, stride: nat, threshold: nat, cap: nat, budget: nat, maxLines: nat, scanBlock: nat, walkWindow: nat)
      requires stride > 0 && threshold > 0 && budget > 0 && maxLines > 0 && scanBlock > 0 && walkWindow > 0
      ensures Valid() && frontier == 0 && !complete && this.source == source && data == source.data
      ensures this.stride == stride && this.threshold == threshold && this.cap == cap && this.budget == budget && this.maxLines == maxLines
      ensures this.scanBlock == scanBlock
    {
      this.source, this.stride, this.threshold, this.cap := source, stride, threshold, cap;
      data, length := source.data, |source.data|;
      this.budget, this.maxLines, this.scanBlock := budget, maxLines, scanBlock;
      fillSize := if walkWindow < threshold + TAIL_BYTES then walkWindow else threshold + TAIL_BYTES;
      starts, longRows, longStarts, longEnds, overflow := [0], [], [], [], false;
      count, scanned, complete, frontier := 1, 0, false, 0;
      new;
      EntriesNone(data, stride);
      LongsNone(data, threshold);
    }

    /** `_publish`: append what one block gave; long rows beyond the cap are dropped and remembered as an overflow. */
    method Publish(newCount: nat, entries: seq<nat>, longs: seq<LongRow>, newScanned: nat, nowComplete: bool, ghost f: nat)
      requires Valid() && !complete && frontier <= f <= |data| && (nowComplete ==> f == |data|)
      requires starts + entries == [0] + Entries(data, stride, f)
      requires KnownLongs(data, threshold, frontier, complete) + longs == KnownLongs(data, threshold, f, nowComplete)
      requires newCount == Count(data, f) + 1 && newScanned == (if nowComplete then |data| else OpenRow(data, f))
      modifies this
      ensures Valid() && frontier == f && complete == nowComplete && count == newCount && scanned == newScanned
      ensures starts == old(starts) + entries
    {
      hide Entries;
      hide Longs;
      hide AllLongs;
      hide Count;
      hide OpenRow;
      ghost var known := KnownLongs(data, threshold, frontier, complete);
      ghost var table := Table();
      hide KnownLongs;
      starts := starts + entries;
      var room := if cap > |longRows| then cap - |longRows| else 0;
      var i := 0;
      KeptNone(known, cap);
      assert table + longs[..0] == table;
      while i < |longs| && i < room
        invariant 0 <= i <= |longs| && i <= room
        invariant |longRows| == |longStarts| == |longEnds| && Table() == table + longs[..i]
        invariant starts == old(starts) + entries && overflow == old(overflow)
      {
        TableGrows(longRows, longStarts, longEnds, longs[i]);
        longRows, longStarts, longEnds := longRows + [longs[i].row], longStarts + [longs[i].start], longEnds + [longs[i].end];
        assert longs[..i + 1] == longs[..i] + [longs[i]];
        i := i + 1;
      }
      if |longs| > room {
        overflow := true;
      }
      KeptGrows(known, longs, cap, i);
      count, scanned, complete := newCount, newScanned, nowComplete;
      frontier := f;
    }

    static lemma {:induction false} KeptNone(all: seq<LongRow>, cap: nat)
      ensures |Kept(all, cap)| <= cap && |Kept(all, cap)| <= |all|
    {
    }

    static lemma {:induction false} TableGrows(rows: seq<nat>, starts: seq<nat>, ends: seq<nat>, w: LongRow)
      requires |rows| == |starts| == |ends|
      ensures TableOf(rows + [w.row], starts + [w.start], ends + [w.end]) == TableOf(rows, starts, ends) + [w]
    {
    }

    static lemma {:induction false} KeptGrows(known: seq<LongRow>, longs: seq<LongRow>, cap: nat, i: nat)
      requires i <= |longs|
      requires var room := if cap > |Kept(known, cap)| then cap - |Kept(known, cap)| else 0; i == if |longs| < room then |longs| else room
      ensures Kept(known, cap) + longs[..i] == Kept(known + longs, cap)
      ensures var room := if cap > |Kept(known, cap)| then cap - |Kept(known, cap)| else 0;
              |known + longs| > cap <==> |known| > cap || |longs| > room
    {
    }

    // ----- the scan ------------------------------------------------------------------------------------

    /** The scanner is in step with what was published: it has seen the bytes before `pos`. */
    ghost predicate InStep(scanner: RowScanner, pos: nat)
      reads this, scanner
    {
      && Valid() && !complete && pos <= |data|
      && scanner.Valid() && scanner.stride == stride && scanner.threshold == threshold
      && scanner.seen == data[..pos] && (scanner.done <==> 0 < pos == |data|)
      && scanner.entries == [] && scanner.longs == []
      && scanner.Frontier() == frontier && starts == [0] + scanner.takenEntries
      && scanner.takenLongs == KnownLongs(data, threshold, frontier, false)
    }

    /** One round of the scan loop: read a block of `size` bytes at most, feed it, publish. */
    method ScanStep(scanner: RowScanner, pos: nat, size: nat) returns (next: nat)
      requires InStep(scanner, pos) && pos < |data| && 1 <= size <= scanBlock
      modifies this, scanner, source
      ensures InStep(scanner, next) && pos < next <= |data| && source.asked == old(source.asked) + next - pos
      ensures frontier >= old(frontier) && count >= old(count) && scanned >= old(scanned)
    {
      hide *;
      StepParts(scanner, pos);
      Parts();
      next := if size < length - pos then pos + size else length;
      var block := source.Read(pos, next - pos);
      NextBlock(data, pos, next);
      scanner.Feed(block, pos, pos + |block| >= length);
      ScannerParts(scanner);
      ghost var f := scanner.Frontier();
      ghost var taken, takenLongs, found, foundLongs := scanner.takenEntries, scanner.takenLongs, scanner.entries, scanner.longs;
      KnownAt(data, next, f, stride, threshold, scanner.count, scanner.prev, taken + found, takenLongs + foundLongs, scanner.carry);
      FrontierGrows(data, frontier, f);
      var entries, longs := scanner.Take();
      ScannerParts(scanner);
      assert [0] + taken + entries == [0] + (taken + entries);
      Publish(scanner.count, entries, longs, scanner.prev, false, f);
      IsInStep(scanner, next);
    }

    lemma {:induction false} StepParts(scanner: RowScanner, pos: nat)
      requires InStep(scanner, pos)
      ensures Valid() && !complete && pos <= |data| && Settings() && stride > 0 && frontier <= pos <= |data|
      ensures scanner.Valid() && scanner.stride == stride && scanner.threshold == threshold
      ensures scanner.seen == data[..pos] && |scanner.seen| == pos && (scanner.done <==> 0 < pos == |data|)
      ensures scanner.entries == [] && scanner.longs == [] && scanner.Frontier() == frontier
      ensures starts == [0] + scanner.takenEntries
      ensures scanner.takenLongs == KnownLongs(data, threshold, frontier, complete)
      ensures count == Count(data, frontier) + 1 && scanned == OpenRow(data, frontier)
    {
      hide Count;
      hide OpenRow;
      hide KnownLongs;
      hide RowScanner.Valid;
    }

    lemma {:induction false} IsInStep(scanner: RowScanner, pos: nat)
      requires Valid() && !complete && pos <= |data|
      requires scanner.Valid() && scanner.stride == stride && scanner.threshold == threshold
      requires scanner.seen == data[..pos] && (scanner.done <==> 0 < pos == |data|)
      requires scanner.entries == [] && scanner.longs == [] && scanner.Frontier() == frontier
      requires starts == [0] + scanner.takenEntries
      requires scanner.takenLongs == KnownLongs(data, threshold, frontier, false)
      ensures InStep(scanner, pos)
    {
      hide Valid;
      hide RowScanner.Valid;
      hide RowScanner.Frontier;
      hide KnownLongs;
    }

    static lemma {:induction false} ScannerParts(scanner: RowScanner)
      requires scanner.Valid()
      ensures scanner.Frontier() == if scanner.carry then |scanner.seen| - 1 else |scanner.seen|
      ensures scanner.carry <==> !scanner.done && EndsInCr(scanner.seen)
      ensures 0 <= scanner.Frontier() <= |scanner.seen|
      ensures Found(scanner.seen, scanner.stride, scanner.threshold, scanner.Frontier(), scanner.count, scanner.prev,
                    scanner.takenEntries + scanner.entries, scanner.takenLongs + scanner.longs)
      ensures scanner.entries == [] ==> scanner.takenEntries + scanner.entries == scanner.takenEntries
      ensures scanner.longs == [] ==> scanner.takenLongs + scanner.longs == scanner.takenLongs
    {
      hide Found;
    }

    static lemma {:induction false} NextBlock(data: Bytes, pos: nat, next: nat)
      requires pos < next <= |data|
      ensures data[pos..next] != [] && |data[pos..next]| == next - pos && data[..pos] + data[pos..next] == data[..next]
    {
    }

    /** What the scanner found in the bytes seen holds in the whole file. */
    static lemma {:induction false} KnownAt(data: Bytes, pos: nat, f: int, stride: nat, threshold: nat, count: nat, prev: nat,
                                            entries: seq<nat>, longs: seq<LongRow>, carry: bool)
      requires pos <= |data| && 0 <= f <= pos && stride > 0 && f == (if carry then pos - 1 else pos)
      requires carry <==> !(0 < pos == |data|) && EndsInCr(data[..pos])
      requires Found(data[..pos], stride, threshold, f, count, prev, entries, longs)
      ensures entries == Entries(data, stride, f) && longs == KnownLongs(data, threshold, f, false)
      ensures count == Count(data, f) + 1 && prev == OpenRow(data, f)
    {
      hide Entries;
      hide Longs;
      hide OpenRow;
      hide Count;
      assert data == data[..pos] + data[pos..];
      if pos == |data| {
        assert data[..pos] == data;
      } else {
        RowScanner.FoundGrows(data[..pos], data[pos..], stride, threshold, f, count, prev, entries, longs);
      }
    }

    static lemma {:induction false} FrontierGrows(data: Bytes, m: nat, n: int)
      requires m <= n <= |data|
      ensures Count(data, m) <= Count(data, n) && OpenRow(data, m) <= OpenRow(data, n)
    {
      CountMonotone(data, m, n);
      OpenRowGrows(data, m, n);
    }

    static lemma {:induction false} OpenRowGrows(data: Bytes, m: nat, n: nat)
      requires m <= n <= |data|
      ensures OpenRow(data, m) <= OpenRow(data, n)
    {
      if m < n {
        OpenRowGrows(data, m, n - 1);
      }
    }

    /** The last round: the open row is known to be the last, and the index is complete. */
    method ScanEnd(scanner: RowScanner, pos: nat)
      requires InStep(scanner, pos) && pos >= |data|
      modifies this
      ensures Valid() && complete && count == Breaks(data) + 1
      ensures count >= old(count) && scanned >= old(scanned)
    {
      hide *;
      StepParts(scanner, pos);
      ScannerParts(scanner);
      EndParts(scanner.seen, data, pos, scanner.done, scanner.carry);
      Parts();
      var last := scanner.Finish(length);
      LastParts(data, threshold, frontier);
      assert starts + [] == starts;
      Publish(scanner.count, [], last, length, true, |data|);
    }

    static lemma {:induction false} EndParts(seen: Bytes, data: Bytes, pos: nat, done: bool, carry: bool)
      requires pos == |data| && seen == data[..pos] && (done <==> 0 < pos == |data|) && (carry <==> !done && EndsInCr(seen))
      ensures seen == data && (done || seen == []) && !carry
    {
    }

    static lemma {:induction false} LastParts(data: Bytes, threshold: nat, f: nat)
      requires f <= |data|
      ensures Count(data, |data|) == Breaks(data) && OpenRow(data, f) <= |data|
      ensures KnownLongs(data, threshold, |data|, true) == AllLongs(data, threshold)
    {
    }

    /**
     `_scan`: however large the blocks come, the scan ends with the complete index and has asked for every byte once,
     unless a look finds the request to cancel. `cancel` is the look from which on it is requested, `None` for never;
     there is one look before each block and one at the end. Then the index stays true for the blocks published.
     Queries may run between any two rounds.
     */
    method Scan(cancel: Option<nat>) returns (looks: nat)
      requires Valid() && frontier == 0 && !complete
      modifies this, source
      ensures Valid() && 1 <= looks <= length + 1
      ensures complete <==> cancel.None? || looks <= cancel.value
      ensures complete ==> source.asked == old(source.asked) + length
      ensures !complete ==>
                && looks - 1 <= source.asked - old(source.asked) <= length
                && source.asked - old(source.asked) - 1 <= frontier <= source.asked - old(source.asked)
    {
      var scanner := new RowScanner(stride, threshold);
      StartsInStep(scanner);
      var pos := 0;
      hide *;
      StepParts(scanner, pos);
      Parts();
      looks := 0;
      while pos < length
        invariant InStep(scanner, pos) && fresh(scanner) && pos <= |data| && source.asked == old(source.asked) + pos
        invariant looks <= pos && (cancel.Some? ==> looks <= cancel.value)
      {
        StepParts(scanner, pos);
        ScannerParts(scanner);
        looks := looks + 1;
        if cancel.Some? && cancel.value < looks {
          return;
        }
        var size: nat := *;
        size := if 1 <= size <= scanBlock then size else scanBlock;
        pos := ScanStep(scanner, pos, size);
        StepParts(scanner, pos);
      }
      StepParts(scanner, pos);
      ScannerParts(scanner);
      looks := looks + 1;
      if cancel.Some? && cancel.value < looks {
        return;
      }
      ScanEnd(scanner, pos);
    }

    lemma {:induction false} StartsInStep(scanner: RowScanner)
      requires Valid() && frontier == 0 && !complete
      requires scanner.Valid() && scanner.seen == [] && !scanner.done && scanner.takenEntries == [] && scanner.takenLongs == []
      requires scanner.stride == stride && scanner.threshold == threshold && scanner.entries == [] && scanner.longs == []
      ensures InStep(scanner, 0)
    {
      EntriesNone(data, stride);
      LongsNone(data, threshold);
    }

    /** `from_scan`: a complete index from a scanner that saw every byte, as the save thread leaves it. */
    constructor FromScan(source: Reader, stride: nat, threshold: nat, cap: nat, budget: nat, maxLines: nat, scanBlock: nat, walkWindow: nat,
                         scan: ScanResult)
      requires stride > 0 && threshold > 0 && budget > 0 && maxLines > 0 && scanBlock > 0 && walkWindow > 0
      requires scan == ScanResult(Breaks(source.data) + 1, Entries(source.data, stride, |source.data|), AllLongs(source.data, threshold))
      ensures Valid() && complete && this.source == source && data == source.data
      ensures this.stride == stride && this.threshold == threshold && this.cap == cap && this.budget == budget && this.maxLines == maxLines
    {
      this.source, this.stride, this.threshold, this.cap := source, stride, threshold, cap;
      data, length := source.data, |source.data|;
      this.budget, this.maxLines, this.scanBlock := budget, maxLines, scanBlock;
      fillSize := if walkWindow < threshold + TAIL_BYTES then walkWindow else threshold + TAIL_BYTES;
      starts, longRows, longStarts, longEnds, overflow := [0], [], [], [], false;
      count, scanned, complete, frontier := 1, 0, false, 0;
      new;
      EntriesNone(data, stride);
      LongsNone(data, threshold);
      assert [0] + scan.entries == [0] + Entries(data, stride, |data|);
      assert [] + scan.longs == scan.longs;
      Publish(scan.count, scan.entries, scan.longs, length, true, |data|);
    }

    /**
     A complete index is determined by the bytes and the settings: one built block by block, at whatever pace, and one
     built from the scanner of a save are the same.
     */
    lemma {:induction false} OnlyOneComplete(other: LineIndex)
      requires Valid() && complete && other.Valid() && other.complete
      requires data == other.data && stride == other.stride && threshold == other.threshold && cap == other.cap
      ensures starts == other.starts && count == other.count && scanned == other.scanned && overflow == other.overflow
      ensures longRows == other.longRows && longStarts == other.longStarts && longEnds == other.longEnds
    {
      hide Entries;
      hide AllLongs;
      hide Count;
      hide Kept;
      assert Table() == other.Table();
      forall i | 0 <= i < |longRows|
        ensures longRows[i] == other.longRows[i] && longStarts[i] == other.longStarts[i] && longEnds[i] == other.longEnds[i]
      {
        assert Table()[i] == other.Table()[i];
      }
    }

    // ----- what is published ----------------------------------------------------------------------------

    function Resolvable(): nat
      requires count >= 1
      reads this
    {
      if complete then count else count - 1
    }

    /** The published state is a truthful oracle. */
    lemma {:induction false} Truthful()
      requires Valid()
      ensures 1 <= count <= Breaks(data) + 1 && View().Truthful() && Resolvable() == View().Resolvable() <= Breaks(data) + 1
      ensures !complete ==> Resolvable() <= Breaks(data) && scanned == RowStart(data, Resolvable())
      ensures complete ==> Resolvable() == Breaks(data) + 1 && scanned == |data|
      ensures scanned <= |data|
    {
      OpenRowIs(data, frontier);
      hide Entries;
      hide KnownLongs;
    }

    /** Every stored entry is the start of its row, and there is one for every stride. */
    lemma {:induction false} EntryAt(k: nat)
      requires Valid() && Multiple(k, stride) < count
      ensures k < |starts| && Multiple(k, stride) <= Breaks(data) && starts[k] == RowStart(data, Multiple(k, stride))
    {
      CountMonotone(data, frontier, |data|);
      EntriesAre(data, stride, frontier);
      hide Entries;
      hide KnownLongs;
      hide Count;
      if k > 0 {
        MultipleCount(k, stride, count - 1);
        var e := Entries(data, stride, frontier)[k - 1];
        assert starts[k] == e;
        BreakEndIs(data, e);
      }
    }

    lemma {:induction false} EntryBound(k: nat)
      requires Valid() && k < |starts|
      ensures Multiple(k, stride) < count
    {
      EntriesAre(data, stride, frontier);
      hide Entries;
      hide KnownLongs;
      hide Count;
      DivideParts(count - 1, stride);
      MultipleGrows(k, (count - 1) / stride, stride);
    }

    lemma {:induction false} StartsAscend()
      requires Valid()
      ensures forall i, j :: 0 <= i < j < |starts| ==> starts[i] <= starts[j]
    {
      EntriesAscend(data, stride, frontier);
      hide Entries;
      hide KnownLongs;
    }

    /** Offsets in front of the open row lie in resolvable rows. */
    lemma {:induction false} BeforeScanned(offset: nat)
      requires Valid() && offset < scanned && offset <= |data|
      ensures count >= 1 && Count(data, offset) < Resolvable()
    {
      Truthful();
      hide KnownLongs;
      hide Entries;
      CountMonotone(data, offset, |data|);
      if !complete {
        CountStrict(data, offset, scanned);
      }
    }

    static lemma {:induction false} MultipleCount(k: nat, stride: nat, n: nat)
      requires stride > 0 && Multiple(k, stride) <= n
      ensures k <= n / stride
    {
      DivideParts(n, stride);
      AtLeast(k - n / stride, stride);
      Segments(k, n / stride, stride);
    }

    static lemma {:induction false} Segments(a: int, b: int, stride: int)
      ensures (a - b) * stride == a * stride - b * stride
    {
    }

    lemma {:induction false} Parts()
      requires Valid()
      ensures Settings() && stride > 0 && threshold > 0 && fillSize > 0 && fillSize <= threshold + TAIL_BYTES
      ensures data == source.data && length == |data|
    {
    }

    lemma {:induction false} ResolvableIs()
      requires count >= 1
      ensures Resolvable() == if complete then count else count - 1
    {
    }

    /** Recorded rows are rows of the naive split; without an overflow no resolvable long row is missing. */
    lemma {:induction false} TableFacts()
      requires Valid()
      ensures |longRows| == |longStarts| == |longEnds|
      ensures forall i :: 0 <= i < |longRows| ==> TrueLong(data, threshold, LongRow(longRows[i], longStarts[i], longEnds[i]))
      ensures forall i, j :: 0 <= i < j < |longRows| ==> longRows[i] < longRows[j]
      ensures !overflow ==> forall row :: 0 <= row < Resolvable() && IsLong(data, threshold, row) ==> row in longRows
    {
      Truthful();
      ghost var all := KnownLongs(data, threshold, frontier, complete);
      AllLongsAre(data, threshold);
      LongsTrue(data, threshold, frontier);
      hide AllLongs;
      hide Longs;
      hide Entries;
      hide TrueLong;
      hide RowStart;
      hide RowEnd;
      forall i | 0 <= i < |longRows|
        ensures TrueLong(data, threshold, LongRow(longRows[i], longStarts[i], longEnds[i]))
      {
        assert Table()[i] == all[i];
      }
      forall i, j | 0 <= i < j < |longRows|
        ensures longRows[i] < longRows[j]
      {
        assert Table()[i] == all[i] && Table()[j] == all[j];
      }
      if !overflow {
        forall row | 0 <= row < Resolvable() && IsLong(data, threshold, row)
          ensures row in longRows
        {
          var w := LongRow(row, RowStart(data, row), RowEnd(data, row));
          assert w in all;
          var i :| 0 <= i < |all| && all[i] == w;
          assert Table()[i] == w;
          assert longRows[i] == row;
        }
      }
    }

    // ----- queries ------------------------------------------------------------------------------------

    /** `_recorded_between`: the recorded rows in `[low, high)`. */
    method RecordedBetween(low: nat, high: nat) returns (recorded: Recorded)
      requires Valid()
      ensures TrueRecorded(data, threshold, recorded)
      ensures forall r :: r in recorded <==> r in longRows && low <= r < high
    {
      hide *;
      TableFacts();
      // On integers `bisect_left` of `x` is `bisect_right` of `x - 1`.
      var lo := BisectRight(longRows, low - 1);
      var hi := BisectRight(longRows, high - 1);
      var i := lo;
      recorded := map[];
      NothingRecorded(data, threshold);
      while i < hi
        invariant lo <= i && (i <= hi || i == lo) && TrueRecorded(data, threshold, recorded)
        invariant forall r :: r in recorded <==> exists j :: lo <= j < i && longRows[j] == r
      {
        OneMoreRecorded(data, threshold, recorded, LongRow(longRows[i], longStarts[i], longEnds[i]));
        recorded := recorded[longRows[i] := LongRow(longRows[i], longStarts[i], longEnds[i])];
        i := i + 1;
      }
    }

    lemma {:induction false} AllRecorded(recorded: Recorded, low: nat, high: nat)
      requires Valid() && Roomy() && high <= Resolvable()
      requires forall r :: r in recorded <==> r in longRows && low <= r < high
      ensures Covers(recorded, low, high)
    {
      hide IsLong;
      hide TrueLong;
      hide Valid;
      TableFacts();
    }

    static lemma {:induction false} NothingRecorded(data: Bytes, threshold: nat)
      ensures TrueRecorded(data, threshold, map[])
    {
    }

    static lemma {:induction false} OneMoreRecorded(data: Bytes, threshold: nat, recorded: Recorded, w: LongRow)
      requires TrueRecorded(data, threshold, recorded) && TrueLong(data, threshold, w)
      ensures TrueRecorded(data, threshold, recorded[w.row := w])
    {
    }

    /** Every long row of the walk is in the dictionary of the walk. */
    ghost predicate Covers(recorded: Recorded, low: nat, high: nat) {
      forall row :: low <= row < high && IsLong(data, threshold, row) ==> row in recorded
    }

    /** When there is room, no walk between two entries exceeds the budget. */
    lemma {:induction false} RoomFor(n: nat, spent: int)
      requires Roomy() && n < stride && spent <= Multiple(n + 1, Price(threshold)) + TAIL_BYTES
      ensures spent <= budget
    {
      MultipleGrows(n + 1, stride, Price(threshold));
      assert Multiple(stride, Price(threshold)) == stride * (2 * threshold + 2);
    }

    /** How many of the rows `[from, row)` are recorded. */
    ghost function Jumps(from: nat, row: nat): nat
      reads this
      decreases row
    {
      if row <= from then 0 else Jumps(from, row - 1) + if row - 1 in longRows then 1 else 0
    }

    /**
     What the walk to the end of `row` costs at most from the entry in front of `first`: the bytes in between, and one
     window and one tail for each recorded row on the way and for the row itself.
     */
    ghost function Bill(first: nat, row: nat): int
      requires stride > 0 && row <= Breaks(data) && Multiple(first / stride, stride) <= Breaks(data)
      reads this
    {
      RowEnd(data, row) - RowStart(data, Multiple(first / stride, stride))
      + Multiple(Jumps(Multiple(first / stride, stride), row) + 1, fillSize + TAIL_BYTES)
    }

    lemma {:induction false} BillGrows(first: nat, row: nat, later: nat)
      requires stride > 0 && row <= later <= Breaks(data) && Multiple(first / stride, stride) <= Breaks(data)
      ensures Bill(first, row) <= Bill(first, later)
      decreases later
    {
      hide RowEnd;
      hide RowStart;
      if row < later {
        BillGrows(first, row, later - 1);
        EndsRise(data, later - 1);
        var from := Multiple(first / stride, stride);
        MultipleGrows(Jumps(from, later - 1) + 1, Jumps(from, later) + 1, fillSize + TAIL_BYTES);
      }
    }

    static lemma {:induction false} EndsRise(data: Bytes, row: nat)
      requires row < Breaks(data)
      ensures RowEnd(data, row) <= RowEnd(data, row + 1)
    {
      RowAtIs(data, row);
      RowAtIs(data, row + 1);
    }

    lemma {:induction false} BillIs(first: nat, row: nat, from: nat)
      requires stride > 0 && row <= Breaks(data) && from == Multiple(first / stride, stride) <= Breaks(data)
      ensures Bill(first, row) == RowEnd(data, row) - RowStart(data, from) + Multiple(Jumps(from, row) + 1, fillSize + TAIL_BYTES)
    {
      hide RowEnd;
      hide RowStart;
      hide Multiple;
    }

    lemma {:induction false} JumpsIs(from: nat, row: nat)
      ensures Jumps(from, from) == 0
      ensures row >= from ==> Jumps(from, row + 1) == Jumps(from, row) + if row in longRows then 1 else 0
    {
    }

    /** Crossing one row of a frugal walk. */
    lemma {:induction false} FrugalStep(recorded: bool, some: bool, spent: int, edge: int, pos: int, p0: int, jumps: nat, end: int, after: int, edgeAfter: int)
      requires Frugal(spent, edge, pos, p0, jumps, fillSize) && pos <= end
      requires recorded ==> after <= spent + TAIL_BYTES && (some ==> edgeAfter == end)
      requires !recorded ==> after + edge <= spent + Walker.Larger(edge, end + fillSize) && (some ==> after == spent + edgeAfter - edge && end <= edgeAfter)
      ensures after <= end - p0 + Multiple(jumps + 1, fillSize + TAIL_BYTES)
      ensures some ==> Frugal(after, edgeAfter, end, p0, jumps + if recorded then 1 else 0, fillSize)
    {
      hide *;
      if recorded {
        FrugalJump(spent, edge, pos, p0, jumps, fillSize, end, after);
      } else {
        FrugalRead(spent, edge, pos, p0, jumps, fillSize, end, after, edgeAfter);
      }
    }

    lemma {:induction false} FrugalStart(p0: int)
      ensures Frugal(0, p0, p0, p0, 0, fillSize)
    {
    }

    lemma {:induction false} NotLong(row: nat, recorded: Recorded, low: nat, high: nat)
      requires Covers(recorded, low, high) && low <= row < high && row <= Breaks(data)
      ensures row in recorded || RowEnd(data, row) - RowStart(data, row) <= threshold
    {
    }

    /**
     One row of a walk that began at an entry and looks for row `first`: over the budget only when the walk so far and
     this row cost more than that, and never with room while the walk is `cheap`.
     */
    method CrossNext(walker: Walker, row: nat, recorded: Recorded, needTail: bool, ghost first: nat, ghost cheap: bool) returns (r: Option<Crossed>)
      requires Valid() && walker.Valid() && walker.spent <= budget && row <= Breaks(data)
      requires walker.data == data && walker.budget == budget && walker.window == fillSize && stride > 0
      requires Multiple(first / stride, stride) <= row && walker.pos == RowStart(data, row)
      requires TrueRecorded(data, threshold, recorded) && (row in recorded <==> row in longRows)
      requires Frugal(walker.spent, walker.base + |walker.buf|, walker.pos, RowStart(data, Multiple(first / stride, stride)),
                      Jumps(Multiple(first / stride, stride), row), fillSize)
      requires Roomy() && cheap ==>
                 && Thrifty(walker.spent, walker.base + |walker.buf| - walker.pos, row - Multiple(first / stride, stride), threshold)
                 && row - Multiple(first / stride, stride) < stride
                 && (row in recorded || RowEnd(data, row) - RowStart(data, row) <= threshold)
      modifies walker, walker.source
      ensures walker.Valid() && walker.data == data && walker.budget == budget && walker.window == fillSize
      ensures r.Some? ==> walker.spent <= budget && r.value.start == RowStart(data, row) && r.value.end == RowEnd(data, row)
      ensures r.None? ==> Bill(first, row) > budget && !(Roomy() && cheap)
      ensures r.Some? && (needTail || row !in recorded) ==>
                && r.value.end - r.value.terminator >= 0
                && Rows.RowRange(r.value.start, r.value.end - r.value.terminator, r.value.end) == RowAt(data, row)
      ensures r.Some? && row < Breaks(data) ==>
                && walker.pos == RowStart(data, row + 1)
                && Frugal(walker.spent, walker.base + |walker.buf|, walker.pos, RowStart(data, Multiple(first / stride, stride)),
                          Jumps(Multiple(first / stride, stride), row + 1), fillSize)
                && (Roomy() && cheap && (!needTail || row !in recorded) ==>
                      Thrifty(walker.spent, walker.base + |walker.buf| - walker.pos, row + 1 - Multiple(first / stride, stride), threshold))
    {
      hide *;
      Parts();
      ghost var from := Multiple(first / stride, stride);
      ghost var spent, edge, pos, p0 := walker.spent, walker.base + |walker.buf|, walker.pos, RowStart(data, from);
      RowAtIs(data, row);
      r := CrossRow(walker, row, recorded, needTail, row - from, threshold);
      FrugalStep(row in recorded, r.Some?, spent, edge, pos, p0, Jumps(from, row), RowEnd(data, row), walker.spent,
                 walker.base + |walker.buf|);
      JumpsIs(from, row);
      BillIs(first, row, from);
      if Roomy() && cheap {
        RoomFor(row - from, walker.spent);
      }
    }

    /**
     `_resolve`: consecutive rows from `first`. No more than the budget is read. A list that ends before it was asked to
     ends at a row whose walk would cost more than the budget.
     */
    method Resolve(first: nat, limit: nat) returns (out: seq<Rows.RowRange>)
      requires Valid()
      modifies source
      ensures source.asked <= old(source.asked) + budget && |out| <= limit && RowsFrom(data, first, out)
      ensures out != [] ==> first + |out| <= Resolvable()
      ensures Roomy() && limit > 0 && first < Resolvable() ==> out != []
      ensures |out| < limit && first + |out| < Resolvable() ==> Costly(first, first + |out|)
    {
      hide *;
      Parts();
      Truthful();
      out := [];
      NoRows(data, first);
      var resolvable := if complete then count else count - 1;
      ResolvableIs();
      var stop := if resolvable < first + limit then resolvable else first + limit;
      if first >= stop {
        return;
      }
      var entry := first / stride;
      DivideParts(first, stride);
      MultipleIs(entry, stride);
      var row := entry * stride;
      ghost var from := row;
      EntryAt(entry);
      var recorded := RecordedBetween(row, stop);
      ghost var asked0 := source.asked;
      var walker := new Walker(source, starts[entry], budget, fillSize);
      ThriftyStart(threshold);
      ghost var p0 := starts[entry];
      FrugalStart(p0);
      JumpsIs(from, from);
      while row < stop
        invariant from <= row <= stop <= Breaks(data) + 1 && fresh(walker) && walker.Valid() && walker.spent <= budget
        invariant walker.data == data && walker.budget == budget && walker.window == fillSize
        invariant walker.source == source && walker.began == asked0
        invariant row < stop ==> walker.pos == RowStart(data, row)
        invariant |out| == (if row < first then 0 else row - first) && RowsFrom(data, first, out)
        invariant row < stop ==> Frugal(walker.spent, walker.base + |walker.buf|, walker.pos, p0, Jumps(from, row), fillSize)
        invariant Roomy() && row <= first ==> Thrifty(walker.spent, walker.base + |walker.buf| - walker.pos, row - from, threshold)
      {
        if Roomy() {
          AllRecorded(recorded, from, stop);
          NotLong(row, recorded, from, stop);
        }
        var crossed := CrossNext(walker, row, recorded, row >= first, first, row <= first);
        if crossed.None? {
          CostlyFrom(first, row, first + |out|);
          break;
        }
        if row >= first {
          var c := crossed.value;
          MoreRows(data, first, out);
          out := out + [Rows.RowRange(c.start, c.end - c.terminator, c.end)];
        }
        row := row + 1;
      }
      walker.Asked();
    }

    /** The walk to the end of the row would cost more than the budget. */
    ghost predicate Costly(first: nat, row: nat)
      reads this
    {
      stride > 0 && row <= Breaks(data) && Multiple(first / stride, stride) <= Breaks(data) && Bill(first, row) > budget
    }

    lemma {:induction false} CostlyFrom(first: nat, row: nat, later: nat)
      requires stride > 0 && row <= later <= Breaks(data) && Multiple(first / stride, stride) <= Breaks(data) && Bill(first, row) > budget
      ensures Costly(first, later)
    {
      BillGrows(first, row, later);
    }

    /** `row_range`: the row of the naive split or `None`; with room it is never `None` for a resolvable row. */
    method RowRange(row: int) returns (r: Pieces.Result<Option<Rows.RowRange>>)
      requires Valid()
      modifies source
      ensures source.asked <= old(source.asked) + budget
      ensures r.Err? <==> row < 0
      ensures r.Err? ==> r.error == Pieces.IndexError
      ensures View().Truthful()
      ensures r.Ok? && r.value.Some? ==> r.value == View().RowRange(row)
      ensures r.Ok? && Roomy() ==> r.value == View().RowRange(row)
      ensures r.Ok? && r.value.None? && row < Resolvable() ==> Costly(row, row)
    {
      hide *;
      Truthful();
      if row < 0 {
        return Pieces.Err(Pieces.IndexError);
      }
      var found := Resolve(row, 1);
      FirstRow(data, row, found);
      ViewRow(row);
      r := Pieces.Ok(if found == [] then None else Some(found[0]));
    }

    static lemma {:induction false} FirstRow(data: Bytes, first: nat, out: seq<Rows.RowRange>)
      requires RowsFrom(data, first, out)
      ensures out != [] ==> first <= Breaks(data) && out[0] == RowAt(data, first)
    {
      hide RowAt;
    }

    lemma {:induction false} ViewRow(row: nat)
      requires Valid() && View().Truthful() && Resolvable() == View().Resolvable() <= Breaks(data) + 1
      ensures View().RowRange(row) == if row < Resolvable() then Some(RowAt(data, row)) else None
    {
      hide Resolvable;
      hide RowAt;
    }

    /** `lines`: the rows asked for, up to the last one known or one whose walk would cost more than the budget. */
    method Lines(first: int, n: int) returns (r: Pieces.Result<seq<Rows.RowRange>>)
      requires Valid()
      modifies source
      ensures source.asked <= old(source.asked) + budget
      ensures r.Err? <==> first < 0
      ensures r.Err? ==> r.error == Pieces.IndexError
      ensures r.Ok? ==> |r.value| <= maxLines && (|r.value| <= n || r.value == []) && RowsFrom(data, first, r.value)
      ensures r.Ok? && r.value != [] ==> first + |r.value| <= Resolvable()
      ensures r.Ok? && Roomy() && n > 0 && first < Resolvable() ==> r.value != []
      ensures r.Ok? && |r.value| < (if n < maxLines then n else maxLines) && first + |r.value| < Resolvable() ==> Costly(first, first + |r.value|)
    {
      hide *;
      Truthful();
      Parts();
      if first < 0 {
        return Pieces.Err(Pieces.IndexError);
      }
      if n <= 0 {
        NoRows(data, first);
        return Pieces.Ok([]);
      }
      var out := Resolve(first, if n < maxLines then n else maxLines);
      r := Pieces.Ok(out);
    }

    /** The entries ascend with the rows, so the last one at or before an offset is the one to walk from. */
    lemma {:induction false} EntryBefore(offset: nat, slot: nat)
      requires Valid() && offset < scanned && offset <= |data| && slot <= |starts|
      requires forall i :: 0 <= i < slot ==> starts[i] <= offset
      requires forall i :: slot <= i < |starts| ==> offset < starts[i]
      ensures slot >= 1 && Count(data, offset) < Resolvable() && count >= 1 && Count(data, offset) <= Breaks(data)
      ensures Multiple(slot - 1, stride) <= Count(data, offset) < Multiple(slot - 1, stride) + stride
      ensures starts[slot - 1] == RowStart(data, Multiple(slot - 1, stride)) <= offset
    {
      hide *;
      Parts();
      Truthful();
      CountMonotone(data, offset, |data|);
      RowHolds(data, offset);
      ghost var target := Count(data, offset);
      BeforeScanned(offset);
      ResolvableIs();
      ghost var k := target / stride;
      DivideParts(target, stride);
      MultipleIs(k, stride);
      EntryAt(k);
      StartsRise(data, Multiple(k, stride), target);
      RowAtIs(data, target);
      assert k < slot;
      NextMultiple(k, stride);
      if slot > k + 1 {
        EntryBound(k + 1);
        EntryAt(k + 1);
        LaterRow(data, offset, Multiple(k + 1, stride));
      }
    }

    /** The recorded rows that start in `[low, high]`, as `row_at_offset` looks them up. */
    method RecordedFrom(low: nat, high: nat) returns (recorded: Recorded)
      requires Valid()
      ensures TrueRecorded(data, threshold, recorded)
      ensures forall r :: r in longRows && r <= Breaks(data) && low <= RowStart(data, r) <= high ==> r in recorded
      ensures forall r :: r in recorded ==> r in longRows
    {
      hide *;
      TableFacts();
      TableStarts();
      var lo := BisectRight(longStarts, low - 1);
      var hi := BisectRight(longStarts, high);
      var i := lo;
      recorded := map[];
      NothingRecorded(data, threshold);
      while i < hi
        invariant lo <= i && (i <= hi || i == lo) && TrueRecorded(data, threshold, recorded)
        invariant forall j :: lo <= j < i ==> longRows[j] in recorded
        invariant forall r :: r in recorded ==> r in longRows
      {
        OneMoreRecorded(data, threshold, recorded, LongRow(longRows[i], longStarts[i], longEnds[i]));
        recorded := recorded[longRows[i] := LongRow(longRows[i], longStarts[i], longEnds[i])];
        i := i + 1;
      }
    }

    lemma {:induction false} TableStarts()
      requires Valid()
      ensures |longRows| == |longStarts| == |longEnds|
      ensures forall i :: 0 <= i < |longRows| ==> longRows[i] <= Breaks(data) && longStarts[i] == RowStart(data, longRows[i])
      ensures forall i, j :: 0 <= i < j < |longStarts| ==> longStarts[i] <= longStarts[j]
    {
      TableFacts();
      hide Valid;
      hide RowStart;
      hide RowEnd;
      forall i | 0 <= i < |longRows|
        ensures longRows[i] <= Breaks(data) && longStarts[i] == RowStart(data, longRows[i])
      {
        assert TrueLong(data, threshold, LongRow(longRows[i], longStarts[i], longEnds[i]));
      }
      forall i, j | 0 <= i < j < |longStarts|
        ensures longStarts[i] <= longStarts[j]
      {
        StartsRise(data, longRows[i], longRows[j]);
      }
    }

    /** The walk of `row_at_offset` from the last entry at or before the offset. */
    method WalkTo(offset: nat, slot: nat) returns (r: Option<Located>)
      requires Valid() && 1 <= slot <= |starts| && offset < |data| && Count(data, offset) < Resolvable() && Count(data, offset) <= Breaks(data)
      requires Multiple(slot - 1, stride) <= Count(data, offset) < Multiple(slot - 1, stride) + stride
      requires starts[slot - 1] == RowStart(data, Multiple(slot - 1, stride)) <= offset
      modifies source
      ensures source.asked <= old(source.asked) + budget
      ensures r.Some? ==> r.value == Located(Count(data, offset), RowAt(data, Count(data, offset)))
      ensures r.None? ==> !Roomy() && Costly(Count(data, offset), Count(data, offset))
    {
      hide *;
      Parts();
      Truthful();
      RowHolds(data, offset);
      ghost var target, from := Count(data, offset), Multiple(slot - 1, stride);
      var row, pos := (slot - 1) * stride, starts[slot - 1];
      MultipleIs(slot - 1, stride);
      var recorded := RecordedFrom(pos, offset);
      ghost var asked0 := source.asked;
      var walker := new Walker(source, pos, budget, fillSize);
      ThriftyStart(threshold);
      RowAtIs(data, target);
      SameEntry(slot - 1, target);
      FrugalStart(pos);
      JumpsIs(from, from);
      while true
        invariant Frugal(walker.spent, walker.base + |walker.buf|, walker.pos, pos, Jumps(from, row), fillSize)
        invariant walker.data == data && walker.budget == budget && walker.window == fillSize
        invariant walker.source == source && walker.began == asked0
        invariant from <= row <= target && fresh(walker) && walker.Valid() && walker.spent <= budget
        invariant walker.pos == RowStart(data, row)
        invariant Roomy() ==> Thrifty(walker.spent, walker.base + |walker.buf| - walker.pos, row - from, threshold)
        decreases target - row
      {
        StartsRise(data, from, row);
        StartsRise(data, row, target);
        RowAtIs(data, row);
        var needTail := row in recorded && recorded[row].end > offset;
        if Roomy() {
          InTable(row, recorded, pos, offset);
        }
        var crossed := CrossNext(walker, row, recorded, needTail, target, true);
        if crossed.None? {
          CostlyFrom(target, row, target);
          walker.Asked();
          return None;
        }
        var c := crossed.value;
        if row in recorded {
          RecordedAt(data, threshold, recorded, row);
        }
        if c.end > offset {
          EndsBehind(data, row, target, offset);
          walker.Asked();
          return Some(Located(row, Rows.RowRange(c.start, c.end - c.terminator, c.end)));
        }
        row := row + 1;
      }
    }

    /** `row_at_offset`: the row that holds the offset, or `None`; with room it is never `None` in front of the open row. */
    method RowAtOffset(offset: int) returns (r: Option<Located>)
      requires Valid()
      modifies source
      ensures source.asked <= old(source.asked) + budget
      ensures View().Truthful()
      ensures r.Some? ==> r == View().RowAtOffset(offset)
      ensures Roomy() ==> r == View().RowAtOffset(offset)
      ensures r.None? && 0 <= offset < scanned && offset < |data| ==> Count(data, offset) <= Breaks(data) && Costly(Count(data, offset), Count(data, offset))
    {
      hide *;
      Parts();
      Truthful();
      ViewOffset(offset);
      if offset < 0 || offset > length {
        return None;
      }
      if offset == length && complete {
        var found := RowRange(count - 1);
        return if found.value.None? then None else Some(Located(count - 1, found.value.value));
      }
      if offset >= scanned {
        return None;
      }
      StartsAscend();
      var slot := BisectRight(starts, offset);
      EntryBefore(offset, slot);
      r := WalkTo(offset, slot);
    }

    lemma {:induction false} SameEntry(k: nat, row: nat)
      requires stride > 0 && Multiple(k, stride) <= row < Multiple(k, stride) + stride
      ensures Multiple(row / stride, stride) == Multiple(k, stride)
    {
      hide *;
      DivideParts(row, stride);
      MultipleIs(row / stride, stride);
      OneEntry(k, row / stride, row, stride);
    }

    static lemma {:induction false} OneEntry(k: nat, q: nat, row: nat, stride: nat)
      requires Multiple(k, stride) <= row < Multiple(k, stride) + stride && Multiple(q, stride) <= row < Multiple(q, stride) + stride
      ensures k == q
    {
      hide *;
      NextMultiple(k, stride);
      NextMultiple(q, stride);
      if k < q {
        MultipleGrows(k + 1, q, stride);
      } else if q < k {
        MultipleGrows(q + 1, k, stride);
      }
    }

    /** A row that ends behind an offset is not in front of the offset's row. */
    static lemma {:induction false} EndsBehind(data: Bytes, row: nat, target: nat, offset: nat)
      requires row <= target <= Breaks(data) && RowStart(data, target) <= offset < RowEnd(data, row)
      ensures row == target
    {
      if row < target {
        StartsRise(data, row + 1, target);
      }
    }

    lemma {:induction false} InTable(row: nat, recorded: Recorded, low: nat, high: nat)
      requires Valid() && Roomy() && row < Resolvable() && row <= Breaks(data) && low <= RowStart(data, row) <= high
      requires forall r :: r in longRows && r <= Breaks(data) && low <= RowStart(data, r) <= high ==> r in recorded
      ensures row in recorded || RowEnd(data, row) - RowStart(data, row) <= threshold
    {
      TableFacts();
      hide Valid;
      hide RowStart;
      hide RowEnd;
    }

    lemma {:induction false} ViewOffset(offset: int)
      requires Valid() && View().Truthful() && 1 <= count && Resolvable() == View().Resolvable() <= Breaks(data) + 1
      ensures offset < 0 || offset > |data| ==> View().RowAtOffset(offset) == None
      ensures offset == |data| && complete ==>
                View().RowAtOffset(offset)
                == var found := View().RowRange(count - 1); if found.None? then None else Some(Located(count - 1, found.value))
      ensures 0 <= offset <= |data| && !(offset == |data| && complete) && offset >= scanned ==> View().RowAtOffset(offset) == None
      ensures 0 <= offset < scanned && offset <= |data| && !(offset == |data| && complete) ==>
                && Count(data, offset) <= Breaks(data)
                && View().RowAtOffset(offset) == Some(Located(Count(data, offset), RowAt(data, Count(data, offset))))
    {
      hide RowAt;
      hide Valid;
      if 0 <= offset <= |data| {
        CountMonotone(data, offset, |data|);
      }
    }
  }

  lemma {:induction false} MultipleIs(k: nat, stride: nat)
    ensures Multiple(k, stride) == k * stride
  {
  }

  lemma {:induction false} ThriftyStart(threshold: nat)
    ensures Thrifty(0, 0, 0, threshold)
  {
  }

  /** Row starts rise with the rows. */
  lemma {:induction false} StartsRise(data: Bytes, m: nat, n: nat)
    requires m <= n <= Breaks(data)
    ensures RowStart(data, m) <= RowStart(data, n)
    ensures m < n ==> RowStart(data, m) < RowStart(data, n)
  {
    if m < n {
      StartsRise(data, m, n - 1);
      RowSpan(data, n - 1);
    }
  }

  /** A row behind that of an offset starts behind the offset. */
  lemma {:induction false} LaterRow(data: Bytes, offset: nat, row: nat)
    requires offset <= |data| && Count(data, offset) < row <= Breaks(data)
    ensures offset < RowStart(data, row)
  {
    if RowStart(data, row) <= offset {
      CountMonotone(data, RowStart(data, row), offset);
    }
  }
}
