/** The append-only store of added bytes with its sparse row index per segment (`add_store.py`). */
module AddStore {
  import opened Rows
  import opened Pieces
  import opened SparseRows

  /** Bytes of one segment with the break count and the sparse row index. */
  class Segment {
    const stride: nat
    var data: Bytes
    var growable: bool
    var breaks: nat
    var entries: seq<nat>

    /** Every derived field is that of the whole segment. */
    ghost predicate Valid()
      reads this`data, this`breaks, this`entries
    {
      && stride > 0
      && breaks == Breaks(data)
      && entries == Entries(data, stride, |data|)
    }

    constructor (data: Bytes, stride: nat, growable: bool)
      requires stride > 0
      ensures Valid() && this.data == data && this.stride == stride && this.growable == growable
    {
      this.data := data;
      this.stride := stride;
      this.growable := growable;
      breaks := 0;
      entries := [];
      new;
      EntriesNone(data, stride);
      Scan(0);
    }

    /** `_scan`: count the terminators from `start` on. */
    method Scan(start: nat)
      requires stride > 0 && start <= |data| && breaks == Count(data, start) && entries == Entries(data, stride, start)
      modifies this`breaks, this`entries
      ensures Valid()
    {
      hide Count;
      hide Entries;
      hide Search;
      var pos := start;
      var m := Search(data, pos);
      while m.Some?
        invariant pos <= |data| && m == Search(data, pos)
        invariant breaks == Count(data, pos) && entries == Entries(data, stride, pos)
        decreases |data| - pos
      {
        var end := m.value.end;
        EntriesStep(data, stride, pos, end);
        breaks := breaks + 1;
        if breaks % stride == 0 {
          entries := entries + [end];
        }
        pos := end;
        m := Search(data, pos);
      }
      EntriesQuiet(data, stride, pos, |data|);
    }

    /** `extend`: a trailing CR that meets an LF is counted again as one CRLF, and its entry is taken back. */
    method Extend(more: Bytes) returns (r: Result<nat>)
      requires Valid()
      modifies this`data, this`breaks, this`entries
      ensures Valid()
      ensures r == if growable then Ok(|old(data)|) else Err(ValueError)
      ensures data == if growable then old(data) + more else old(data)
    {
      hide Count;
      hide Entries;
      var size := |data|;
      var start := size;
      if !growable {
        return Err(ValueError);
      }
      ExtendFacts(data, more, stride);
      if size > 0 && more[..if |more| > 0 then 1 else 0] == [LF] && data[size - 1] == CR {
        if breaks % stride == 0 {
          entries := entries[..|entries| - 1];
        }
        breaks := breaks - 1;
        start := size - 1;
      }
      data := data + more;
      Scan(start);
      r := Ok(size);
    }

    /** What is known about the longer segment before it is scanned again. */
    static lemma {:induction false} ExtendFacts(data: Bytes, more: Bytes, stride: nat)
      requires stride > 0
      ensures more[..if |more| > 0 then 1 else 0] == [LF] <==> |more| > 0 && more[0] == LF
      ensures !Junction(data, more) ==>
                && Count(data + more, |data|) == Breaks(data)
                && Entries(data + more, stride, |data|) == Entries(data, stride, |data|)
      ensures Junction(data, more) ==>
                && Count(data + more, |data| - 1) == Breaks(data) - 1 && Breaks(data) > 0
                && Entries(data, stride, |data|)
                   == Entries(data + more, stride, |data| - 1) + if Breaks(data) % stride == 0 then [|data|] else []
    {
      var n := |data|;
      if n > 0 {
        EntriesPrefix(data, more, stride, n - 1);
        assert EndsAt(data + more, n) <==> EndsAt(data, n) && !Junction(data, more);
      }
    }

    /** `row_of`: the number of terminators that end at or before the clamped offset. */
    method RowOf(offset: int) returns (row: nat)
      requires Valid()
      ensures var o := if offset < 0 then 0 else if offset > |data| then |data| else offset;
              row == Count(data, o)
    {
      var o := if (if offset > 0 then offset else 0) < |data| then if offset > 0 then offset else 0 else |data|;
      hide Count;
      hide Entries;
      hide Search;
      hide EntryPlace;
      EntriesAscend(data, stride, |data|);
      var slot := BisectRight(entries, o);
      row := Multiple(slot, stride);
      var pos := EntryPlace(entries, slot);
      EntryPlaceIs(data, stride, |data|, slot);
      PlaceBefore(entries, slot, o);
      var m := Search(data, pos);
      while m.Some? && m.value.end <= o
        invariant pos <= o && m == Search(data, pos) && row == Count(data, pos)
        decreases |data| - pos
      {
        EntriesStep(data, stride, pos, m.value.end);
        row := row + 1;
        pos := m.value.end;
        m := Search(data, pos);
      }
      EntriesQuiet(data, stride, pos, o);
    }

    static lemma {:induction false} PlaceBefore(entries: seq<nat>, slot: nat, o: nat)
      requires slot <= |entries| && forall i :: 0 <= i < slot ==> entries[i] <= o
      ensures EntryPlace(entries, slot) <= o
    {
    }

    /** `row_start`: exact for every row, `None` only for a row the segment does not have. */
    method RowStart(row: int) returns (r: Option<nat>)
      requires Valid()
      ensures r == if 0 <= row <= Breaks(data) then Some(Rows.RowStart(data, row)) else None
    {
      hide Count;
      hide Entries;
      hide Search;
      hide EntryPlace;
      hide BreakEnd;
      hide Multiple;
      if row < 0 || row > breaks {
        return None;
      }
      var slot := row / stride;
      EntriesAre(data, stride, |data|);
      SlotFits(row, breaks, stride);
      var pos := EntryPlace(entries, slot);
      EntryPlaceIs(data, stride, |data|, slot);
      var left := row - slot * stride;
      RowFromPlace(data, row, pos);
      if left == 0 {
        return Some(pos);
      }
      var m := Search(data, pos);
      SearchRank(data, pos);
      while m.Some?
        invariant pos <= |data| && m == Search(data, pos) && left > 0 && Count(data, pos) + left == row
        invariant m.None? <==> Count(data, pos) == Breaks(data)
        decreases |data| - pos
      {
        SearchRank(data, pos);
        left := left - 1;
        pos := m.value.end;
        RowFromPlace(data, row, pos);
        if left == 0 {
          return Some(pos);
        }
        m := Search(data, pos);
        SearchRank(data, pos);
      }
      // Unreachable: a row up to `breaks` is found before the terminators run out.
      assert false;
    }

    static lemma {:induction false} SlotFits(row: nat, breaks: nat, stride: nat)
      requires stride > 0 && row <= breaks
      ensures row / stride <= breaks / stride && 0 <= row - (row / stride) * stride < stride
      ensures Multiple(row / stride, stride) == (row / stride) * stride
    {
      DivideParts(row, stride);
      DivideParts(breaks, stride);
      AtLeast(row / stride - breaks / stride, stride);
      Difference(row / stride, breaks / stride, stride);
    }

    static lemma {:induction false} Difference(a: int, b: int, stride: int)
      ensures (a - b) * stride == a * stride - b * stride
    {
    }

    static lemma {:induction false} RowFromPlace(s: Bytes, row: nat, pos: nat)
      requires row <= Breaks(s) && pos <= |s| && (pos == 0 || EndsAt(s, pos))
      ensures Count(s, pos) == row ==> Rows.RowStart(s, row) == pos
    {
      if pos == 0 {
        assert Count(s, 0) == 0;
      } else {
        BreakEndIs(s, pos);
      }
    }
  }

  // ----- the store as a value ------------------------------------------------------------------------

  /** The bytes of every segment (segment `k` is element `k - 1`) and the number of the open tail, 0 when there is none. */
  datatype StoreView = StoreView(segments: seq<Bytes>, tail: nat) {
    predicate Valid() { tail <= |segments| }
  }

  /** Where an append put its bytes. */
  datatype Span = Span(segment: nat, a: nat, b: nat)

  datatype Placed = Placed(store: StoreView, span: Span)

  /** What `append` does to the bytes. */
  function AppendTo(store: StoreView, limit: nat, data: Bytes): Result<Placed>
    requires store.Valid()
  {
    var segments, tail := store.segments, store.tail;
    if data == [] then Err(ValueError)
    else if |data| >= limit then
      Ok(Placed(StoreView(segments + [data], tail), Span(|segments| + 1, 0, |data|)))
    else if tail > 0 && |segments[tail - 1]| + |data| <= limit then
      var start := |segments[tail - 1]|;
      Ok(Placed(StoreView(segments[tail - 1 := segments[tail - 1] + data], tail), Span(tail, start, start + |data|)))
    else
      Ok(Placed(StoreView(segments + [data], |segments| + 1), Span(|segments| + 1, 0, |data|)))
  }

  /** Segments are only added, and only gain bytes behind the bytes they have. */
  ghost predicate SegmentsGrow(old_: seq<Bytes>, new_: seq<Bytes>) {
    |old_| <= |new_| && forall k :: 0 <= k < |old_| ==> old_[k] <= new_[k]
  }

  /** The appended bytes can be read back where the store says, and nothing read before changes. */
  lemma {:induction false} AppendToFacts(store: StoreView, limit: nat, data: Bytes)
    requires store.Valid()
    ensures AppendTo(store, limit, data).Err? <==> data == []
    ensures AppendTo(store, limit, data).Ok? ==>
              var p := AppendTo(store, limit, data).value;
              var segments, span := p.store.segments, p.span;
              && p.store.Valid() && SegmentsGrow(store.segments, segments)
              && 1 <= span.segment <= |segments| && span.a < span.b == |segments[span.segment - 1]|
              && segments[span.segment - 1][span.a..span.b] == data
              && (forall k :: 0 <= k < |store.segments| && k != span.segment - 1 ==> segments[k] == store.segments[k])
              && (span.a > 0 ==> span.segment == store.tail)
  {
  }

  /** The tail segment holds something and is within the limit. */
  ghost predicate TailFits(store: StoreView, limit: nat) {
    store.Valid() && (store.tail > 0 ==> 0 < |store.segments[store.tail - 1]| <= limit)
  }

  /**
   Data that fits continues the tail where it ends, and no segment is added; anything else gets one new segment of its
   own, which is the tail from then on unless it is as large as the limit. The tail never exceeds the limit.
   */
  lemma {:induction false} AppendContinues(store: StoreView, limit: nat, data: Bytes)
    requires TailFits(store, limit) && data != []
    ensures AppendTo(store, limit, data).Ok?
    ensures var p := AppendTo(store, limit, data).value;
            var fits := |data| < limit && store.tail > 0 && |store.segments[store.tail - 1]| + |data| <= limit;
            && TailFits(p.store, limit)
            && (fits <==> |p.store.segments| == |store.segments|)
            && (fits ==> p.span == Span(store.tail, |store.segments[store.tail - 1]|, |store.segments[store.tail - 1]| + |data|) && p.store.tail == store.tail)
            && (!fits ==>
                  && p.store.segments == store.segments + [data] && p.span == Span(|store.segments| + 1, 0, |data|)
                  && p.store.tail == if |data| < limit then |p.store.segments| else store.tail)
  {
  }

  /** One append after the other. */
  ghost function AppendAll(store: StoreView, limit: nat, typed: seq<Bytes>): StoreView
    requires store.Valid() && forall i :: 0 <= i < |typed| ==> typed[i] != []
    ensures AppendAll(store, limit, typed).Valid()
    decreases |typed|
  {
    if typed == [] then store else AppendAll(AppendTo(store, limit, typed[0]).value.store, limit, typed[1..])
  }

  ghost function Joined(typed: seq<Bytes>): Bytes
    decreases |typed|
  {
    if typed == [] then [] else typed[0] + Joined(typed[1..])
  }

  /** Typing that fits into the tail stays together: the pieces of it lie one behind the other in one segment. */
  lemma {:induction false} TypingStaysTogether(store: StoreView, limit: nat, typed: seq<Bytes>)
    requires TailFits(store, limit) && store.tail > 0 && forall i :: 0 <= i < |typed| ==> typed[i] != []
    requires |store.segments[store.tail - 1]| + |Joined(typed)| <= limit
    ensures AppendAll(store, limit, typed)
            == StoreView(store.segments[store.tail - 1 := store.segments[store.tail - 1] + Joined(typed)], store.tail)
    decreases |typed|
  {
    var k := store.tail - 1;
    if typed == [] {
      assert store.segments[k] + [] == store.segments[k];
    } else {
      AppendContinues(store, limit, typed[0]);
      var next := AppendTo(store, limit, typed[0]).value.store;
      TypingStaysTogether(next, limit, typed[1..]);
      assert store.segments[k] + typed[0] + Joined(typed[1..]) == store.segments[k] + Joined(typed);
    }
  }

  /**
   A later append changes the row of no offset inside the old bytes. At their very end it takes one row away
   exactly when a CR there becomes a CRLF.
   */
  lemma {:induction false} RowsSurviveAppend(s: Bytes, more: Bytes, o: nat)
    requires o <= |s|
    ensures o < |s| ==> Count(s + more, o) == Count(s, o)
    ensures Count(s + more, |s|) == Count(s, |s|) - if Junction(s, more) then 1 else 0
    ensures (s + more)[..|s|] == s
  {
    CountConcat(s, more, 0);
    if o < |s| {
      CountPrefix(s, more, o);
    }
  }

  /** Row starts stay too, except that of the row behind a final CR, which moves behind the LF. */
  lemma {:induction false} RowStartsSurviveAppend(s: Bytes, more: Bytes, r: nat)
    requires r <= Breaks(s)
    ensures r <= Breaks(s + more)
    ensures Rows.RowStart(s + more, r) == Rows.RowStart(s, r) + if r == Breaks(s) && Junction(s, more) then 1 else 0
  {
    var p := Rows.RowStart(s, r);
    if r == 0 {
      NoRowBeforeJunction(s, more);
    } else if r == Breaks(s) && Junction(s, more) {
      BreakEndIs(s, |s|);
      CountConcat(s, more, 1);
      assert EndsAt(more, 1) && EndsAt(s + more, |s| + 1);
      BreakEndIs(s + more, |s| + 1);
    } else {
      RowsSurviveAppend(s, more, p);
      assert EndsAt(s + more, p) by {
        if p == |s| {
          BreakEndIs(s, |s|);
        }
      }
      BreakEndIs(s + more, p);
    }
  }

  lemma {:induction false} NoRowBeforeJunction(s: Bytes, more: Bytes)
    ensures Junction(s, more) ==> Breaks(s) > 0
  {
    if Junction(s, more) {
      CountStrict(s, 0, |s|);
    }
  }

  // ----- the store -----------------------------------------------------------------------------------

  class AddStore {
    const tailLimit: nat
    const stride: nat
    var segments: seq<Segment>
    var tail: nat
    ghost var Repr: set<object>

    ghost predicate Valid()
      reads this, Repr
    {
      && this in Repr && tailLimit > 0 && stride > 0
      && (forall i :: 0 <= i < |segments| ==> segments[i] in Repr)
      && (forall i, j :: 0 <= i < j < |segments| ==> segments[i] != segments[j])
      && (forall i :: 0 <= i < |segments| ==> segments[i].Valid() && segments[i].stride == stride)
      && tail <= |segments| && (tail > 0 ==> segments[tail - 1].growable)
    }

    ghost function View(): (v: StoreView)
      requires Valid()
      reads this, Repr
      ensures v.Valid() && |v.segments| == |segments|
    {
      var held := segments;
      StoreView(seq(|held|, i requires 0 <= i < |held| reads held => held[i].data), tail)
    }

    constructor (tailLimit: nat, stride: nat)
      requires tailLimit > 0 && stride > 0
      ensures Valid() && fresh(Repr) && View() == StoreView([], 0)
      ensures this.tailLimit == tailLimit && this.stride == stride
    {
      this.tailLimit, this.stride := tailLimit, stride;
      segments, tail := [], 0;
      Repr := {this};
    }

    /** `append`: continue the tail when it has room, else seal it and open a new one; large data is a segment of its own. */
    method Append(data: Bytes) returns (r: Result<Span>)
      requires Valid()
      modifies Repr
      ensures Valid() && fresh(Repr - old(Repr))
      ensures var p := AppendTo(old(View()), tailLimit, data);
              if p.Err? then r == Err(p.error) && View() == old(View())
              else r == Ok(p.value.span) && View() == p.value.store
    {
      hide *;
      ghost var before := View();
      AppendCases(before, tailLimit, data);
      Open();
      if data == [] {
        return Err(ValueError);
      }
      if |data| >= tailLimit {
        var own := new Segment(data, stride, false);
        segments := segments + [own];
        Repr := Repr + {own};
        Close(before.segments + [data]);
        return Ok(Span(|segments|, 0, |data|));
      }
      if tail > 0 {
        var last := segments[tail - 1];
        if |last.data| + |data| <= tailLimit {
          var start := last.Extend(data);
          Close(before.segments[tail - 1 := before.segments[tail - 1] + data]);
          return Ok(Span(tail, start.value, start.value + |data|));
        }
        last.growable := false;
      }
      var fresh_ := new Segment(data, stride, true);
      segments := segments + [fresh_];
      Repr := Repr + {fresh_};
      tail := |segments|;
      Close(before.segments + [data]);
      r := Ok(Span(tail, 0, |data|));
    }

    static lemma {:induction false} AppendCases(store: StoreView, limit: nat, data: Bytes)
      requires store.Valid()
      ensures var segments, tail := store.segments, store.tail;
              var r := AppendTo(store, limit, data);
              && tail <= |segments|
              && (data == [] ==> r == Err(ValueError))
              && (data != [] && |data| >= limit ==>
                    r == Ok(Placed(StoreView(segments + [data], tail), Span(|segments| + 1, 0, |data|))))
              && (data != [] && |data| < limit && tail > 0 && |segments[tail - 1]| + |data| <= limit ==>
                    r == Ok(Placed(StoreView(segments[tail - 1 := segments[tail - 1] + data], tail),
                                   Span(tail, |segments[tail - 1]|, |segments[tail - 1]| + |data|))))
              && (data != [] && |data| < limit && !(tail > 0 && |segments[tail - 1]| + |data| <= limit) ==>
                    r == Ok(Placed(StoreView(segments + [data], |segments| + 1), Span(|segments| + 1, 0, |data|))))
    {
    }

    lemma {:induction false} Open()
      requires Valid()
      ensures this in Repr && tailLimit > 0 && stride > 0
      ensures forall i :: 0 <= i < |segments| ==> segments[i] in Repr && segments[i].Valid() && segments[i].stride == stride
      ensures forall i, j :: 0 <= i < j < |segments| ==> segments[i] != segments[j]
      ensures tail <= |segments| && (tail > 0 ==> segments[tail - 1].growable)
      ensures View().tail == tail && |View().segments| == |segments|
      ensures forall i :: 0 <= i < |segments| ==> View().segments[i] == segments[i].data
    {
      hide Segment.Valid;
    }

    lemma {:induction false} Close(datas: seq<Bytes>)
      requires this in Repr && tailLimit > 0 && stride > 0
      requires forall i :: 0 <= i < |segments| ==> segments[i] in Repr && segments[i].Valid() && segments[i].stride == stride
      requires forall i, j :: 0 <= i < j < |segments| ==> segments[i] != segments[j]
      requires tail <= |segments| && (tail > 0 ==> segments[tail - 1].growable)
      requires |datas| == |segments| && forall i :: 0 <= i < |segments| ==> datas[i] == segments[i].data
      ensures Valid() && View() == StoreView(datas, tail)
    {
      hide Segment.Valid;
      assert View().segments == datas;
    }

    /** `row_of` of one segment. */
    method RowOf(segment: int, offset: int) returns (r: Result<nat>)
      requires Valid()
      ensures r.Ok? <==> 1 <= segment <= |View().segments|
      ensures r.Err? ==> r == Err(IndexError)
      ensures r.Ok? && 0 <= offset <= |View().segments[segment - 1]| ==> r.value == Count(View().segments[segment - 1], offset)
    {
      hide *;
      Open();
      if !(1 <= segment <= |segments|) {
        return Err(IndexError);
      }
      var row := segments[segment - 1].RowOf(offset);
      r := Ok(row);
    }

    /** `row_start` of one segment. */
    method RowStart(segment: int, row: int) returns (r: Result<Option<nat>>)
      requires Valid()
      ensures r.Ok? <==> 1 <= segment <= |View().segments|
      ensures r.Err? ==> r == Err(IndexError)
      ensures r.Ok? ==> var s := View().segments[segment - 1];
                        r.value == if 0 <= row <= Breaks(s) then Some(Rows.RowStart(s, row)) else None
    {
      hide *;
      Open();
      if !(1 <= segment <= |segments|) {
        return Err(IndexError);
      }
      var start := segments[segment - 1].RowStart(row);
      r := Ok(start);
    }

    /** `read`: the bytes `[a, b)` of one segment, shorter when it ends earlier. */
    method Read(segment: int, a: int, b: int) returns (r: Result<Bytes>)
      requires Valid()
      ensures r.Ok? <==> 1 <= segment <= |View().segments|
      ensures r.Err? ==> r == Err(IndexError)
      ensures r.Ok? && 0 <= a <= b <= |View().segments[segment - 1]| ==> r.value == View().segments[segment - 1][a..b]
      ensures r.Ok? && 0 <= a && 0 <= b ==> r.value == SegmentSource(View().segments[segment - 1]).Read(a, b)
    {
      hide *;
      Open();
      if !(1 <= segment <= |segments|) {
        return Err(IndexError);
      }
      var data := segments[segment - 1].data;
      var lo := if a > 0 then a else 0;
      var hi := if b > 0 then b else 0;
      lo := if lo < |data| then lo else |data|;
      hi := if hi < |data| then hi else |data|;
      r := Ok(if lo < hi then data[lo..hi] else []);
      ReadAs(data, lo, hi, a, b);
    }

    static lemma {:induction false} ReadAs(data: Bytes, lo: nat, hi: nat, a: int, b: int)
      requires 0 <= a && 0 <= b ==> lo == (if a < |data| then a else |data|) && hi == if b < |data| then b else |data|
      requires lo <= |data| && hi <= |data|
      ensures 0 <= a <= b <= |data| ==> (if lo < hi then data[lo..hi] else []) == data[a..b]
      ensures 0 <= a && 0 <= b ==> (if lo < hi then data[lo..hi] else []) == SegmentSource(data).Read(a, b)
    {
    }
  }

  /** An add segment answers every row question about its bytes. */
  function SegmentSource(data: Bytes): Source {
    Source(data, {}, {})
  }
}
