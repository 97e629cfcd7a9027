/**
 What the line index of the original answers at one moment, and the row oracle built on it
 (`original_source.py`). While the scan runs the index knows only a front part of the file.
 */
module OriginalSource {
  import opened Rows
  import opened Pieces

  /** Row number and byte range. */
  datatype Located = Located(row: nat, range: RowRange)

  /**
   One moment of the line index of `data`: `count` rows seen, `scanned` the start of the open row (the length once
   complete). `dead` holds the rows and `lost` the offsets whose walk would exceed the read budget.
   */
  datatype Index = Index(data: Bytes, count: nat, complete: bool, scanned: nat, dead: set<nat>, lost: set<nat>) {

    /** The scan counted right. */
    predicate Truthful() {
      && 1 <= count <= Breaks(data) + 1
      && (if complete then count == Breaks(data) + 1 && scanned == |data| else scanned == RowStart(data, count - 1))
    }

    function Resolvable(): nat
      requires Truthful()
    {
      if complete then count else count - 1
    }

    function RowRange(row: nat): Option<RowRange>
      requires Truthful()
    {
      if row < Resolvable() && row !in dead then Some(RowAt(data, row)) else None
    }

    function RowAtOffset(o: int): Option<Located>
      requires Truthful()
    {
      if o < 0 || o > |data| then None
      else if o == |data| && complete then
        var found := RowRange(count - 1);
        if found.None? then None else Some(Located(count - 1, found.value))
      else if o >= scanned || o in lost then None
      else
        CountMonotone(data, o, |data|);
        Some(Located(Count(data, o), RowAt(data, Count(data, o))))
    }

    /** Up to `limit` consecutive rows from `first`, ending early at a row that cannot be resolved. */
    function Lines(first: nat, limit: nat): seq<RowRange>
      requires Truthful()
      decreases limit
    {
      if limit == 0 || RowRange(first).None? then [] else [RowRange(first).value] + Lines(first + 1, limit - 1)
    }
  }

  /** The scan goes on: more rows are known, never other ones. */
  ghost predicate Advances(before: Index, after: Index) {
    && before.data == after.data && before.count <= after.count && before.scanned <= after.scanned
    && (before.complete ==> after.complete)
  }

  function RowOf(ix: Index, o: int): Result<nat>
    requires ix.Truthful()
  {
    var found := ix.RowAtOffset(o);
    if found.None? then Err(RowNotIndexed) else Ok(found.value.row)
  }

  /** When the index cannot resolve `row` itself, the end of the previous row is its start. */
  function RowStartOf(ix: Index, row: nat): Option<nat>
    requires ix.Truthful()
  {
    var found := ix.RowRange(row);
    if found.Some? then Some(found.value.start)
    else
      var previous := if 0 < row < ix.count then ix.RowRange(row - 1) else None;
      if previous.None? then None else Some(previous.value.end)
  }

  /** The original as a piece source: its bytes, and what its oracle refuses to answer. */
  function AsSource(ix: Index): Source
    requires ix.Truthful()
  {
    Source(ix.data,
           set o: nat | o <= |ix.data| && RowOf(ix, o).Err?,
           set r: nat | r <= Breaks(ix.data) && RowStartOf(ix, r).None?)
  }

  /** Whatever the oracle answers is the row of the bytes; the fallback over the previous row included. */
  lemma {:induction false} AsSourceExact(ix: Index)
    requires ix.Truthful()
    ensures forall o: nat :: o <= |ix.data| ==> AsSource(ix).RowOf(o) == RowOf(ix, o)
    ensures forall r: nat :: AsSource(ix).RowStartOf(r) == RowStartOf(ix, r)
  {
    hide Breaks;
    hide Count;
    hide RowStart;
    hide RowEnd;
    hide TerminatorLength;
    var s := AsSource(ix);
    forall o: nat | o <= |ix.data|
      ensures s.RowOf(o) == RowOf(ix, o)
    {
      AnswerIsCount(ix, o);
      assert o in s.mute <==> RowOf(ix, o).Err?;
    }
    forall r: nat
      ensures s.RowStartOf(r) == RowStartOf(ix, r)
    {
      StartIsRowStart(ix, r);
      assert r <= Breaks(ix.data) ==> (r in s.unplaced <==> RowStartOf(ix, r).None?);
    }
  }

  lemma {:induction false} AnswerIsCount(ix: Index, o: nat)
    requires ix.Truthful() && o <= |ix.data|
    ensures RowOf(ix, o).Ok? ==> RowOf(ix, o).value == Count(ix.data, o)
    ensures RowOf(ix, o).Err? ==> RowOf(ix, o) == Err(RowNotIndexed)
  {
  }

  lemma {:induction false} StartIsRowStart(ix: Index, r: nat)
    requires ix.Truthful()
    ensures RowStartOf(ix, r).Some? ==> r <= Breaks(ix.data) && RowStartOf(ix, r).value == RowStart(ix.data, r)
  {
    if 0 < r < ix.count {
      RowAtFacts(ix.data, r - 1);
    }
  }

  /**
   The fallback makes the oracle place every row that begins in the scanned part: a row is refused only when it begins
   behind, or when both it and the row before it are over the budget.
   */
  lemma {:induction false} PlacedWhenScanned(ix: Index, r: nat)
    requires ix.Truthful()
    ensures RowStartOf(ix, r).Some? <==>
              (r < ix.Resolvable() && r !in ix.dead) || (0 < r < ix.count && r - 1 !in ix.dead && r - 1 < ix.Resolvable())
    ensures !ix.complete && ix.dead == {} && ix.count > 1 ==> (RowStartOf(ix, r).Some? <==> r < ix.count)
  {
  }

  /** The oracle names the row of every scanned offset whose walk fits the budget. */
  lemma {:induction false} NamedWhenScanned(ix: Index, o: nat)
    requires ix.Truthful() && o <= |ix.data|
    ensures o < ix.scanned && o !in ix.lost && o < |ix.data| ==> RowOf(ix, o).Ok?
    ensures ix.complete && o == |ix.data| && ix.count - 1 !in ix.dead ==> RowOf(ix, o).Ok?
  {
  }

  /**
   The scan goes on under the pieces that were cut with its answers. An answer once given is never contradicted: it is
   given again unless the walk is now over the budget, and where the budget refuses no more than it did, an offset or a
   row that the oracle could answer for stays answered.
   */
  lemma {:induction false} AnswersStay(before: Index, after: Index)
    requires before.Truthful() && after.Truthful() && Advances(before, after)
    ensures forall o: nat :: o <= |before.data| && RowOf(before, o).Ok? ==>
              (RowOf(after, o) == RowOf(before, o) <==> o !in (if o < |before.data| then after.lost else EndLost(after)))
    ensures forall r: nat :: RowStartOf(before, r).Some? ==>
              (RowStartOf(after, r) == RowStartOf(before, r) <==> Within(after, r))
    ensures after.lost <= before.lost && after.dead <= before.dead ==>
              AsSource(after).mute <= AsSource(before).mute && AsSource(after).unplaced <= AsSource(before).unplaced
  {
    hide Count;
    hide Breaks;
    hide RowStart;
    hide RowAt;
    hide RowEnd;
    forall o: nat | o <= |before.data|
      ensures RowOf(before, o).Ok? ==>
                (RowOf(after, o) == RowOf(before, o) <==> o !in (if o < |before.data| then after.lost else EndLost(after)))
      ensures after.lost <= before.lost && after.dead <= before.dead && RowOf(after, o).Err? ==> RowOf(before, o).Err?
    {
      OffsetStays(before, after, o);
    }
    forall r: nat
      ensures RowStartOf(before, r).Some? ==>
                (RowStartOf(after, r) == RowStartOf(before, r) <==> Within(after, r))
      ensures after.dead <= before.dead && RowStartOf(after, r).None? ==> RowStartOf(before, r).None?
    {
      StartStays(before, after, r);
    }
    if after.lost <= before.lost && after.dead <= before.dead {
      hide Index.RowAtOffset;
      hide Index.RowRange;
      assert AsSource(after).mute <= AsSource(before).mute;
      assert AsSource(after).unplaced <= AsSource(before).unplaced;
    }
  }

  /** The walk to row `r`, or to the one in front of it, is within the budget. */
  predicate Within(ix: Index, r: nat)
    requires ix.Truthful()
  {
    (r < ix.Resolvable() && r !in ix.dead) || (r > 0 && r - 1 !in ix.dead)
  }

  /** The end of a complete file is refused when its last row is over the budget. */
  function EndLost(ix: Index): set<nat> {
    if ix.count > 0 && ix.count - 1 in ix.dead then {|ix.data|} else {}
  }

  lemma {:induction false} OffsetStays(before: Index, after: Index, o: nat)
    requires before.Truthful() && after.Truthful() && Advances(before, after) && o <= |before.data|
    ensures RowOf(before, o).Ok? ==>
              (RowOf(after, o) == RowOf(before, o) <==> o !in (if o < |before.data| then after.lost else EndLost(after)))
    ensures after.lost <= before.lost && after.dead <= before.dead && RowOf(after, o).Err? ==> RowOf(before, o).Err?
  {
    hide Count;
    hide Breaks;
    AnswerIsCount(before, o);
    AnswerIsCount(after, o);
  }

  lemma {:induction false} StartStays(before: Index, after: Index, r: nat)
    requires before.Truthful() && after.Truthful() && Advances(before, after)
    ensures RowStartOf(before, r).Some? ==>
              (RowStartOf(after, r) == RowStartOf(before, r) <==> Within(after, r))
    ensures after.dead <= before.dead && RowStartOf(after, r).None? ==> RowStartOf(before, r).None?
  {
    hide Count;
    hide Breaks;
    hide RowStart;
    StartIsRowStart(before, r);
    StartIsRowStart(after, r);
    PlacedWhenScanned(before, r);
    PlacedWhenScanned(after, r);
  }

  /**
   A piece of the original cut at one moment of the scan and cut again at a later one: the halves are the same, and a cut
   that could be made can still be made where the budget refuses no more than it did.
   */
  lemma {:induction false} CutsStay(before: Index, after: Index, p: Piece, x: nat)
    requires before.Truthful() && after.Truthful() && Advances(before, after) && p.a < x < p.b <= |before.data|
    ensures SplitPiece(p, AsSource(before), x).Ok? && SplitPiece(p, AsSource(after), x).Ok? ==>
              SplitPiece(p, AsSource(after), x) == SplitPiece(p, AsSource(before), x)
    ensures SplitPiece(p, AsSource(before), x).Ok? && after.lost <= before.lost && after.dead <= before.dead ==>
              SplitPiece(p, AsSource(after), x).Ok?
  {
    hide Index.Truthful;
    hide RowOf;
    hide RowStartOf;
    hide Count;
    AnswersStay(before, after);
    var s, t := AsSource(before), AsSource(after);
    assert s.data == t.data;
    assert t.mute <= s.mute ==> (p.a in t.mute ==> p.a in s.mute) && (x in t.mute ==> x in s.mute);
  }
}
