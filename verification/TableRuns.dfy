/**
 Runs of the table over several calls: an edit and its undo, and two moments of the scan at which an answer is less than
 the document would allow.
 */
module TableRuns {
  import opened Rows
  import opened Pieces
  import opened OriginalSource
  import opened AddStore
  import opened SourceMap
  import opened PieceSeq
  import opened PieceTree
  import opened PieceTable

  /** The places of the document behind an edit and its inverse. */
  lemma {:induction false} ThereAndBack<T>(x: seq<T>, start: nat, end: nat, c: seq<T>, y: seq<T>)
    requires start <= end <= |x| && y == x[..start] + c + x[end..]
    ensures y[..start] + x[start..end] + y[start + |c|..] == x && y[start..start + |c|] == c
  {
    assert y[..start] == x[..start] && y[start + |c|..] == x[end..];
  }

  /** Behind an edit its end lies in the tree: the undo never waits for the scan. */
  lemma {:induction false} EndIsInTree(n: nat, m: nat, before: Option<int>, after: Option<int>, length: nat, start: nat, end: nat, c: nat)
    requires start <= end && (before.Some? ==> before.value <= length)
    requires after == (if before.Some? && end > n then Some(before.value + end - n) else before)
    requires before.None? ==> end <= n
    requires m + (if after.Some? then length - after.value else 0) == n + (if before.Some? then length - before.value else 0) - (end - start) + c
    ensures start + c <= m
  {
  }

  /**
   An edit and its undo. The undo is refused exactly when the edit made a CRLF at a seam, or when a row oracle refuses.
   Otherwise document and places are what they were and the content comes back for a redo; a tidy tree whose end of the
   edit was in it already is the same sequence of pieces.
   */
  method EditAndUndo(table: PieceTable, start: int, end: int, content: Content, tailChars: Option<nat>) returns (done: Result<Content>, undone: Result<Content>)
    requires table.Valid() && TrueContent(content, table.CurrentSources()) && InScanned(Addr(content.pieces), table.index.scanned)
    modifies table.Repr
    ensures table.Valid() && fresh(table.Repr - old(table.Repr))
    ensures table.index == old(table.index) && table.store == old(table.store) && table.legacy == old(table.legacy)
    ensures done == Err(ValueError) <==> !Allowed(old(table.Text()), start, end)
    ensures done.Err? && done != Err(ValueError) ==>
              done == Err(RowNotIndexed) && (old(table.Unindexed(end)) || SomeHides(table.tree.Pieces(), table.CurrentSources()))
    ensures done.Err? ==> undone == done && table.Places() == old(table.Places()) && table.Text() == old(table.Text())
    ensures done.Ok? ==> 0 <= start <= end <= |old(table.Text())|
    ensures done.Ok? ==>
              var d, c := old(table.Text()), Doc(content.pieces, table.CurrentSources());
              (undone == Err(ValueError) <==> Junction(d[..start], c + d[end..]) || Junction(d[..start] + c, d[end..]))
    ensures done.Ok? && undone.Err? && undone != Err(ValueError) ==>
              undone == Err(RowNotIndexed) && SomeHides(table.tree.Pieces(), table.CurrentSources())
    ensures done.Ok? && undone.Ok? ==>
              && table.Places() == old(table.Places()) && table.Text() == old(table.Text())
              && Addr(undone.value.pieces) == Addr(content.pieces)
              && Doc(undone.value.pieces, table.CurrentSources()) == Doc(content.pieces, table.CurrentSources())
    ensures done.Ok? && undone.Ok? ==> PieceTable.TailStart(table.tail) == if table.index.complete then None else old(table.CutTo(end))
    ensures done.Ok? && undone.Ok? && old(table.Tidy()) ==>
              && table.Tidy()
              && (PieceTable.TailStart(table.tail) == PieceTable.TailStart(old(table.tail)) ==> table.tree.Pieces() == old(table.tree.Pieces()))
  {
    hide *;
    table.Parts();
    table.TextAtPlaces();
    table.SourcesNow();
    PlaceCount(table);
    ghost var places, ps, S := table.Places(), table.tree.Pieces(), table.CurrentSources();
    done := Edit(table, start, end, content, tailChars);
    if done.Err? {
      return done, done;
    }
    table.Parts();
    table.SourcesNow();
    undone := table.Splice(start, start + content.length, done.value, None);
    table.Parts();
    table.TextAtPlaces();
    table.SourcesNow();
    if undone.Ok? {
      DocByAddr(undone.value.pieces, content.pieces, S);
      if old(table.Tidy()) && PieceTable.TailStart(table.tail) == PieceTable.TailStart(old(table.tail)) {
        SamePieces(table, ps, places, S);
      }
    }
  }

  /** The edit, with what its undo relies on. */
  method Edit(table: PieceTable, start: int, end: int, content: Content, tailChars: Option<nat>) returns (done: Result<Content>)
    requires table.Valid() && TrueContent(content, table.CurrentSources()) && InScanned(Addr(content.pieces), table.index.scanned)
    modifies table.Repr
    ensures table.Valid() && fresh(table.Repr - old(table.Repr))
    ensures table.index == old(table.index) && table.store == old(table.store) && table.legacy == old(table.legacy)
    ensures done == Err(ValueError) <==> !Allowed(old(table.Text()), start, end)
    ensures done.Err? && done != Err(ValueError) ==>
              done == Err(RowNotIndexed) && (old(table.Unindexed(end)) || SomeHides(table.tree.Pieces(), table.CurrentSources()))
    ensures done.Err? ==> table.Places() == old(table.Places()) && table.Text() == old(table.Text())
    ensures done.Ok? ==> 0 <= start <= end <= |old(table.Text())| && content.length == |Addr(content.pieces)| == |Doc(content.pieces, table.CurrentSources())|
    ensures done.Ok? ==>
              var n := content.length;
              && AllTrue(done.value.pieces, table.CurrentSources()) && InScanned(Addr(done.value.pieces), table.index.scanned)
              && start + n <= |table.Places()| && !table.Unindexed(start + n)
              && table.Places()[..start] + Addr(done.value.pieces) + table.Places()[start + n..] == old(table.Places())
              && table.Places()[start..start + n] == Addr(content.pieces)
    ensures done.Ok? ==>
              var d, c := old(table.Text()), Doc(content.pieces, table.CurrentSources());
              Allowed(table.Text(), start, start + |c|) <==> !Junction(d[..start], c + d[end..]) && !Junction(d[..start] + c, d[end..])
    ensures done.Ok? && old(table.Tidy()) ==> table.Tidy()
    ensures done.Ok? ==> PieceTable.TailStart(table.tail) == if table.index.complete then None else old(table.CutTo(end))
    ensures done.Ok? ==> table.CutTo(start + content.length) == PieceTable.TailStart(table.tail)
  {
    hide *;
    table.Parts();
    table.TextAtPlaces();
    table.SourcesNow();
    table.CutToIs(end);
    PlaceCount(table);
    ghost var places, text, S := table.Places(), table.Text(), table.CurrentSources();
    ghost var n, before := |Addr(table.tree.Pieces())|, PieceTable.TailStart(table.tail);
    ContentIs(content, S);
    done := table.Splice(start, end, content, tailChars);
    if done.Ok? {
      table.Parts();
      table.TextAtPlaces();
      table.SourcesNow();
      ghost var c := Addr(content.pieces);
      ThereAndBack(places, start, end, c, table.Places());
      UndoIsIndexed(table, n, before, start, end, |c|);
      UndoAllowed(text, start, end, Doc(content.pieces, S));
    }
  }

  /** A tidy tree is determined by the places and by where the tail begins. */
  lemma {:induction false} SamePieces(table: PieceTable, ps: seq<Piece>, places: seq<Loc>, S: Sources)
    requires table.Valid() && table.Tidy() && table.index.Truthful() && table.CurrentSources() == S && table.Places() == places
    requires AllTrue(ps, S) && Merged(ps) && Addr(ps) <= places
    requires var from := PieceTable.TailStart(table.tail);
             |places| == |Addr(ps)| + (if from.Some? then |table.original| - from.value else 0)
    ensures table.tree.Pieces() == ps
  {
    hide *;
    table.Parts();
    PlaceCount(table);
    SameFront(Addr(ps), Addr(table.tree.Pieces()), TailPlaces(table.tail, |table.original|), places);
    Canonical(table.tree.Pieces(), ps, S);
  }

  /** Behind an edit its end does not lie in the open tail. */
  lemma {:induction false} UndoIsIndexed(table: PieceTable, n: nat, before: Option<int>, start: nat, end: nat, c: nat)
    requires table.Valid() && start <= end && (before.Some? ==> 0 <= before.value <= |table.original|) && (before.None? ==> end <= n)
    requires PieceTable.TailStart(table.tail)
             == if table.index.complete then None else if before.Some? && end > n then Some(before.value + end - n) else before
    requires |table.Places()| == n + (if before.Some? then |table.original| - before.value else 0) - (end - start) + c
    ensures !table.Unindexed(start + c) && table.CutTo(start + c) == PieceTable.TailStart(table.tail)
  {
    hide *;
    table.UnindexedIs(start + c);
    table.CutToIs(start + c);
    TailStarts(table.tail);
    PlaceCount(table);
    var after := PieceTable.TailStart(table.tail);
    if after.Some? {
      EndIsInTree(n, |Addr(table.tree.Pieces())|, before, after, |table.original|, start, end, c);
    }
  }

  lemma {:induction false} SameFront<T>(a: seq<T>, b: seq<T>, t: seq<T>, x: seq<T>)
    requires x == b + t && |a| == |b| && a <= x
    ensures a == b
  {
  }

  lemma {:induction false} ContentIs(c: Content, S: Sources)
    requires TrueContent(c, S)
    ensures AllTrue(c.pieces, S) && c.length == |Addr(c.pieces)| == |Doc(c.pieces, S)|
  {
    hide Addr;
    hide AllTrue;
    hide Breaks;
  }

  /** The places are those of the tree and those of the open tail. */
  lemma {:induction false} PlaceCount(table: PieceTable)
    requires table.Valid()
    ensures var from := PieceTable.TailStart(table.tail);
            && (from.Some? ==> 0 <= from.value <= |table.original|)
            && |table.Places()| == |Addr(table.tree.Pieces())| + (if from.Some? then |table.original| - from.value else 0)
            && Addr(table.tree.Pieces()) <= table.Places()
  {
    hide *;
    table.Parts();
    table.CutToIs(0);
    if table.tail.Some? {
      PieceTable.TailIs(table.tail.value, table.index);
      TailStarts(table.tail);
    } else {
      PieceTable.NoTailText(table.tail, table.original, []);
    }
  }

  lemma {:induction false} TailStarts(tail: Option<Tail>)
    ensures PieceTable.TailStart(tail) == if tail.Some? then Some(tail.value.a) else None
  {
  }

  // ----- less than the document would allow ----------------------------------------------------------------

  const NO_STORE := StoreView([], 0)

  /** The one row of an empty document is not given while the scan of its empty file is unfinished. */
  method StarvingRun() returns (table: PieceTable, r: Result<Option<RowRange>>)
    ensures fresh(table) && table.Valid() && table.Starving() && table.Text() == [] && Breaks(table.Text()) == 0
    ensures r == Ok(None)
  {
    var ix := Index([], 1, false, 0, {}, {});
    EmptyScan(ix);
    table := new PieceTable(ix, NO_STORE, 4);
    ghost var st;
    r, st := table.RowRange(0);
    table.StarvingIs();
  }

  lemma {:induction false} EmptyScan(ix: Index)
    requires ix == Index([], 1, false, 0, {}, {})
    ensures ix.Truthful() && NO_STORE.Valid()
  {
  }

  /** "a", a line feed, "b": the scan has seen the first row. */
  const DATA: Bytes := [97, 10, 98]
  const HALF := Index(DATA, 2, false, 2, {}, {})
  const WHOLE := Index(DATA, 2, true, 3, {}, {})

  lemma {:induction false} Scans()
    ensures |DATA| == 3 && HALF.Truthful() && WHOLE.Truthful() && Advances(HALF, WHOLE) && NO_STORE.Valid() && |NO_STORE.segments| + 1 < SEGMENTS
    ensures HALF.data == WHOLE.data == DATA && HALF.lost == {} && HALF.scanned == 2 && !HALF.complete && WHOLE.complete
    ensures RowOf(HALF, 1).Ok? && (forall i :: 0 <= i <= 3 ==> !InsideCrlf(DATA, i))
  {
    assert Count(DATA, 1) == 0;
    assert Count(DATA, 2) == 1;
    assert Count(DATA, 3) == 1;
    BreakEndIs(DATA, 2);
  }

  /**
   An edit cuts the open tail and is taken back. The document is the file again, byte by byte and place by place, and
   still it does not count as identical; once the scan is complete it does.
   */
  method CutAndUndoneRun() returns (table: PieceTable, early: bool, late: bool)
    ensures fresh(table) && table.Valid() && table.Text() == DATA && table.WholeOriginal()
    ensures !early && late
  {
    hide *;
    Scans();
    table := new PieceTable(HALF, NO_STORE, 4);
    var typed := table.Add([120], 16);
    BeforeCut(table);
    table.SourcesNow();
    NoJunction(Doc(typed.value.pieces, table.CurrentSources()));
    var done, undone := EditAndUndo(table, 1, 1, typed.value, None);
    table.Parts();
    table.SourcesNow();
    table.TreeAnswers();
    table.WholeIs();
    TailStarts(table.tail);
    early := table.IsIdentity();
    table.ScanAdvances(WHOLE);
    table.Refresh();
    table.WholeIs();
    late := table.IsIdentity();
  }

  lemma {:induction false} NoJunction(c: Bytes)
    requires c == [120]
    ensures |DATA| == 3 && !Junction(DATA[..1], c + DATA[1..]) && !Junction(DATA[..1] + c, DATA[1..])
  {
  }

  /** The first byte is scanned and its row can be named. */
  lemma {:induction false} BeforeCut(table: PieceTable)
    requires table.Valid() && table.index == HALF && table.original == DATA && table.Text() == DATA && table.legacy == []
    requires table.tree.Pieces() == [] && PieceTable.TailStart(table.tail) == Some(0)
    ensures !table.Unindexed(1) && table.CutTo(1) == Some(1) && Allowed(table.Text(), 1, 1)
    ensures table.Places() == TailPlaces(Some(Tail(0, 0, false)), 3)
  {
    hide *;
    Scans();
    table.Parts();
    table.UnindexedIs(1);
    table.CutToIs(1);
    TailStarts(table.tail);
    PieceTree.AllowedIs(DATA, 1, 1);
    AddrEmpty();
    SameTail(table.tail, 3);
  }

  lemma {:induction false} SameTail(tail: Option<Tail>, length: nat)
    requires tail.Some? && tail.value.a == 0
    ensures [] + TailPlaces(tail, length) == TailPlaces(Some(Tail(0, 0, false)), length)
  {
  }
}
