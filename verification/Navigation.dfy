/**
 Where rows, breaks and forbidden boundaries lie when the bytes are cut into pieces: the facts behind
 `find_break`, `row_of` and `check_boundary` of the piece tree.
 */
module Navigation {
  import opened Rows
  import opened Pieces

  // ----- three runs of bytes ----------------------------------------------------------------------

  /** The row of a place inside the middle run. */
  lemma {:induction false} RowInMiddle(b: Bytes, m: Bytes, a: Bytes, inner: nat)
    requires inner < |m|
    ensures Count(b + m + a, |b| + inner) == Breaks(b) - (if Junction(b, m) then 1 else 0) + Count(m, inner)
    ensures InsideCrlf(b + m + a, |b| + inner) <==> if inner == 0 then Junction(b, m) else InsideCrlf(m, inner)
  {
    assert b + m + a == b + (m + a);
    CountConcat(b, m + a, inner);
    CountPrefix(m, a, inner);
  }

  /** The place of a terminator that the middle run completes or starts to complete. */
  lemma {:induction false} BreakInMiddle(b: Bytes, m: Bytes, a: Bytes, k: nat)
    requires Breaks(b) < k <= Breaks(b) + Breaks(m) - if Junction(b, m) then 1 else 0
    ensures var rank := k - Breaks(b) + if Junction(b, m) then 1 else 0;
            && 1 <= rank <= Breaks(m) && 1 <= k <= Breaks(b + m + a)
            && var e := BreakEnd(m, rank);
               BreakEnd(b + m + a, k) == |b| + e + if e == |m| && Junction(m, a) then 1 else 0
  {
    var rank := k - Breaks(b) + if Junction(b, m) then 1 else 0;
    if Junction(b, m) {
      LfFirst(m);
    }
    var e := BreakEnd(m, rank);
    var n := e + if e == |m| && Junction(m, a) then 1 else 0;
    RankBehind(m, a, e, n);
    var d := b + m + a;
    assert d == b + (m + a);
    CountConcat(b, m + a, n);
    assert EndsAt(d, |b| + n) <==> EndsAt(m + a, n);
    BreakEndIs(d, |b| + n);
  }

  lemma {:induction false} LfFirst(m: Bytes)
    requires |m| > 0 && m[0] == LF
    ensures Breaks(m) >= 1
  {
    CountStrict(m, 0, 1);
    CountMonotone(m, 1, |m|);
  }

  /** A terminator of `m` keeps its rank when `a` follows, one byte later when it becomes a CRLF. */
  lemma {:induction false} RankBehind(m: Bytes, a: Bytes, e: nat, n: nat)
    requires EndsAt(m, e) && n == e + if e == |m| && Junction(m, a) then 1 else 0
    ensures n <= |m + a| && EndsAt(m + a, n) && Count(m + a, n) == Count(m, e)
  {
    if e < |m| {
      CountPrefix(m, a, e);
    } else if Junction(m, a) {
      CountConcat(m, a, 1);
      assert EndsAt(a, 1);
    } else {
      CountConcat(m, a, 0);
    }
  }

  /** Terminators of a slice are those of its source, except a CR at the end that the source completes. */
  lemma {:induction false} BreakInSource(d: Bytes, a: nat, b: nat, rank: nat)
    requires a <= b <= |d| && 1 <= rank <= Breaks(d[a..b])
    ensures var e := BreakEnd(d[a..b], rank);
            !(e == b - a && d[b - 1] == CR) ==>
              Count(d, a) + rank <= Breaks(d) && BreakEnd(d, Count(d, a) + rank) == a + e
  {
    var m := d[a..b];
    var e := BreakEnd(m, rank);
    if !(e == b - a && d[b - 1] == CR) {
      CountSlice(d, a, b, e);
      assert EndsAt(d, a + e);
      BreakEndIs(d, a + e);
    }
  }

  /** The last terminator of bytes that end in CR is that CR. */
  lemma {:induction false} CrLast(m: Bytes)
    requires |m| > 0 && m[|m| - 1] == CR
    ensures Breaks(m) >= 1 && BreakEnd(m, Breaks(m)) == |m|
    ensures forall k :: 1 <= k < Breaks(m) ==> BreakEnd(m, k) < |m|
  {
    BreakEndIs(m, |m|);
    CountStrict(m, 0, |m|);
  }

  // ----- the same on pieces -------------------------------------------------------------------------

  /** A document cut around one of its pieces. */
  lemma {:induction false} Around(front: seq<Piece>, p: Piece, back: seq<Piece>, S: Sources)
    requires AllTrue(front, S) && TruePiece(p, S) && AllTrue(back, S)
    ensures Doc(front + [p] + back, S) == Doc(front, S) + PieceBytes(p, S) + Doc(back, S)
    ensures AggRows(front) == AggOf(Doc(front, S)) && p.Agg() == AggOf(PieceBytes(p, S))
    ensures |PieceBytes(p, S)| == p.b - p.a > 0
    ensures AggRows(front).lastIsCr && p.firstIsLf <==> Junction(Doc(front, S), PieceBytes(p, S))
    ensures Junction(PieceBytes(p, S), Doc(back, S)) <==> p.lastIsCr && back != [] && back[0].firstIsLf
  {
    hide *;
    DocConcat(front + [p], back, S);
    DocConcat(front, [p], S);
    PieceFacts(p, S);
    PieceDoc(p, S);
    AggRowsTrue(front, S);
    JunctionIs(Doc(front, S), PieceBytes(p, S));
    JunctionIs(PieceBytes(p, S), Doc(back, S));
    AggParts(Doc(front, S));
    AggParts(PieceBytes(p, S));
    DocEmpty(S);
    if back != [] {
      FirstByte(back, S);
    }
  }

  lemma {:induction false} JunctionIs(a: Bytes, b: Bytes)
    ensures Junction(a, b) <==> |a| > 0 && |b| > 0 && a[|a| - 1] == CR && b[0] == LF
    ensures CR != LF
  {
  }

  lemma {:induction false} PieceFacts(p: Piece, S: Sources)
    requires TruePiece(p, S)
    ensures Readable(p, S) && |PieceBytes(p, S)| == p.b - p.a > 0
    ensures p.Agg() == AggOf(PieceBytes(p, S)) && p.Agg().firstIsLf == p.firstIsLf && p.Agg().lastIsCr == p.lastIsCr
  {
    hide AggOf;
    hide Count;
  }

  lemma {:induction false} FirstByte(back: seq<Piece>, S: Sources)
    requires AllTrue(back, S) && back != []
    ensures |Doc(back, S)| > 0 && back[0].firstIsLf == (Doc(back, S)[0] == LF)
  {
    hide *;
    assert back == [back[0]] + back[1..];
    AllTrueHead(back, S);
    PieceFacts(back[0], S);
    PieceDoc(back[0], S);
    AggParts(PieceBytes(back[0], S));
    DocConcat([back[0]], back[1..], S);
  }

  lemma {:induction false} AllTrueHead(ps: seq<Piece>, S: Sources)
    requires AllTrue(ps, S) && ps != []
    ensures TruePiece(ps[0], S)
  {
    hide TruePiece;
  }

  lemma {:induction false} DocEmpty(S: Sources)
    ensures Doc([], S) == []
  {
  }

  /** The oracle of the source of `p` cannot place some row that begins in or before `p`. */
  ghost predicate HidesRow(p: Piece, S: Sources) {
    Readable(p, S) && exists row :: row in S[p.src].unplaced && 1 <= row <= Count(S[p.src].data, p.b)
  }

  /** The oracle of the source of `p` cannot name the row of some offset of `p`. */
  ghost predicate HidesOffset(p: Piece, S: Sources) {
    Readable(p, S) && exists o :: o in S[p.src].mute && p.a <= o < p.b
  }

  /** What `find_break` computes once it has found the piece. */
  function BreakFrom(acc: Aggregate, p: Piece, following: Option<Piece>, S: Sources, k: int): Option<int>
    requires Readable(p, S) && p.row0 >= 0 && p.breaks >= 0
  {
    var rank := k - acc.breaks + if acc.lastIsCr && p.firstIsLf then 1 else 0;
    if rank == p.breaks && p.lastIsCr then
      Some(acc.length + p.Length() + if following.Some? && following.value.firstIsLf then 1 else 0)
    else if p.row0 + rank < 0 then None
    else
      var rowStart := S[p.src].RowStartOf(p.row0 + rank);
      if rowStart.None? then None else Some(acc.length + rowStart.value - p.a)
  }

  lemma {:induction false} BreakFromIs(acc: Aggregate, p: Piece, following: Option<Piece>, S: Sources, k: int)
    requires Readable(p, S) && p.src in S && p.row0 >= 0 && p.breaks >= 0 && acc.breaks < k && p.Length() == p.b - p.a
    ensures var rank := k - acc.breaks + if acc.lastIsCr && p.firstIsLf then 1 else 0;
            && rank >= 1
            && (rank == p.breaks && p.lastIsCr ==>
                  BreakFrom(acc, p, following, S, k)
                  == Some(acc.length + (p.b - p.a) + if following.Some? && following.value.firstIsLf then 1 else 0))
            && (!(rank == p.breaks && p.lastIsCr) ==>
                  BreakFrom(acc, p, following, S, k)
                  == var s := S[p.src].RowStartOf(p.row0 + rank); if s.None? then None else Some(acc.length + s.value - p.a))
  {
    hide Breaks;
    hide RowStart;
  }

  /** Every answer of `find_break` is the end of the `k`-th terminator of the document. */
  lemma {:induction false} BreakFromExact(front: seq<Piece>, p: Piece, back: seq<Piece>, S: Sources, k: int)
    requires AllTrue(front, S) && TruePiece(p, S) && AllTrue(back, S)
    requires AggRows(front).breaks < k <= Combine(AggRows(front), p.Agg()).breaks && k >= 1
    ensures p.row0 >= 0 && p.breaks >= 0
    ensures var d := Doc(front + [p] + back, S);
            var r := BreakFrom(AggRows(front), p, if back == [] then None else Some(back[0]), S, k);
            && k <= Breaks(d)
            && (r.Some? ==> r.value == BreakEnd(d, k))
            && (r.None? ==> HidesRow(p, S))
  {
    hide *;
    Around(front, p, back, S);
    TrueParts(p, S);
    var b, m, a := Doc(front, S), PieceBytes(p, S), Doc(back, S);
    AggParts(b);
    AggParts(m);
    CombineParts(AggRows(front), p.Agg());
    BreakInMiddle(b, m, a, k);
    BreakFromBytes(AggRows(front), p, if back == [] then None else Some(back[0]), S, k, b, m, a);
  }

  /** The facts of a true piece, spelled out. */
  lemma {:induction false} TrueParts(p: Piece, S: Sources)
    requires TruePiece(p, S)
    ensures Readable(p, S) && p.src in S && p.a < p.b <= |S[p.src].data| && PieceBytes(p, S) == S[p.src].data[p.a..p.b]
    ensures p.row0 == Count(S[p.src].data, p.a) && p.breaks == Breaks(PieceBytes(p, S)) && p.row0 >= 0 && p.breaks >= 0
    ensures p.Agg() == Aggregate(p.b - p.a, p.breaks, p.firstIsLf, p.lastIsCr) && p.Length() == p.b - p.a
    ensures p.lastIsCr == (S[p.src].data[p.b - 1] == CR) && p.firstIsLf == (S[p.src].data[p.a] == LF)
  {
    hide Breaks;
    hide Count;
  }

  lemma {:induction false} AggParts(s: Bytes)
    ensures AggOf(s).length == |s| && AggOf(s).breaks == Breaks(s)
    ensures |s| > 0 ==> AggOf(s).firstIsLf == (s[0] == LF) && AggOf(s).lastIsCr == (s[|s| - 1] == CR)
    ensures |s| == 0 ==> !AggOf(s).lastIsCr && !AggOf(s).firstIsLf && AggOf(s).breaks == 0
  {
  }

  lemma {:induction false} CombineParts(l: Aggregate, r: Aggregate)
    requires r.length > 0 && (l.length == 0 ==> l.breaks == 0 && !l.lastIsCr)
    ensures Combine(l, r).breaks == l.breaks + r.breaks - if l.lastIsCr && r.firstIsLf then 1 else 0
  {
  }

  lemma {:induction false} BreakFromBytes(acc: Aggregate, p: Piece, following: Option<Piece>, S: Sources, k: int, b: Bytes, m: Bytes, a: Bytes)
    requires TruePiece(p, S) && m == PieceBytes(p, S) && acc.length == |b| && acc.breaks == Breaks(b)
    requires acc.lastIsCr && p.firstIsLf <==> Junction(b, m)
    requires Junction(m, a) <==> p.lastIsCr && following.Some? && following.value.firstIsLf
    requires k >= 1 && Breaks(b) < k <= Breaks(b) + Breaks(m) - if Junction(b, m) then 1 else 0
    ensures Readable(p, S) && p.row0 >= 0 && p.breaks >= 0
    ensures var r := BreakFrom(acc, p, following, S, k);
            && k <= Breaks(b + m + a)
            && (r.Some? ==> r.value == BreakEnd(b + m + a, k))
            && (r.None? ==> HidesRow(p, S))
  {
    hide *;
    TrueParts(p, S);
    BreakFromIs(acc, p, following, S, k);
    BreakInMiddle(b, m, a, k);
    var rank := k - acc.breaks + if acc.lastIsCr && p.firstIsLf then 1 else 0;
    var d := S[p.src].data;
    LastOfSlice(d, p.a, p.b);
    if rank == p.breaks && p.lastIsCr {
      CrLast(m);
    } else {
      NotLastCr(m, rank);
      BreakInSource(d, p.a, p.b, rank);
      RankInside(d, p.a, p.b, rank);
      StartOfRow(d, p.row0 + rank);
      StartGiven(S[p.src], p.row0 + rank);
      if p.row0 + rank in S[p.src].unplaced {
        RowHidden(p, S, p.row0 + rank);
      }
      if Junction(m, a) {
        JunctionParts(m, a);
        if BreakEnd(m, rank) == |m| {
          CrLast(m);
        }
      }
    }
  }

  lemma {:induction false} LastOfSlice(d: Bytes, a: nat, b: nat)
    requires a < b <= |d|
    ensures |d[a..b]| == b - a && d[a..b][b - a - 1] == d[b - 1]
  {
  }

  /** Only the last terminator ends at the end of bytes that end in CR. */
  lemma {:induction false} NotLastCr(m: Bytes, rank: nat)
    requires 1 <= rank <= Breaks(m) && |m| > 0 && !(rank == Breaks(m) && m[|m| - 1] == CR)
    ensures !(BreakEnd(m, rank) == |m| && m[|m| - 1] == CR)
  {
    hide Count;
    if m[|m| - 1] == CR {
      CrLast(m);
    }
  }

  lemma {:induction false} StartGiven(source: Source, r: nat)
    ensures source.RowStartOf(r) == if r in source.unplaced || r > Breaks(source.data) then None else Some(RowStart(source.data, r))
  {
  }

  lemma {:induction false} RowHidden(p: Piece, S: Sources, row: nat)
    requires Readable(p, S) && row in S[p.src].unplaced && 1 <= row <= Count(S[p.src].data, p.b)
    ensures HidesRow(p, S)
  {
  }

  /** Unless it is the CR at the end, a terminator of a slice is counted at its end in the source. */
  lemma {:induction false} RankInside(d: Bytes, a: nat, b: nat, rank: nat)
    requires a < b <= |d| && 1 <= rank <= Breaks(d[a..b])
    ensures !(rank == Breaks(d[a..b]) && d[b - 1] == CR) ==> Count(d, a) + rank <= Count(d, b)
  {
    CountSlice(d, a, b, b - a);
  }

  lemma {:induction false} JunctionParts(m: Bytes, a: Bytes)
    requires Junction(m, a)
    ensures m[|m| - 1] == CR && a[0] == LF
  {
  }

  lemma {:induction false} StartOfRow(d: Bytes, r: nat)
    ensures 1 <= r <= Breaks(d) ==> RowStart(d, r) == BreakEnd(d, r)
  {
  }

  /** What `row_of` computes once it has found the piece. */
  function RowFrom(acc: Aggregate, p: Piece, S: Sources, inner: nat): Result<int>
    requires Readable(p, S) && inner < p.Length()
  {
    var lead := if acc.lastIsCr && p.firstIsLf then 1 else 0;
    if inner == 0 then Ok(acc.breaks - lead)
    else
      var left :- S[p.src].BreaksBetween(p.a, p.a + inner);
      Ok(acc.breaks + left - lead)
  }

  /** Every answer of `row_of` is the number of terminators that end at or before the offset. */
  lemma {:induction false} RowFromExact(front: seq<Piece>, p: Piece, back: seq<Piece>, S: Sources, inner: nat)
    requires AllTrue(front, S) && TruePiece(p, S) && AllTrue(back, S) && inner < p.Length()
    ensures var d := Doc(front + [p] + back, S);
            var o := |Doc(front, S)| + inner;
            && o < |d|
            && (RowFrom(AggRows(front), p, S, inner).Ok? ==> RowFrom(AggRows(front), p, S, inner).value == Count(d, o))
            && (RowFrom(AggRows(front), p, S, inner).Err? ==> HidesOffset(p, S))
  {
    hide *;
    Around(front, p, back, S);
    TrueParts(p, S);
    var b, m, a := Doc(front, S), PieceBytes(p, S), Doc(back, S);
    AggParts(b);
    RowInMiddle(b, m, a, inner);
    CountSlice(S[p.src].data, p.a, p.b, inner);
    RowFromIs(AggRows(front), p, S, inner);
    CountNone(m);
  }

  lemma {:induction false} CountNone(m: Bytes)
    ensures Count(m, 0) == 0
  {
  }

  lemma {:induction false} RowFromIs(acc: Aggregate, p: Piece, S: Sources, inner: nat)
    requires Readable(p, S) && inner < p.Length() && p.Length() == p.b - p.a
    ensures var lead := if acc.lastIsCr && p.firstIsLf then 1 else 0;
            var r := RowFrom(acc, p, S, inner);
            && (inner == 0 ==> r == Ok(acc.breaks - lead))
            && (inner > 0 && r.Ok? ==>
                  r.value == acc.breaks - lead + Count(S[p.src].data, p.a + inner) - Count(S[p.src].data, p.a))
            && (r.Err? ==> HidesOffset(p, S) && r.error == RowNotIndexed)
  {
    hide Count;
  }

  /** The test of `check_boundary` once the piece is found. */
  predicate CutInside(previous: Option<Piece>, p: Piece, S: Sources, inner: nat)
    requires Readable(p, S) && inner < p.Length()
  {
    if inner == 0 then previous.Some? && previous.value.lastIsCr && p.firstIsLf
    else S[p.src].Read(p.a + inner - 1, p.a + inner + 1) == [CR, LF]
  }

  lemma {:induction false} CutInsideExact(front: seq<Piece>, p: Piece, back: seq<Piece>, S: Sources, inner: nat)
    requires AllTrue(front, S) && TruePiece(p, S) && AllTrue(back, S) && inner < p.Length()
    ensures CutInside(if front == [] then None else Some(front[|front| - 1]), p, S, inner)
       <==> InsideCrlf(Doc(front + [p] + back, S), |Doc(front, S)| + inner)
    ensures inner > 0 ==>
              (InsideCrlf(S[p.src].data, p.a + inner) <==> InsideCrlf(Doc(front + [p] + back, S), |Doc(front, S)| + inner))
  {
    hide *;
    Around(front, p, back, S);
    TrueParts(p, S);
    var b, m, a := Doc(front, S), PieceBytes(p, S), Doc(back, S);
    RowInMiddle(b, m, a, inner);
    if front != [] {
      LastFlag(front, S);
    } else {
      DocEmpty(S);
      AggParts(b);
    }
    CutInsideIs(if front == [] then None else Some(front[|front| - 1]), p, S, inner);
    if inner > 0 {
      SliceInside(S[p.src].data, p.a, p.b, inner);
    }
  }

  lemma {:induction false} CutInsideIs(previous: Option<Piece>, p: Piece, S: Sources, inner: nat)
    requires Readable(p, S) && inner < p.Length() && p.Length() == p.b - p.a && p.b <= |S[p.src].data|
    ensures CutInside(previous, p, S, inner) <==>
            if inner == 0 then previous.Some? && previous.value.lastIsCr && p.firstIsLf
            else InsideCrlf(S[p.src].data, p.a + inner)
  {
    if inner > 0 {
      var d, x := S[p.src].data, p.a + inner;
      assert d[x - 1..x + 1] == [d[x - 1], d[x]];
    }
  }

  lemma {:induction false} SliceInside(d: Bytes, a: nat, b: nat, inner: nat)
    requires a <= b <= |d| && 0 < inner < b - a
    ensures InsideCrlf(d[a..b], inner) <==> InsideCrlf(d, a + inner)
  {
  }

  lemma {:induction false} LastFlag(front: seq<Piece>, S: Sources)
    requires AllTrue(front, S) && front != []
    ensures AggRows(front).lastIsCr == front[|front| - 1].lastIsCr
  {
    var n := |front| - 1;
    assert TruePiece(front[n], S);
    AggRowsTrue(front[..n], S);
  }
}
