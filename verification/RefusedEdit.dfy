/**
 An edit that the row oracle of the original refuses half way. The file has two rows and its index is complete, but the
 walk to the second row is over the read budget: a budget of three bytes lets the walk of the first row through and
 nothing behind it.
 */
module RefusedEdit {
  import opened Rows
  import opened Pieces
  import opened PieceSeq
  import opened PieceTree
  import opened OriginalSource

  /** "ab", a line feed, "cd". */
  const DATA: Bytes := [97, 98, 10, 99, 100]
  const INDEX := Index(DATA, 2, true, 5, {1}, {3, 4})
  const WHOLE := Piece(0, 0, 5, 1, 0, false, false)
  const LEFT := Piece(0, 0, 1, 0, 0, false, false)
  const RIGHT := Piece(0, 1, 5, 1, 0, false, false)

  lemma {:induction false} Counts()
    ensures |DATA| == 5 && Count(DATA, 0) == 0 && Count(DATA, 1) == 0 && Count(DATA, 2) == 0 && Count(DATA, 3) == 1
    ensures Count(DATA, 4) == 1 && Count(DATA, 5) == 1 && Breaks(DATA) == 1
  {
    assert Count(DATA, 1) == 0;
    assert Count(DATA, 2) == 0;
    assert Count(DATA, 3) == 1;
    assert Count(DATA, 4) == 1;
    assert Count(DATA, 5) == 1;
  }

  /** The oracle answers in the first row alone. */
  lemma {:induction false} OracleHides()
    ensures INDEX.Truthful() && AsSource(INDEX).data == DATA && AsSource(INDEX).mute == {3, 4, 5}
  {
    hide Count;
    hide RowAt;
    Counts();
    forall o: nat | o <= 5
      ensures RowOf(INDEX, o).Err? <==> o in {3, 4, 5}
    {
    }
    assert AsSource(INDEX).mute == {3, 4, 5};
  }

  function SourcesOf(source: Source): Sources {
    map[0 := source]
  }

  lemma {:induction false} PieceFacts(source: Source)
    requires source.data == DATA
    ensures AllTrue([WHOLE], SourcesOf(source)) && Merged([WHOLE]) && AllTrue([LEFT, RIGHT], SourcesOf(source)) && !Merged([LEFT, RIGHT])
    ensures |Addr([WHOLE])| == 5 && |Addr([LEFT, RIGHT])| == 5 && |Addr([LEFT])| == 1
  {
    hide Addr;
    hide AggOf;
    Counts();
    var S := SourcesOf(source);
    forall p | p in {WHOLE, LEFT, RIGHT}
      ensures TruePiece(p, S)
    {
      PieceFact(p, source);
    }
    Lengths();
    assert MergePieces([LEFT, RIGHT][0], [LEFT, RIGHT][1]).Some?;
  }

  lemma {:induction false} PieceFact(p: Piece, source: Source)
    requires source.data == DATA && p in {WHOLE, LEFT, RIGHT}
    ensures TruePiece(p, SourcesOf(source))
  {
    hide Count;
    Counts();
    CountSlice(DATA, p.a, p.b, p.b - p.a);
    assert !InsideCrlf(DATA, p.b);
    assert DATA[p.a..p.b][0] == DATA[p.a] && DATA[p.a..p.b][p.b - p.a - 1] == DATA[p.b - 1];
  }

  lemma {:induction false} Lengths()
    ensures |Addr([WHOLE])| == 5 && |Addr([LEFT, RIGHT])| == 5 && |Addr([LEFT])| == 1
  {
    AddrTwo(LEFT, RIGHT);
    Addr1Is(WHOLE);
    Addr1Is(LEFT);
    Addr1Is(RIGHT);
    Addr1Length(WHOLE);
    Addr1Length(LEFT);
    Addr1Length(RIGHT);
  }

  /** The cut at 1 asks for rows of the first row and succeeds; the cut at 4 asks for the second row and is refused. */
  lemma {:induction false} Cuts(source: Source)
    requires source.data == DATA && source.mute == {3, 4, 5}
    ensures AllTrue([WHOLE], SourcesOf(source)) && |Addr([WHOLE])| == 5
    ensures CutAt([WHOLE], 1, SourcesOf(source)) == Done([LEFT, RIGHT], 1)
    ensures AllTrue([LEFT, RIGHT], SourcesOf(source)) && |Addr([LEFT, RIGHT])| == 5
    ensures CutAt([LEFT, RIGHT], 4, SourcesOf(source)) == Refused
  {
    hide *;
    var S, ps, qs := SourcesOf(source), [WHOLE], [LEFT, RIGHT];
    PiecesAre();
    SourceIs(source);
    PieceFacts(source);
    Splits(source);
    AllTrueNonEmpty(ps, S);
    assert ps[..0] == [];
    AddrEmpty();
    LocateUnique(ps, 1, 0);
    CutAtIs(ps, 1, S);
    CutPieceIs(ps, 0, 1, S);
    CutIs(ps, 0, LEFT, RIGHT);
    assert ps[1..] == [];
    assert Cut(ps, 0, LEFT, RIGHT) == [LEFT, RIGHT];
    AllTrueNonEmpty(qs, S);
    assert qs[..1] == [LEFT];
    LocateUnique(qs, 4, 1);
    CutAtIs(qs, 4, S);
    CutPieceIs(qs, 1, 3, S);
  }

  lemma {:induction false} PiecesAre()
    ensures WHOLE == Piece(0, 0, 5, 1, 0, false, false) && LEFT == Piece(0, 0, 1, 0, 0, false, false) && RIGHT == Piece(0, 1, 5, 1, 0, false, false)
    ensures |DATA| == 5
  {
  }

  lemma {:induction false} SourceIs(source: Source)
    ensures 0 in SourcesOf(source) && SourcesOf(source)[0] == source && SourcesOf(source) == map[0 := source]
  {
  }

  lemma {:induction false} Splits(source: Source)
    requires source.data == DATA && source.mute == {3, 4, 5}
    ensures |DATA| == 5 && SplitPiece(WHOLE, source, 1) == Ok((LEFT, RIGHT)) && SplitPiece(RIGHT, source, 4) == Err(RowNotIndexed)
  {
    hide Count;
    Counts();
    assert DATA[0..2] == [97, 98] && [97, 98][..1] == [97] && [97, 98][1..] == [98];
  }

  /** The document is the file, and the edit is one that is refused at its second cut. */
  lemma {:induction false} Refusal(source: Source)
    requires source.data == DATA && source.mute == {3, 4, 5}
    ensures AllTrue([WHOLE], SourcesOf(source)) && AllTrue([LEFT, RIGHT], SourcesOf(source)) && |Addr([WHOLE])| == 5
    ensures Doc([WHOLE], SourcesOf(source)) == DATA && Allowed(DATA, 1, 4)
    ensures Refuses([WHOLE], 1, 4, SourcesOf(source)) && LeftBehind([WHOLE], 1, SourcesOf(source)) == [LEFT, RIGHT]
  {
    hide CutAt;
    hide Addr;
    hide Count;
    hide AggOf;
    hide AllTrue;
    Cuts(source);
    WholeDoc(source);
  }

  lemma {:induction false} WholeDoc(source: Source)
    requires source.data == DATA
    ensures Doc([WHOLE], SourcesOf(source)) == DATA
  {
    hide AggOf;
    hide Count;
    hide Doc;
    PieceDoc(WHOLE, SourcesOf(source));
    assert DATA[0..5] == DATA;
  }

  /**
   The merged form really can be lost: replacing `[1, 4)` of the unedited document is allowed, the cut at 1 is made, the
   cut at 4 is refused, and the tree is left with two contiguous pieces. The bytes are as before.
   */
  method RefusedEditRun() returns (tree: PieceTree, r: Result<Content>, ghost S: Sources)
    ensures INDEX.Truthful() && S == map[0 := AsSource(INDEX)] && tree.Valid() && AllTrue(tree.Pieces(), S)
    ensures r == Err(RowNotIndexed) && tree.Pieces() == [LEFT, RIGHT] && !Merged(tree.Pieces()) && Doc(tree.Pieces(), S) == DATA
  {
    hide *;
    OracleHides();
    var source := AsSource(INDEX);
    var T := SourcesOf(source);
    SourceIs(source);
    PieceFacts(source);
    Cuts(source);
    tree := new PieceTree.OfPieces([WHOLE], 4, T);
    Canonical(tree.Pieces(), [WHOLE], T);
    Refusal(source);
    NoContent(T);
    r := tree.Splice(1, 4, FromPieces([], 0), Some(0), T);
    S := T;
    DocByAddr(tree.Pieces(), [WHOLE], T);
  }

  lemma {:induction false} NoContent(S: Sources)
    ensures AllTrue(FromPieces([], 0).pieces, S)
  {
  }
}
