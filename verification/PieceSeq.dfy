/**
 Cutting and joining inside a sequence of pieces, and the laws of undo that follow from the canonical
 form of merged sequences.
 */
module PieceSeq {
  import opened Rows
  import opened Pieces
  import opened Navigation

  // ----- slices -----------------------------------------------------------------------------------

  lemma {:induction false} AllTrueParts(ps: seq<Piece>, i: nat, S: Sources)
    requires AllTrue(ps, S) && i <= |ps|
    ensures AllTrue(ps[..i], S) && AllTrue(ps[i..], S)
  {
    hide TruePiece;
  }

  lemma {:induction false} AllTrueJoin(a: seq<Piece>, b: seq<Piece>, S: Sources)
    requires AllTrue(a, S) && AllTrue(b, S)
    ensures AllTrue(a + b, S)
  {
    hide TruePiece;
  }

  lemma {:induction false} AllTrueNonEmpty(ps: seq<Piece>, S: Sources)
    requires AllTrue(ps, S)
    ensures NonEmpty(ps)
  {
    hide AggOf;
    hide Count;
  }

  /** A sequence taken apart around piece `i`. */
  lemma {:induction false} TakeApart(ps: seq<Piece>, i: nat, S: Sources)
    requires AllTrue(ps, S) && i < |ps|
    ensures ps == ps[..i] + [ps[i]] + ps[i + 1..]
    ensures AllTrue(ps[..i], S) && TruePiece(ps[i], S) && AllTrue(ps[i + 1..], S)
    ensures Addr(ps) == Addr(ps[..i]) + Addr1(ps[i]) + Addr(ps[i + 1..])
    ensures |Addr(ps[..i])| == |Doc(ps[..i], S)|
  {
    hide *;
    assert ps == ps[..i] + ([ps[i]] + ps[i + 1..]);
    AllTrueParts(ps, i, S);
    AllTrueParts(ps[i..], 1, S);
    assert ps[i..][1..] == ps[i + 1..];
    AllTrueAt(ps, i, S);
    AddrConcat(ps[..i], [ps[i]] + ps[i + 1..]);
    AddrConcat([ps[i]], ps[i + 1..]);
    Addr1Is(ps[i]);
    DocLength(ps[..i], S);
  }

  lemma {:induction false} AllTrueAt(ps: seq<Piece>, i: nat, S: Sources)
    requires AllTrue(ps, S) && i < |ps|
    ensures TruePiece(ps[i], S)
  {
  }

  lemma {:induction false} DocLength(ps: seq<Piece>, S: Sources)
    ensures |Doc(ps, S)| == |Addr(ps)|
  {
    hide Addr;
  }

  // ----- seams ----------------------------------------------------------------------------------------

  /** No two adjacent pieces are contiguous, except perhaps at the places `x` and `y`. */
  ghost predicate Seams(ps: seq<Piece>, x: int, y: int) {
    forall i :: 0 < i < |ps| && i != x && i != y ==> MergePieces(ps[i - 1], ps[i]).None?
  }

  lemma {:induction false} MergedIsSeams(ps: seq<Piece>, x: int, y: int)
    requires Merged(ps)
    ensures Seams(ps, x, y)
  {
    hide MergePieces;
  }

  /** Piece `j` replaced by two halves. */
  function Cut(ps: seq<Piece>, j: nat, l: Piece, r: Piece): seq<Piece>
    requires j < |ps|
  {
    ps[..j] + [l, r] + ps[j + 1..]
  }

  lemma {:induction false} AddrThree(a: seq<Piece>, m: seq<Piece>, z: seq<Piece>)
    ensures Addr(a + m + z) == Addr(a) + Addr(m) + Addr(z)
  {
    hide *;
    AddrConcat(a + m, z);
    AddrConcat(a, m);
  }

  lemma {:induction false} AddrTwo(l: Piece, r: Piece)
    ensures Addr([l, r]) == Addr1(l) + Addr1(r)
  {
    hide *;
    assert [l, r] == [l] + [r];
    AddrConcat([l], [r]);
    Addr1Is(l);
    Addr1Is(r);
  }

  lemma {:induction false} CutFacts(ps: seq<Piece>, j: nat, l: Piece, r: Piece, S: Sources)
    requires j < |ps| && AllTrue(ps, S) && TruePiece(l, S) && TruePiece(r, S) && MergePieces(l, r) == Some(ps[j])
    ensures var qs := Cut(ps, j, l, r);
            && AllTrue(qs, S) && Addr(qs) == Addr(ps)
            && |qs| == |ps| + 1 && qs[..j] == ps[..j] && qs[j] == l && qs[j + 1] == r
            && |Addr(qs[..j + 1])| == |Addr(ps[..j])| + l.b - l.a
  {
    hide *;
    CutIs(ps, j, l, r);
    TakeApart(ps, j, S);
    TrueNonEmpty(l, S);
    TrueNonEmpty(r, S);
    MergeAddr(l, r);
    AddrThree(ps[..j], [l, r], ps[j + 1..]);
    AddrTwo(l, r);
    AddrConcat(ps[..j], [l]);
    Addr1Is(l);
    Addr1Length(l);
    AllTrueTwo(l, r, S);
    AllTrueJoin(ps[..j], [l, r], S);
    AllTrueJoin(ps[..j] + [l, r], ps[j + 1..], S);
  }

  lemma {:induction false} CutIs(ps: seq<Piece>, j: nat, l: Piece, r: Piece)
    requires j < |ps|
    ensures var qs := Cut(ps, j, l, r);
            && qs == ps[..j] + [l, r] + ps[j + 1..] && |qs| == |ps| + 1
            && qs[..j] == ps[..j] && qs[j] == l && qs[j + 1] == r && qs[..j + 1] == ps[..j] + [l]
  {
  }

  lemma {:induction false} AllTrueTwo(l: Piece, r: Piece, S: Sources)
    requires TruePiece(l, S) && TruePiece(r, S)
    ensures AllTrue([l, r], S) && AllTrue([l], S)
  {
    hide TruePiece;
  }

  lemma {:induction false} TrueNonEmpty(p: Piece, S: Sources)
    requires TruePiece(p, S)
    ensures p.a < p.b
  {
  }

  lemma {:induction false} Addr1Length(p: Piece)
    requires p.a < p.b
    ensures |Addr1(p)| == p.b - p.a
  {
  }

  lemma {:induction false} CutSeams(ps: seq<Piece>, j: nat, l: Piece, r: Piece, x: int)
    requires j < |ps| && x <= j && Seams(ps, x, x) && MergePieces(l, r) == Some(ps[j])
    ensures Seams(Cut(ps, j, l, r), x, j + 1)
  {
    var qs := Cut(ps, j, l, r);
    forall i | 0 < i < |qs| && i != x && i != j + 1
      ensures MergePieces(qs[i - 1], qs[i]).None?
    {
      if i <= j {
        assert MergePieces(ps[i - 1], ps[i]).None?;
      } else {
        assert MergePieces(ps[i - 2], ps[i - 1]).None?;
      }
    }
  }

  /** The sequence with the pieces `i - 1` and `i` joined when they are contiguous. */
  function JoinedAt(ps: seq<Piece>, i: int): seq<Piece> {
    if 0 < i < |ps| && MergePieces(ps[i - 1], ps[i]).Some?
    then ps[..i - 1] + [MergePieces(ps[i - 1], ps[i]).value] + ps[i + 1..] else ps
  }

  lemma {:induction false} JoinedIs(ps: seq<Piece>, i: int)
    ensures JoinedAt(ps, i) == if 0 < i < |ps| && MergePieces(ps[i - 1], ps[i]).Some?
                               then ps[..i - 1] + [MergePieces(ps[i - 1], ps[i]).value] + ps[i + 1..] else ps
  {
    hide MergePieces;
  }

  lemma {:induction false} JoinFacts(ps: seq<Piece>, i: int, S: Sources)
    requires AllTrue(ps, S)
    ensures AllTrue(JoinedAt(ps, i), S) && Addr(JoinedAt(ps, i)) == Addr(ps)
  {
    hide *;
    JoinedIs(ps, i);
    if 0 < i < |ps| && MergePieces(ps[i - 1], ps[i]).Some? {
      var l, r := ps[i - 1], ps[i];
      var m := MergePieces(l, r).value;
      AllTrueAt(ps, i - 1, S);
      AllTrueAt(ps, i, S);
      TrueNonEmpty(l, S);
      TrueNonEmpty(r, S);
      MergeTrue(l, r, S);
      MergeAddr(l, r);
      var a, z := ps[..i - 1], ps[i + 1..];
      assert ps == a + [l, r] + z;
      AddrThree(a, [l, r], z);
      AddrThree(a, [m], z);
      AddrTwo(l, r);
      Addr1Is(m);
      AllTrueParts(ps, i - 1, S);
      AllTrueParts(ps, i + 1, S);
      AllTrueTwo(m, m, S);
      AllTrueJoin(a, [m], S);
      AllTrueJoin(a + [m], z, S);
    }
  }

  lemma {:induction false} JoinSeams(ps: seq<Piece>, i: int, x: int)
    requires Seams(ps, x, i) && x <= i
    ensures Seams(JoinedAt(ps, i), x, x)
    ensures x == i ==> Merged(JoinedAt(ps, i))
  {
    var qs := JoinedAt(ps, i);
    forall k | 0 < k < |qs| && (k != x || x == i)
      ensures MergePieces(qs[k - 1], qs[k]).None?
    {
      if 0 < i < |ps| && MergePieces(ps[i - 1], ps[i]).Some? {
        if k < i {
          assert MergePieces(ps[k - 1], ps[k]).None?;
        } else {
          assert MergePieces(ps[k], ps[k + 1]).None?;
        }
      }
    }
  }

  /** Appending a piece to a merged front: join it with the last piece or put it behind. */
  function Appended(front: seq<Piece>, p: Piece): seq<Piece> {
    if front != [] && MergePieces(front[|front| - 1], p).Some?
    then front[..|front| - 1] + [MergePieces(front[|front| - 1], p).value] else front + [p]
  }

  lemma {:induction false} AppendFacts(front: seq<Piece>, p: Piece, S: Sources)
    requires AllTrue(front, S) && TruePiece(p, S)
    ensures AllTrue(Appended(front, p), S) && (Merged(front) ==> Merged(Appended(front, p)))
    ensures Addr(Appended(front, p)) == Addr(front) + Addr1(p)
  {
    var n := |front|;
    assert front + [p] == Appended(front, p) || JoinedAt(front + [p], n) == Appended(front, p);
    AllTrueJoin(front, [p], S);
    JoinFacts(front + [p], n, S);
    AddrConcat(front, [p]);
    Addr1Is(p);
    if Merged(front) {
      AppendSeams(front, p);
    }
  }

  lemma {:induction false} AppendSeams(front: seq<Piece>, p: Piece)
    requires Merged(front)
    ensures Merged(Appended(front, p))
  {
    var qs := Appended(front, p);
    forall k | 0 < k < |qs|
      ensures MergePieces(qs[k - 1], qs[k]).None?
    {
      if k < |front| {
        assert MergePieces(front[k - 1], front[k]).None?;
      }
    }
  }

  /** Two merged parts side by side have at most one seam. */
  lemma {:induction false} TwoParts(a: seq<Piece>, b: seq<Piece>)
    requires Merged(a) && Merged(b)
    ensures Seams(a + b, |a|, |a|)
  {
    var ps := a + b;
    forall i | 0 < i < |ps| && i != |a|
      ensures MergePieces(ps[i - 1], ps[i]).None?
    {
      if i < |a| {
        assert MergePieces(a[i - 1], a[i]).None?;
      } else {
        assert MergePieces(b[i - |a| - 1], b[i - |a|]).None?;
      }
    }
  }

  lemma {:induction false} SeamsParts(ps: seq<Piece>, x: nat, y: nat)
    requires x <= y <= |ps| && Seams(ps, x, y)
    ensures Merged(ps[..x]) && Merged(ps[x..y]) && Merged(ps[y..])
  {
    forall i | 0 < i < x
      ensures MergePieces(ps[..x][i - 1], ps[..x][i]).None?
    {
      assert MergePieces(ps[i - 1], ps[i]).None?;
    }
    forall i | 0 < i < y - x
      ensures MergePieces(ps[x..y][i - 1], ps[x..y][i]).None?
    {
      assert MergePieces(ps[x + i - 1], ps[x + i]).None?;
    }
    forall i | 0 < i < |ps| - y
      ensures MergePieces(ps[y..][i - 1], ps[y..][i]).None?
    {
      assert MergePieces(ps[y + i - 1], ps[y + i]).None?;
    }
  }

  // ----- cutting at an offset ------------------------------------------------------------------------

  /** Number of the piece that holds byte `offset`. */
  function Locate(ps: seq<Piece>, offset: int): nat
    requires NonEmpty(ps) && 0 <= offset < |Addr(ps)|
    ensures Locate(ps, offset) < |ps|
  {
    LocateStep(ps);
    if offset < ps[0].b - ps[0].a then 0 else 1 + Locate(ps[1..], offset - (ps[0].b - ps[0].a))
  }

  lemma {:induction false} LocateStep(ps: seq<Piece>)
    requires NonEmpty(ps) && |Addr(ps)| > 0
    ensures ps != [] && NonEmpty(ps[1..]) && |Addr(ps)| == ps[0].b - ps[0].a + |Addr(ps[1..])|
  {
  }

  lemma {:induction false} LocateFacts(ps: seq<Piece>, offset: int)
    requires NonEmpty(ps) && 0 <= offset < |Addr(ps)|
    ensures var i := Locate(ps, offset);
            |Addr(ps[..i])| <= offset < |Addr(ps[..i])| + ps[i].b - ps[i].a
  {
    hide Addr1;
    LocateStep(ps);
    var n := ps[0].b - ps[0].a;
    if offset >= n {
      LocateFacts(ps[1..], offset - n);
      var i := Locate(ps[1..], offset - n);
      assert ps[..i + 1] == [ps[0]] + ps[1..][..i];
      AddrConcat([ps[0]], ps[1..][..i]);
      Addr1Is(ps[0]);
      Addr1Length(ps[0]);
    }
  }

  /** Prefixes of a sequence of non-empty pieces grow. */
  lemma {:induction false} PrefixGrows(ps: seq<Piece>, i: nat, j: nat)
    requires NonEmpty(ps) && i < j <= |ps|
    ensures |Addr(ps[..i])| + ps[i].b - ps[i].a <= |Addr(ps[..j])| <= |Addr(ps)|
  {
    hide Addr;
    hide Addr1;
    assert ps == ps[..j] + ps[j..];
    AddrConcat(ps[..j], ps[j..]);
    assert ps[..j] == ps[..i] + ([ps[i]] + ps[i + 1..j]);
    AddrConcat(ps[..i], [ps[i]] + ps[i + 1..j]);
    AddrConcat([ps[i]], ps[i + 1..j]);
    Addr1Is(ps[i]);
    Addr1Length(ps[i]);
  }

  /** The located piece is the only one that holds the offset. */
  lemma {:induction false} LocateUnique(ps: seq<Piece>, offset: int, i: nat)
    requires NonEmpty(ps) && 0 <= offset < |Addr(ps)| && i < |ps|
    requires |Addr(ps[..i])| <= offset < |Addr(ps[..i])| + ps[i].b - ps[i].a
    ensures i == Locate(ps, offset)
  {
    hide *;
    LocateFacts(ps, offset);
    var j := Locate(ps, offset);
    if i < j {
      PrefixGrows(ps, i, j);
    } else if j < i {
      PrefixGrows(ps, j, i);
    }
  }

  /** The pieces with a boundary at an offset and the number of the piece that starts there, or no answer. */
  datatype CutResult = Refused | Done(rows: seq<Piece>, index: nat)

  /** `split_at` on the sequence: the pieces with a boundary at `offset`, and the number of the piece that starts there. */
  function CutAt(ps: seq<Piece>, offset: int, S: Sources): CutResult
    requires AllTrue(ps, S) && 0 <= offset <= |Addr(ps)|
  {
    if offset == |Addr(ps)| then Done(ps, |ps|)
    else
      AllTrueNonEmpty(ps, S);
      LocateFacts(ps, offset);
      var i := Locate(ps, offset);
      AllTrueAt(ps, i, S);
      var inner := offset - |Addr(ps[..i])|;
      if inner == 0 then Done(ps, i) else CutPiece(ps, i, inner, S)
  }

  /** Piece `i` cut `inner` bytes behind its start. */
  function CutPiece(ps: seq<Piece>, i: nat, inner: nat, S: Sources): CutResult
    requires i < |ps| && 0 < inner < ps[i].b - ps[i].a && ps[i].src in S && ps[i].b <= |S[ps[i].src].data|
  {
    match SplitPiece(ps[i], S[ps[i].src], ps[i].a + inner)
    case Err(_) => Refused
    case Ok(h) => Done(Cut(ps, i, h.0, h.1), i + 1)
  }

  /** A cut inside no CRLF keeps the bytes and their places. */
  lemma {:induction false} CutAtFacts(ps: seq<Piece>, offset: int, S: Sources)
    requires AllTrue(ps, S) && 0 <= offset <= |Addr(ps)| && !InsideCrlf(Doc(ps, S), offset)
    requires CutAt(ps, offset, S).Done?
    ensures var c := CutAt(ps, offset, S);
            AllTrue(c.rows, S) && Addr(c.rows) == Addr(ps) && c.index <= |c.rows| && |Addr(c.rows[..c.index])| == offset
  {
    hide *;
    AllTrueNonEmpty(ps, S);
    CutAtIs(ps, offset, S);
    assert ps[..|ps|] == ps;
    if offset < |Addr(ps)| {
      var i := Locate(ps, offset);
      var inner := offset - |Addr(ps[..i])|;
      if inner > 0 {
        CutMiddle(ps, i, inner, S, 0);
      }
    }
  }

  /** A cut at or behind the edge `x` keeps the pieces before `x` and adds one seam. */
  lemma {:induction false} CutAtSeams(ps: seq<Piece>, offset: int, S: Sources, x: nat)
    requires AllTrue(ps, S) && 0 <= offset <= |Addr(ps)| && !InsideCrlf(Doc(ps, S), offset)
    requires CutAt(ps, offset, S).Done? && x <= |ps| && |Addr(ps[..x])| <= offset
    ensures var c := CutAt(ps, offset, S);
            x <= c.index && x <= |c.rows| && c.rows[..x] == ps[..x] && (Seams(ps, x, x) ==> Seams(c.rows, x, c.index))
  {
    hide *;
    AllTrueNonEmpty(ps, S);
    CutAtIs(ps, offset, S);
    CutAtFacts(ps, offset, S);
    if offset < |Addr(ps)| {
      var i := Locate(ps, offset);
      EdgeBefore(ps, offset, x);
      var inner := offset - |Addr(ps[..i])|;
      if inner > 0 {
        CutMiddle(ps, i, inner, S, x);
      } else if Seams(ps, x, x) {
        SeamsWeaken(ps, x, i);
      }
    } else if Seams(ps, x, x) {
      SeamsWeaken(ps, x, |ps|);
    }
  }

  lemma {:induction false} EdgeBefore(ps: seq<Piece>, offset: int, x: nat)
    requires NonEmpty(ps) && 0 <= offset < |Addr(ps)| && x <= |ps| && |Addr(ps[..x])| <= offset
    ensures x <= Locate(ps, offset)
  {
    hide *;
    LocateFacts(ps, offset);
    var i := Locate(ps, offset);
    if x > i {
      PrefixGrows(ps, i, x);
    }
  }

  /** Cutting one piece where no CRLF is cut. */
  lemma {:induction false} CutMiddle(ps: seq<Piece>, i: nat, inner: nat, S: Sources, x: int)
    requires AllTrue(ps, S) && i < |ps| && 0 < inner < ps[i].b - ps[i].a && TruePiece(ps[i], S)
    requires !InsideCrlf(Doc(ps, S), |Addr(ps[..i])| + inner)
    requires ps[i].src in S && ps[i].b <= |S[ps[i].src].data|
    requires CutPiece(ps, i, inner, S).Done?
    ensures var c := CutPiece(ps, i, inner, S);
            && AllTrue(c.rows, S) && Addr(c.rows) == Addr(ps) && c.index == i + 1 <= |c.rows|
            && |Addr(c.rows[..c.index])| == |Addr(ps[..i])| + inner && c.rows != ps
            && (0 <= x <= i ==> c.rows[..x] == ps[..x] && (Seams(ps, x, x) ==> Seams(c.rows, x, c.index)))
  {
    hide *;
    CutPieceIs(ps, i, inner, S);
    var p := ps[i];
    NotInsideSource(ps, i, inner, S);
    SplitTrue(p, S, p.a + inner);
    var (l, r) := SplitPiece(p, S[p.src], p.a + inner).value;
    SplitEnds(p, S[p.src], p.a + inner);
    CutFacts(ps, i, l, r, S);
    if 0 <= x <= i {
      if Seams(ps, x, x) {
        CutSeams(ps, i, l, r, x);
      }
      PrefixOfPrefix(Cut(ps, i, l, r), ps, i, x);
    }
  }

  lemma {:induction false} CutPieceIs(ps: seq<Piece>, i: nat, inner: nat, S: Sources)
    requires i < |ps| && 0 < inner < ps[i].b - ps[i].a && ps[i].src in S && ps[i].b <= |S[ps[i].src].data|
    ensures var h := SplitPiece(ps[i], S[ps[i].src], ps[i].a + inner);
            CutPiece(ps, i, inner, S) == if h.Err? then Refused else Done(Cut(ps, i, h.value.0, h.value.1), i + 1)
    ensures CutPiece(ps, i, inner, S).Refused? && ps[i].a < ps[i].b ==> HidesOffset(ps[i], S)
  {
    hide Cut;
    hide Count;
  }

  lemma {:induction false} PrefixOfPrefix(qs: seq<Piece>, ps: seq<Piece>, i: nat, x: nat)
    requires x <= i <= |qs| && i <= |ps| && qs[..i] == ps[..i]
    ensures qs[..x] == ps[..x]
  {
    assert qs[..x] == qs[..i][..x];
    assert ps[..x] == ps[..i][..x];
  }

  lemma {:induction false} SplitEnds(p: Piece, source: Source, x: nat)
    requires p.a < x < p.b <= |source.data| && SplitPiece(p, source, x).Ok?
    ensures SplitPiece(p, source, x).value.0.a == p.a && SplitPiece(p, source, x).value.0.b == x
  {
    hide Count;
  }

  lemma {:induction false} SeamsWeaken(ps: seq<Piece>, x: int, y: int)
    requires Seams(ps, x, x)
    ensures Seams(ps, x, y)
  {
    hide MergePieces;
  }

  lemma {:induction false} CutAtIs(ps: seq<Piece>, offset: int, S: Sources)
    requires AllTrue(ps, S) && 0 <= offset <= |Addr(ps)| && NonEmpty(ps)
    ensures offset == |Addr(ps)| ==> CutAt(ps, offset, S) == Done(ps, |ps|)
    ensures offset < |Addr(ps)| ==>
              var i := Locate(ps, offset);
              && 0 <= offset - |Addr(ps[..i])| < ps[i].b - ps[i].a && ps[i].src in S && TruePiece(ps[i], S)
              && Readable(ps[i], S) && ps[i].b <= |S[ps[i].src].data|
              && (offset == |Addr(ps[..i])| ==> CutAt(ps, offset, S) == Done(ps, i))
              && (offset > |Addr(ps[..i])| ==> CutAt(ps, offset, S) == CutPiece(ps, i, offset - |Addr(ps[..i])|, S))
  {
    hide CutPiece;
    hide Count;
    hide AggOf;
    if offset < |Addr(ps)| {
      LocateFacts(ps, offset);
    }
  }

  lemma {:induction false} NotInsideSource(ps: seq<Piece>, i: nat, inner: nat, S: Sources)
    requires AllTrue(ps, S) && i < |ps| && 0 < inner < ps[i].b - ps[i].a
    requires !InsideCrlf(Doc(ps, S), |Addr(ps[..i])| + inner)
    ensures ps[i].src in S && !InsideCrlf(S[ps[i].src].data, ps[i].a + inner)
  {
    hide *;
    TakeApart(ps, i, S);
    TrueParts(ps[i], S);
    CutInsideExact(ps[..i], ps[i], ps[i + 1..], S, inner);
  }

  /** `offset` falls between two pieces or at an end. */
  predicate AtPieceEdge(ps: seq<Piece>, offset: int)
    requires NonEmpty(ps) && 0 <= offset <= |Addr(ps)|
  {
    offset == |Addr(ps)| || (LocateFacts(ps, offset); offset == |Addr(ps[..Locate(ps, offset)])|)
  }

  /**
   A cut leaves a merged sequence merged exactly when it cuts no piece. This is what an edit leaves
   behind when its second cut is refused by the row oracle: the bytes are as before, but unless the first
   boundary was a piece edge two contiguous pieces now stand side by side.
   */
  lemma {:induction false} RefusedEditSeam(ps: seq<Piece>, offset: int, S: Sources)
    requires AllTrue(ps, S) && Merged(ps) && NonEmpty(ps)
    requires 0 <= offset <= |Addr(ps)| && !InsideCrlf(Doc(ps, S), offset) && CutAt(ps, offset, S).Done?
    ensures Merged(CutAt(ps, offset, S).rows) <==> AtPieceEdge(ps, offset)
    ensures Doc(CutAt(ps, offset, S).rows, S) == Doc(ps, S)
  {
    hide *;
    CutAtFacts(ps, offset, S);
    var qs := CutAt(ps, offset, S).rows;
    DocByAddr(ps, qs, S);
    EdgeIs(ps, offset, S);
    if Merged(qs) {
      Canonical(qs, ps, S);
    }
  }

  lemma {:induction false} DocByAddr(ps: seq<Piece>, qs: seq<Piece>, S: Sources)
    requires Addr(ps) == Addr(qs)
    ensures Doc(ps, S) == Doc(qs, S)
  {
  }

  lemma {:induction false} EdgeIs(ps: seq<Piece>, offset: int, S: Sources)
    requires AllTrue(ps, S) && NonEmpty(ps) && 0 <= offset <= |Addr(ps)| && CutAt(ps, offset, S).Done?
    requires !InsideCrlf(Doc(ps, S), offset)
    ensures AtPieceEdge(ps, offset) <==> CutAt(ps, offset, S).rows == ps
  {
    hide CutPiece;
    hide AllTrue;
    hide CutAt;
    hide Addr;
    hide Doc;
    CutAtIs(ps, offset, S);
    if !AtPieceEdge(ps, offset) {
      var i := Locate(ps, offset);
      CutMiddle(ps, i, offset - |Addr(ps[..i])|, S, 0);
    }
  }

  lemma {:induction false} AddrEmpty()
    ensures Addr([]) == []
  {
  }

  // ----- undo ---------------------------------------------------------------------------------------

  /** `after` is `before` with `[start, end)` replaced, as the places of the bytes tell. */
  ghost predicate Replaced(before: seq<Piece>, start: int, end: int, added: seq<Piece>, after: seq<Piece>) {
    && 0 <= start <= end <= |Addr(before)|
    && Addr(after) == Addr(before)[..start] + Addr(added) + Addr(before)[end..]
  }

  /**
   Undo restores the exact pieces: replacing a range and then putting the removed bytes back gives the
   identical piece sequence, not only the same text.
   */
  lemma {:induction false} UndoRestoresPieces(p: seq<Piece>, start: int, end: int, added: seq<Piece>, removed: seq<Piece>,
                                              q: seq<Piece>, r: seq<Piece>, S: Sources)
    requires AllTrue(p, S) && Merged(p) && AllTrue(r, S) && Merged(r)
    requires Replaced(p, start, end, added, q) && Addr(removed) == Addr(p)[start..end]
    requires Replaced(q, start, start + |Addr(added)|, removed, r)
    ensures r == p
  {
    hide *;
    ReplacedIs(p, start, end, added, q);
    ReplacedIs(q, start, start + |Addr(added)|, removed, r);
    var x, m := Addr(p), Addr(added);
    assert Addr(q)[..start] == x[..start] && Addr(q)[start + |m|..] == x[end..];
    assert x[..start] + x[start..end] + x[end..] == x;
    Canonical(r, p, S);
  }

  lemma {:induction false} ReplacedIs(before: seq<Piece>, start: int, end: int, added: seq<Piece>, after: seq<Piece>)
    requires Replaced(before, start, end, added, after)
    ensures 0 <= start <= end <= |Addr(before)|
    ensures Addr(after) == Addr(before)[..start] + Addr(added) + Addr(before)[end..]
  {
  }

  /** In bytes: replacing a range of places replaces that range of the document. */
  lemma {:induction false} ReplacedDoc(before: seq<Piece>, start: int, end: int, added: seq<Piece>, after: seq<Piece>, S: Sources)
    requires Replaced(before, start, end, added, after)
    ensures 0 <= start <= end <= |Doc(before, S)|
    ensures Doc(after, S) == Doc(before, S)[..start] + Doc(added, S) + Doc(before, S)[end..]
  {
    hide Addr;
  }

  /** A merged sequence denotes the whole source exactly when it is the single piece of it. */
  lemma {:induction false} IdentityPiece(ps: seq<Piece>, S: Sources)
    requires AllTrue(ps, S) && Merged(ps) && 0 in S && |S[0].data| > 0
    ensures Addr(ps) == seq(|S[0].data|, i requires 0 <= i => Loc(0, i))
       <==> |ps| == 1 && ps[0].src == 0 && ps[0].a == 0 && ps[0].b == |S[0].data|
  {
    var n := |S[0].data|;
    if |ps| == 1 && ps[0].src == 0 && ps[0].a == 0 && ps[0].b == n {
      Addr1Is(ps[0]);
      assert ps == [ps[0]];
    }
    if Addr(ps) == seq(n, i requires 0 <= i => Loc(0, i)) {
      AllTrueNonEmpty(ps, S);
      hide TruePiece;
      assert ps != [];
      FirstPieceStops(ps);
      assert Addr(ps)[0] == Loc(0, 0);
      assert ps[0].b == n;
      Addr1Length(ps[0]);
      OnePieceLeft(ps);
    }
  }

  lemma {:induction false} OnePieceLeft(ps: seq<Piece>)
    requires |ps| > 0 && NonEmpty(ps)
    ensures |ps| > 1 ==> |Addr(ps[1..])| > 0
  {
    if |ps| > 1 {
      Addr1Length(ps[1]);
    }
  }
}
