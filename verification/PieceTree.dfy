/**
 The piece tree (`piece_tree.py`): a root node changed in place. Seen from outside it is a sequence of
 pieces; every operation is specified by what it does to that sequence, to the places of the bytes, and
 to the document.
 */
module PieceTree {
  import opened Rows
  import opened Pieces
  import opened TreeShape
  import opened TreeOps
  import opened TreeRange
  import opened TreeNode
  import TreeBuild
  import opened TreeCursor
  import opened Navigation
  import opened PieceSeq
  import opened TailText

  /** The piece that holds the byte at an offset; no piece at the very end. */
  datatype Location = Location(index: nat, piece: Option<Piece>, start: nat, inner: nat)

  /** A piece and the part `[lo, hi)` of it that a range overlaps. */
  datatype Overlap = Overlap(piece: Piece, lo: int, hi: int)

  /** The part alone. Its break facts are not recomputed; only its place is meant. */
  function Crop(o: Overlap): Piece {
    if 0 <= o.lo <= o.hi then o.piece.(a := o.piece.a + o.lo, b := o.piece.a + o.hi) else o.piece
  }

  function Crops(overlaps: seq<Overlap>): seq<Piece> {
    seq(|overlaps|, i requires 0 <= i < |overlaps| => Crop(overlaps[i]))
  }

  /** The pieces between two boundaries, by number. */
  datatype PieceRange = PieceRange(first: nat, last: nat)

  /** Whether `[start, end)` may be cut out of `d`. */
  predicate Allowed(d: Bytes, start: int, end: int) {
    0 <= start <= end <= |d| && !InsideCrlf(d, start) && !InsideCrlf(d, end)
  }

  /**
   Taking an edit back is allowed exactly when the edit made no CRLF at either of its seams. `d` is the document
   before the edit, `c` what replaced `[start, end)`.
   */
  lemma {:induction false} UndoAllowed(d: Bytes, start: int, end: int, c: Bytes)
    requires 0 <= start <= end <= |d|
    ensures Allowed(d[..start] + c + d[end..], start, start + |c|)
       <==> !Junction(d[..start], c + d[end..]) && !Junction(d[..start] + c, d[end..])
  {
    var t := d[..start] + c + d[end..];
    assert t == d[..start] + (c + d[end..]) == (d[..start] + c) + d[end..];
  }

  /** A CR typed in front of an LF cannot be taken back alone. */
  lemma {:induction false} UndoRefusedExample()
    ensures var before: Bytes := [LF]; Allowed(before, 0, 0)
    ensures var after: Bytes := [] + [CR] + [LF]; !Allowed(after, 0, 1)
  {
    var after: Bytes := [] + [CR] + [LF];
    assert after == [CR, LF] && InsideCrlf(after, 1);
  }

  /** The row oracles refuse one of the two cuts of an edit. */
  ghost predicate Refuses(ps: seq<Piece>, start: int, end: int, S: Sources)
    requires AllTrue(ps, S) && Allowed(Doc(ps, S), start, end)
  {
    DocLength(ps, S);
    CutAt(ps, start, S).Refused?
    || (PieceTree.FirstCut(ps, start, S); CutAt(CutAt(ps, start, S).rows, end, S).Refused?)
  }

  /** Some piece lies on an offset whose row its oracle cannot name. */
  ghost predicate SomeHides(ps: seq<Piece>, S: Sources) {
    exists i :: 0 <= i < |ps| && HidesOffset(ps[i], S)
  }

  lemma {:induction false} SomeHidesAt(ps: seq<Piece>, i: nat, S: Sources)
    requires i < |ps| && HidesOffset(ps[i], S)
    ensures SomeHides(ps, S)
  {
  }

  /** Piece `i` holds terminator `k`. */
  ghost predicate HoldsBreak(ps: seq<Piece>, i: int, k: int) {
    0 <= i < |ps| && AggRows(ps[..i]).breaks < k <= Combine(AggRows(ps[..i]), ps[i].Agg()).breaks
  }

  /** The row oracle places the end of terminator `k` in piece `i`; it is not asked for a CR that ends the piece. */
  ghost predicate PlacesBreak(ps: seq<Piece>, i: int, k: int, S: Sources)
    requires 0 <= i < |ps|
  {
    var acc, p := AggRows(ps[..i]), ps[i];
    var rank := k - acc.breaks + if acc.lastIsCr && p.firstIsLf then 1 else 0;
    (rank == p.breaks && p.lastIsCr) || (p.src in S && p.row0 + rank >= 0 && S[p.src].RowStartOf(p.row0 + rank).Some?)
  }

  /** The piece that holds terminator `k` can say where it ends. */
  ghost predicate BreakKnown(ps: seq<Piece>, k: int, S: Sources) {
    exists i :: HoldsBreak(ps, i, k) && PlacesBreak(ps, i, k, S)
  }

  /** One piece holds a terminator, so that piece alone decides. */
  lemma {:induction false} OneHolder(ps: seq<Piece>, i: int, k: int, S: Sources)
    requires AllTrue(ps, S) && HoldsBreak(ps, i, k)
    ensures BreakKnown(ps, k, S) <==> PlacesBreak(ps, i, k, S)
  {
    hide AggRows;
    hide Combine;
    hide AllTrue;
    hide PlacesBreak;
    if BreakKnown(ps, k, S) {
      var j :| HoldsBreak(ps, j, k) && PlacesBreak(ps, j, k, S);
      if i < j {
        BreaksAhead(ps, i, j, S);
      } else if j < i {
        BreaksAhead(ps, j, i, S);
      }
    }
  }

  lemma {:induction false} HoldsIs(ps: seq<Piece>, i: int, k: int)
    ensures HoldsBreak(ps, i, k) <==> 0 <= i < |ps| && AggRows(ps[..i]).breaks < k <= Combine(AggRows(ps[..i]), ps[i].Agg()).breaks
  {
    hide AggRows;
    hide Combine;
  }

  /** The terminators up to the end of piece `i` are not more than those in front of a later piece. */
  lemma {:induction false} BreaksAhead(ps: seq<Piece>, i: nat, j: nat, S: Sources)
    requires AllTrue(ps, S) && i < j <= |ps|
    ensures Combine(AggRows(ps[..i]), ps[i].Agg()).breaks <= AggRows(ps[..j]).breaks
    decreases j
  {
    hide *;
    if i == j - 1 {
      NextAgg(ps, i);
    } else {
      BreaksAhead(ps, i, j - 1, S);
      NextAgg(ps, j - 1);
      TakeApart(ps, j - 1, S);
      AggRowsTrue(ps[..j - 1], S);
      MoreBreaks(Doc(ps[..j - 1], S), ps[j - 1], S);
    }
  }

  lemma {:induction false} NextAgg(ps: seq<Piece>, i: nat)
    requires i < |ps|
    ensures AggRows(ps[..i + 1]) == Combine(AggRows(ps[..i]), ps[i].Agg())
  {
    assert ps[..i + 1][..i] == ps[..i];
  }

  lemma {:induction false} MoreBreaks(d: Bytes, p: Piece, S: Sources)
    requires TruePiece(p, S)
    ensures AggOf(d).breaks <= Combine(AggOf(d), p.Agg()).breaks
  {
    hide *;
    TrueParts(p, S);
    var m := PieceBytes(p, S);
    AggParts(d);
    AggParts(m);
    AggOfConcat(d, m);
    AggParts(d + m);
    CountMonotone(d + m, |d|, |d + m|);
    FrontCount(d, m);
    TrueAgg(p, S);
  }

  lemma {:induction false} TrueAgg(p: Piece, S: Sources)
    requires TruePiece(p, S)
    ensures Readable(p, S) && p.Agg() == AggOf(PieceBytes(p, S))
  {
    hide AggOf;
  }

  lemma {:induction false} FrontCount(d: Bytes, m: Bytes)
    ensures Breaks(d) <= Breaks(d + m) && Breaks(d + m) == Count(d + m, |d + m|)
  {
    BreaksConcat(d, m);
    if Junction(d, m) {
      assert EndsAt(m, 1);
      CountMonotone(m, 1, |m|);
      assert Count(m, 1) == Count(m, 0) + 1;
    }
  }

  /** Piece `i` holds the byte at an offset. */
  ghost predicate HoldsByte(ps: seq<Piece>, i: int, offset: int) {
    0 <= i < |ps| && |Addr(ps[..i])| <= offset < |Addr(ps[..i])| + ps[i].b - ps[i].a
  }

  /** The row oracle can name the rows that are counted in piece `i` up to an offset inside it. */
  ghost predicate NamesRow(ps: seq<Piece>, i: int, offset: int, S: Sources)
    requires 0 <= i < |ps|
  {
    var p, inner := ps[i], offset - |Addr(ps[..i])|;
    inner == 0 || (p.src in S && p.a !in S[p.src].mute && p.a + inner !in S[p.src].mute)
  }

  /** The piece that holds an offset can count up to it; at the end nothing is asked. */
  ghost predicate RowKnown(ps: seq<Piece>, offset: int, S: Sources) {
    offset == |Addr(ps)| || exists i :: HoldsByte(ps, i, offset) && NamesRow(ps, i, offset, S)
  }

  lemma {:induction false} OneByteHolder(ps: seq<Piece>, i: int, offset: int, S: Sources)
    requires AllTrue(ps, S) && HoldsByte(ps, i, offset) && 0 <= offset < |Addr(ps)|
    ensures RowKnown(ps, offset, S) <==> NamesRow(ps, i, offset, S)
  {
    hide Addr;
    hide AllTrue;
    hide NamesRow;
    hide Locate;
    AllTrueNonEmpty(ps, S);
    LocateUnique(ps, offset, i);
    if RowKnown(ps, offset, S) {
      var j :| HoldsByte(ps, j, offset) && NamesRow(ps, j, offset, S);
      LocateUnique(ps, offset, j);
    }
  }

  lemma {:induction false} HoldsByteIs(ps: seq<Piece>, i: int, offset: int)
    ensures HoldsByte(ps, i, offset) <==> 0 <= i < |ps| && |Addr(ps[..i])| <= offset < |Addr(ps[..i])| + ps[i].b - ps[i].a
  {
    hide Addr;
  }

  lemma {:induction false} RowKnownIs(ps: seq<Piece>, offset: int, S: Sources)
    ensures RowKnown(ps, offset, S) <==> offset == |Addr(ps)| || exists i :: HoldsByte(ps, i, offset) && NamesRow(ps, i, offset, S)
  {
    hide HoldsByte;
    hide NamesRow;
    hide Addr;
  }

  /** What an edit leaves behind when a cut was refused: nothing if it was the first of its two cuts, else that cut. */
  ghost function LeftBehind(before: seq<Piece>, start: int, S: Sources): seq<Piece>
    requires AllTrue(before, S) && 0 <= start <= |Addr(before)|
  {
    if CutAt(before, start, S).Refused? then before else CutAt(before, start, S).rows
  }

  /** The first cut is refused, or cuts no piece. */
  ghost predicate FirstCutSpares(before: seq<Piece>, start: int, S: Sources)
    requires AllTrue(before, S) && 0 <= start <= |Addr(before)|
  {
    CutAt(before, start, S).Refused? || (AllTrueNonEmpty(before, S); AtPieceEdge(before, start))
  }

  class PieceTree {
    const fanout: nat
    var root: Node
    ghost var Repr: set<object>

    ghost predicate Valid()
      reads this, Repr
    {
      && this in Repr && root in Repr && root.Repr <= Repr
      && fanout >= 4
      && root.Valid() && WellFormed(root.shape, root.h, fanout)
    }

    ghost function Pieces(): seq<Piece>
      reads this, root
    {
      RowsOf(root.shape)
    }

    constructor (f: nat)
      requires f >= 4
      ensures Valid() && fresh(Repr) && Pieces() == [] && fanout == f
    {
      fanout := f;
      var leaf := new Node.Empty();
      root := leaf;
      Repr := {this} + leaf.Repr;
      new;
      NoLeaf(f);
    }

    /** `from_pieces`: contiguous neighbours are joined; what comes out is the one merged sequence with these bytes. */
    constructor OfPieces(pieces: seq<Piece>, f: nat, ghost S: Sources)
      requires f >= 4 && AllTrue(pieces, S)
      ensures Valid() && fresh(Repr) && fanout == f
      ensures AllTrue(Pieces(), S) && Merged(Pieces()) && Addr(Pieces()) == Addr(pieces)
    {
      hide *;
      var merged := TreeBuild.MergeAll(pieces, S);
      AllTrueNonEmpty(merged, S);
      var top: Node;
      if merged == [] {
        top := new Node.Empty();
      } else {
        top := TreeBuild.BuildTree(merged, f);
      }
      fanout, root := f, top;
      Repr := {this} + top.Repr;
      new;
      NoLeaf(f);
      Fold();
    }

    lemma {:induction false} Facts()
      requires Valid()
      ensures fanout >= 4 && root.Valid() && WellFormed(root.shape, root.h, fanout) && Dense(root.shape, root.h, fanout)
      ensures root.Repr <= Repr && this in Repr && root in Repr
      ensures Pieces() == RowsOf(root.shape)
      ensures root.count == |Pieces()| && root.agg == AggRows(Pieces()) && NonEmpty(Pieces())
    {
      WellFormedIsDense(root.shape, root.h, fanout);
      RootCached(root.shape, root.h, fanout);
      root.LinkedWhenValid();
      root.Open();
    }

    static lemma {:induction false} RootCached(t: Tree, h: nat, f: nat)
      requires WellFormed(t, h, f)
      ensures t.count == |RowsOf(t)| && t.agg == AggRows(RowsOf(t)) && NonEmpty(RowsOf(t))
    {
    }

    lemma {:induction false} Fold()
      requires this in Repr && root in Repr && root.Repr <= Repr && fanout >= 4
      requires root.Valid() && WellFormed(root.shape, root.h, fanout)
      ensures Valid() && Pieces() == RowsOf(root.shape)
    {
    }

    // ----- structural operations ---------------------------------------------------------------------

    /** `_collapse_root`. */
    method CollapseRoot()
      requires this in Repr && root in Repr && root.Repr <= Repr && fanout >= 4
      requires root.Valid() && Repaired(root.shape, root.h, fanout)
      modifies this`root
      ensures Valid() && Pieces() == old(RowsOf(root.shape))
      ensures root.shape == Collapse(old(root.shape))
    {
      hide *;
      ghost var t := root.shape;
      root.LinkedWhenValid();
      root.Open();
      while !root.isLeaf && |root.kids| == 1
        invariant root in Repr && root.Repr <= Repr && root.Valid() && root.Linked()
        invariant Repaired(root.shape, root.h, fanout) && Collapse(root.shape) == Collapse(t) && RowsOf(root.shape) == RowsOf(t)
        decreases root.h
      {
        root.LinkedWhenValid();
        root.Open();
        Node.ForestAt(root.kids, 0, root.h - 1);
        CollapseStep(root.shape, root.h, fanout);
        root.KidCached(0);
        root := root.kids[0];
        root.LinkedWhenValid();
      }
      root.LinkedWhenValid();
      root.Open();
      CollapseEnd(root.shape, root.h, fanout);
      Fold();
    }

    static lemma {:induction false} CollapseStep(t: Tree, h: nat, f: nat)
      requires Repaired(t, h, f) && t.Inner? && |t.kids| == 1
      ensures h > 0 && Repaired(t.kids[0], h - 1, f)
      ensures Collapse(t) == Collapse(t.kids[0]) && RowsOf(t) == RowsOf(t.kids[0])
    {
      KidRowsOne(t.kids[0]);
      assert t.kids == [t.kids[0]];
    }

    static lemma {:induction false} CollapseEnd(t: Tree, h: nat, f: nat)
      requires f >= 4 && Repaired(t, h, f) && (t.Inner? ==> |t.kids| != 1)
      ensures Collapse(t) == t && WellFormed(t, h, f)
    {
      CollapseFacts(t, h, f);
    }

    /** `_insert_piece`. */
    method InsertPiece(index: int, p: Piece)
      requires Valid() && 0 <= index <= |Pieces()| && p.a < p.b
      modifies Repr
      ensures Valid() && fresh(Repr - old(Repr)) && Pieces() == Inserted(old(Pieces()), index, p)
    {
      hide *;
      Facts();
      ghost var t, h := root.shape, root.h;
      InsertPieceFacts(t, index, p, h, fanout);
      InsertFacts(t, index, p, h, fanout);
      InsertPieceIs(t, index, p, h, fanout);
      var sib := root.InsertInto(index, p, fanout);
      Repr := Repr + root.Repr;
      if sib != null {
        Node.ForestOne(root);
        Node.ForestOne(sib);
        Node.ForestJoin([root], [sib], h);
        assert [root] + [sib] == [root, sib];
        assert [root.shape] + [sib.shape] == [root.shape, sib.shape];
        var top := new Node.InnerOf([root, sib], h + 1, Node.Below([root, sib]));
        top.Open();
        top.FreshIs();
        Node.FreshUnfold(top.isLeaf, top.rows, Node.Shapes(top.kids));
        top.Refresh();
        root := top;
        Repr := Repr + top.Repr;
      }
      Fold();
    }

    static lemma {:induction false} InsertPieceIs(t: Tree, index: int, p: Piece, h: nat, f: nat)
      requires f >= 4 && WellFormed(t, h, f) && 0 <= index <= |RowsOf(t)| && p.a < p.b
      ensures var (l, s) := Insert(t, index, p, f);
              && TreeRange.InsertPiece(t, index, p, f) == (if s.Some? then TreeShape.Refresh(Inner([l, s.value], 0, EMPTY)) else l)
              && WellFormed(TreeRange.InsertPiece(t, index, p, f), if s.Some? then h + 1 else h, f)
    {
      hide TreeShape.Refresh;
      hide Exact;
      WellFormedIsDense(t, h, f);
      InsertFacts(t, index, p, h, f);
      var (l, s) := Insert(t, index, p, f);
      if s.Some? {
        FreshFull([l, s.value], h, f);
        RefreshKeepsKind(Inner([l, s.value], 0, EMPTY), []);
      }
    }

    /** `_replace_at` from the root. */
    method ReplacePiece(index: int, p: Piece)
      requires Valid() && 0 <= index < |Pieces()| && p.a < p.b
      modifies Repr
      ensures Valid() && fresh(Repr - old(Repr)) && Pieces() == old(Pieces())[index := p]
    {
      hide *;
      Facts();
      ReplacePieceFacts(root.shape, index, p, root.h, fanout);
      root.ReplaceAt(index, p, fanout);
      Fold();
    }

    /** `_delete_at` from the root, then `_collapse_root`. */
    method DeletePiece(index: int)
      requires Valid() && 0 <= index < |Pieces()| && |Pieces()| >= 2
      modifies Repr
      ensures Valid() && fresh(Repr - old(Repr)) && Pieces() == old(Pieces())[..index] + old(Pieces())[index + 1..]
    {
      hide *;
      Facts();
      RootKids(root.shape, root.h, fanout);
      DeleteAtFacts(root.shape, index, root.h, fanout);
      DeletedRepaired(root.shape, index, root.h, fanout);
      root.DeleteAt(index, fanout);
      CollapseRoot();
    }

    static lemma {:induction false} RootKids(t: Tree, h: nat, f: nat)
      requires WellFormed(t, h, f)
      ensures t.Inner? ==> |t.kids| >= 2
    {
    }

    static lemma {:induction false} DeletedRepaired(t: Tree, index: int, h: nat, f: nat)
      requires f >= 4 && WellFormed(t, h, f) && 0 <= index < |RowsOf(t)| && |RowsOf(t)| >= 2
      ensures Repaired(DeleteAt(t, index, f), h, f)
    {
      hide DeleteAt;
      hide Exact;
      WellFormedIsDense(t, h, f);
      DeleteAtFacts(t, index, h, f);
      DenseIsRepaired(DeleteAt(t, index, f), h, f);
    }

    /** `_delete_pieces`. */
    method DeletePieces(index: int, n: int)
      requires Valid() && 0 <= index && 0 <= n && index + n <= |Pieces()|
      modifies Repr
      ensures Valid() && fresh(Repr - old(Repr)) && Pieces() == old(Pieces())[..index] + old(Pieces())[index + n..]
    {
      hide *;
      Facts();
      ghost var ps := Pieces();
      if n <= 0 {
        assert ps == ps[..index] + ps[index + n..];
        return;
      }
      if n == root.count {
        root := new Node.Empty();
        Repr := Repr + root.Repr;
        NoLeaf(fanout);
        Fold();
        return;
      }
      ghost var t, h := root.shape, root.h;
      RangeFacts(t, index, n, h, fanout);
      root.DeleteRange(index, n, fanout);
      CollapseRoot();
    }

    static lemma {:induction false} RangeFacts(t: Tree, index: int, n: int, h: nat, f: nat)
      requires f >= 4 && Dense(t, h, f) && 0 <= index && 0 < n && index + n <= |RowsOf(t)| && n < |RowsOf(t)|
      ensures Repaired(DeleteRange(t, index, n, h, f), h, f)
      ensures RowsOf(DeleteRange(t, index, n, h, f)) == RowsOf(t)[..index] + RowsOf(t)[index + n..]
    {
      hide DeleteRange;
      hide RowsOf;
      var r := DeleteRange(t, index, n, h, f);
    }

    // ----- navigation -------------------------------------------------------------------------------

    /** `piece_at`. */
    method PieceAt(index: int) returns (r: Result<Piece>)
      requires Valid()
      ensures 0 <= index < |Pieces()| ==> r == Ok(Pieces()[index])
      ensures !(0 <= index < |Pieces()|) ==> r == Err(IndexError)
    {
      hide *;
      Facts();
      if !(0 <= index < root.count) {
        return Err(IndexError);
      }
      var node, local := root, index;
      ghost var seen, back: seq<Piece> := [], [];
      assert Pieces() == seen + RowsOf(node.shape) + back;
      while !node.isLeaf
        invariant node in root.Repr && node.Repr <= root.Repr && node.Valid() && Dense(node.shape, node.h, fanout)
        invariant Pieces() == seen + RowsOf(node.shape) + back && 0 <= local < |RowsOf(node.shape)| && index == |seen| + local
        decreases node.h
      {
        var i, rest := EnterByCount(node, local, fanout);
        KidSeen(node, i, fanout);
        ghost var ks := Node.Shapes(node.kids);
        seen, back := seen + KidRows(ks[..i]), KidRows(ks[i + 1..]) + back;
        node, local := node.kids[i], rest;
      }
      LeafContents(node, fanout);
      r := Ok(node.rows[local]);
    }

    static lemma {:induction false} LeafContents(node: Node, f: nat)
      requires node.Valid() && node.isLeaf && Dense(node.shape, node.h, f)
      ensures RowsOf(node.shape) == node.rows && NonEmpty(node.rows)
    {
    }

    /** The descent of `find_offset` and `row_of`: the piece that holds byte `offset`, and what lies before it. */
    method Descend(offset: int) returns (p: Piece, c: Cursor)
      requires Valid() && 0 <= offset < |Addr(Pieces())|
      ensures 0 <= c.index < |Pieces()| && p == Pieces()[c.index] && At(c, Pieces()[..c.index])
      ensures c.start <= offset < c.start + p.Length()
    {
      hide *;
      Facts();
      var node := root;
      c := ORIGIN;
      AtOrigin();
      ghost var seen, back: seq<Piece> := [], [];
      Alone(RowsOf(node.shape));
      AtStart(c, seen);
      AddrNone();
      while !node.isLeaf
        invariant node in root.Repr && node.Repr <= root.Repr && node.Valid() && Dense(node.shape, node.h, fanout)
        invariant Pieces() == seen + RowsOf(node.shape) + back
        invariant At(c, seen) && c.start <= offset < |Addr(seen + RowsOf(node.shape))|
        decreases node.h
      {
        var i, c1 := EnterByLength(node, offset, c, seen, fanout);
        KidSeen(node, i, fanout);
        ghost var ks := Node.Shapes(node.kids);
        Inward(seen, KidRows(ks[..i]), RowsOf(ks[i]), KidRows(ks[i + 1..]), back);
        seen, back := seen + KidRows(ks[..i]), KidRows(ks[i + 1..]) + back;
        node, c := node.kids[i], c1;
      }
      LeafContents(node, fanout);
      var i, c1 := PickByLength(node, offset, c, seen);
      c := c1;
      p := node.rows[i];
      AtStart(c, seen + node.rows[..i]);
      Prefix(seen, node.rows, back, i);
    }

    static lemma {:induction false} Alone(rows: seq<Piece>)
      ensures [] + rows == rows && rows == [] + rows + []
    {
    }

    static lemma {:induction false} Inward(x: seq<Piece>, a: seq<Piece>, m: seq<Piece>, z: seq<Piece>, y: seq<Piece>)
      ensures x + (a + m + z) + y == (x + a) + m + (z + y)
    {
    }

    static lemma {:induction false} AddrNone()
      ensures Addr([]) == []
    {
    }

    static lemma {:induction false} Prefix(a: seq<Piece>, m: seq<Piece>, z: seq<Piece>, i: nat)
      requires i < |m|
      ensures (a + m + z)[..|a + m[..i]|] == a + m[..i] && |a + m[..i]| == |a| + i && (a + m + z)[|a| + i] == m[i]
    {
    }

    /** The descent of `find_break`: the piece with which the break count reaches `k`. */
    method DescendByBreaks(k: int) returns (p: Piece, c: Cursor)
      requires Valid() && 1 <= k <= AggRows(Pieces()).breaks
      ensures 0 <= c.index < |Pieces()| && p == Pieces()[c.index] && At(c, Pieces()[..c.index])
      ensures c.acc.breaks < k <= Combine(c.acc, p.Agg()).breaks
    {
      hide *;
      Facts();
      ghost var seen, back;
      var node;
      node, c, seen, back := LeafByBreaks(k);
      LeafContents(node, fanout);
      var i, c1 := PickByBreaks(node, k, c, seen);
      c := c1;
      p := node.rows[i];
      AtStart(c, seen + node.rows[..i]);
      Prefix(seen, node.rows, back, i);
    }

    /** The leaf that holds terminator `k`, with the pieces in front of it and behind it. */
    method LeafByBreaks(k: int) returns (node: Node, c: Cursor, ghost seen: seq<Piece>, ghost back: seq<Piece>)
      requires Valid() && 1 <= k <= AggRows(Pieces()).breaks
      ensures node in root.Repr && node.Valid() && Dense(node.shape, node.h, fanout) && node.isLeaf
      ensures Pieces() == seen + RowsOf(node.shape) + back
      ensures At(c, seen) && c.acc.breaks < k <= AggRows(seen + RowsOf(node.shape)).breaks
    {
      hide *;
      Facts();
      ghost var all, repr := Pieces(), root.Repr;
      node := root;
      RootAmong(node);
      c := ORIGIN;
      OriginBreaks();
      AtOrigin();
      seen, back := [], [];
      Alone(RowsOf(node.shape));
      while !node.isLeaf
        invariant node in repr && node.Repr <= repr && node.Valid() && Dense(node.shape, node.h, fanout)
        invariant all == seen + RowsOf(node.shape) + back
        invariant At(c, seen) && c.acc.breaks < k <= AggRows(seen + RowsOf(node.shape)).breaks
        decreases node.h
      {
        var i, c1 := EnterByBreaks(node, k, c, seen, fanout);
        KidSeen(node, i, fanout);
        ghost var ks := Node.Shapes(node.kids);
        Inward(seen, KidRows(ks[..i]), RowsOf(ks[i]), KidRows(ks[i + 1..]), back);
        seen, back := seen + KidRows(ks[..i]), KidRows(ks[i + 1..]) + back;
        node, c := node.kids[i], c1;
      }
    }

    static lemma {:induction false} RootAmong(node: Node)
      requires node.Valid()
      ensures node in node.Repr
    {
      node.LinkedWhenValid();
    }

    static lemma {:induction false} OriginBreaks()
      ensures ORIGIN.acc.breaks == 0
    {
    }

    /** What lies before, in and behind the piece a descent stopped at. */
    lemma {:induction false} StoppedAt(p: Piece, c: Cursor, S: Sources)
      requires Valid() && AllTrue(Pieces(), S)
      requires 0 <= c.index < |Pieces()| && p == Pieces()[c.index] && At(c, Pieces()[..c.index])
      ensures var front, back := Pieces()[..c.index], Pieces()[c.index + 1..];
              && Pieces() == front + [p] + back
              && AllTrue(front, S) && TruePiece(p, S) && AllTrue(back, S)
              && c.start == |Addr(front)| == |Doc(front, S)| && c.acc == AggRows(front)
      ensures Readable(p, S) && p.src in S && p.a < p.b <= |S[p.src].data|
      ensures p.row0 >= 0 && p.breaks >= 0 && p.Length() == p.b - p.a
    {
      hide *;
      TakeApart(Pieces(), c.index, S);
      AtStart(c, Pieces()[..c.index]);
      TrueParts(p, S);
    }

    /** The summary kept at the root is that of the document. */
    lemma {:induction false} RootAgg(S: Sources)
      requires Valid() && AllTrue(Pieces(), S)
      ensures root.agg == AggOf(Doc(Pieces(), S))
      ensures root.agg.length == |Doc(Pieces(), S)| == |Addr(Pieces())| && root.agg.breaks == Breaks(Doc(Pieces(), S))
      ensures root.count == |Pieces()|
    {
      hide *;
      Facts();
      AggRowsTrue(Pieces(), S);
      AggParts(Doc(Pieces(), S));
      DocLength(Pieces(), S);
    }

    /** `find_offset`. */
    method FindOffset(offset: int) returns (r: Result<Location>)
      requires Valid()
      ensures !(0 <= offset <= |Addr(Pieces())|) ==> r == Err(ValueError)
      ensures offset == |Addr(Pieces())| ==> r == Ok(Location(|Pieces()|, None, offset, 0))
      ensures 0 <= offset < |Addr(Pieces())| ==>
                && r.Ok? && r.value.index < |Pieces()| && r.value.piece == Some(Pieces()[r.value.index])
                && r.value.start == |Addr(Pieces()[..r.value.index])| && r.value.start + r.value.inner == offset
                && r.value.inner < Pieces()[r.value.index].Length()
    {
      hide *;
      Facts();
      AggRowsLength(Pieces());
      if !(0 <= offset <= root.agg.length) {
        return Err(ValueError);
      }
      if offset == root.agg.length {
        return Ok(Location(root.count, None, offset, 0));
      }
      var p, c := Descend(offset);
      AtStart(c, Pieces()[..c.index]);
      r := Ok(Location(c.index, Some(p), c.start, offset - c.start));
    }

    /**
     `find_break`: the end of the `k`-th terminator of the document. `None` exactly when the row oracle behind the
     piece that holds it cannot place the row.
     */
    method FindBreak(k: int, S: Sources) returns (r: Result<Option<int>>)
      requires Valid() && AllTrue(Pieces(), S)
      ensures r.Ok? <==> 1 <= k <= Breaks(Doc(Pieces(), S))
      ensures r.Err? ==> r == Err(IndexError)
      ensures r.Ok? && r.value.Some? ==> r.value.value == BreakEnd(Doc(Pieces(), S), k)
      ensures r.Ok? ==> (r.value.Some? <==> BreakKnown(Pieces(), k, S))
      ensures r.Ok? && r.value.None? ==> exists i :: 0 <= i < |Pieces()| && HidesRow(Pieces()[i], S)
    {
      hide *;
      Facts();
      RootAgg(S);
      if !(1 <= k <= root.agg.breaks) {
        return Err(IndexError);
      }
      var p, c := DescendByBreaks(k);
      StoppedAt(p, c, S);
      ghost var back := Pieces()[c.index + 1..];
      BreakFromExact(Pieces()[..c.index], p, back, S, k);
      var rank := k - c.acc.breaks + if c.acc.lastIsCr && p.firstIsLf then 1 else 0;
      BreakFromIs(c.acc, p, if back == [] then None else Some(back[0]), S, k);
      HoldsIs(Pieces(), c.index, k);
      OneHolder(Pieces(), c.index, k, S);
      PlacesIs(Pieces(), c.index, k, S);
      if rank == p.breaks && p.lastIsCr {
        var following := false;
        if c.index + 1 < root.count {
          var next := PieceAt(c.index + 1);
          following := next.value.firstIsLf;
        }
        return Ok(Some(c.acc.length + (p.b - p.a) + if following then 1 else 0));
      }
      var rowStart := S[p.src].RowStartOf(p.row0 + rank);
      r := Ok(if rowStart.None? then None else Some(c.acc.length + rowStart.value - p.a));
    }

    static lemma {:induction false} PlacesIs(ps: seq<Piece>, i: int, k: int, S: Sources)
      requires 0 <= i < |ps|
      ensures var acc, p := AggRows(ps[..i]), ps[i];
              var rank := k - acc.breaks + if acc.lastIsCr && p.firstIsLf then 1 else 0;
              PlacesBreak(ps, i, k, S) <==>
                (rank == p.breaks && p.lastIsCr) || (p.src in S && p.row0 + rank >= 0 && S[p.src].RowStartOf(p.row0 + rank).Some?)
    {
      hide AggRows;
    }

    /** `row_of`: the number of terminators that end at or before `offset`. */
    method RowOf(offset: int, S: Sources) returns (r: Result<int>)
      requires Valid() && AllTrue(Pieces(), S)
      ensures !(0 <= offset <= |Doc(Pieces(), S)|) ==> r == Err(ValueError)
      ensures 0 <= offset <= |Doc(Pieces(), S)| && r.Ok? ==> r.value == Count(Doc(Pieces(), S), offset)
      ensures 0 <= offset <= |Doc(Pieces(), S)| ==> (r.Ok? <==> RowKnown(Pieces(), offset, S))
      ensures 0 <= offset <= |Doc(Pieces(), S)| && r.Err? ==>
                r == Err(RowNotIndexed) && exists i :: 0 <= i < |Pieces()| && HidesOffset(Pieces()[i], S)
    {
      hide *;
      Facts();
      RootAgg(S);
      if !(0 <= offset <= root.agg.length) {
        return Err(ValueError);
      }
      if offset == root.agg.length {
        BreaksIs(Doc(Pieces(), S));
        RowKnownIs(Pieces(), offset, S);
        return Ok(root.agg.breaks);
      }
      var p, c := Descend(offset);
      StoppedAt(p, c, S);
      var inner := offset - c.start;
      RowFromExact(Pieces()[..c.index], p, Pieces()[c.index + 1..], S, inner);
      RowFromIs(c.acc, p, S, inner);
      HoldsByteIs(Pieces(), c.index, offset);
      OneByteHolder(Pieces(), c.index, offset, S);
      NamesIs(Pieces(), c.index, offset, c.acc, S);
      r := RowFrom(c.acc, p, S, inner);
    }

    static lemma {:induction false} NamesIs(ps: seq<Piece>, i: int, offset: int, acc: Aggregate, S: Sources)
      requires HoldsByte(ps, i, offset) && Readable(ps[i], S)
      ensures var inner := offset - |Addr(ps[..i])|;
              RowFrom(acc, ps[i], S, inner).Ok? <==> NamesRow(ps, i, offset, S)
    {
      hide Addr;
      hide Count;
    }

    static lemma {:induction false} BreaksIs(d: Bytes)
      ensures Count(d, |d|) == Breaks(d)
    {
    }

    /** `check_boundary`: whether `offset` may be an edge of an edit. */
    method CheckBoundary(offset: int, S: Sources) returns (ok: bool)
      requires Valid() && AllTrue(Pieces(), S)
      ensures ok <==> 0 <= offset <= |Doc(Pieces(), S)| && !InsideCrlf(Doc(Pieces(), S), offset)
    {
      hide *;
      Facts();
      RootAgg(S);
      var location := FindOffset(offset);
      InsideEnds(Doc(Pieces(), S), offset);
      if location.Err? {
        return false;
      }
      if location.value.piece.None? || offset == 0 {
        return true;
      }
      var i, p, inner := location.value.index, location.value.piece.value, location.value.inner;
      TakeApart(Pieces(), i, S);
      TrueParts(p, S);
      CutInsideExact(Pieces()[..i], p, Pieces()[i + 1..], S, inner);
      var previous: Option<Piece> := None;
      if inner == 0 && i > 0 {
        var found := PieceAt(i - 1);
        previous := Some(found.value);
      }
      CutInsideIs(previous, p, S, inner);
      CutInsideIs(if Pieces()[..i] == [] then None else Some(Pieces()[..i][|Pieces()[..i]| - 1]), p, S, inner);
      ok := !CutInside(previous, p, S, inner);
    }

    static lemma {:induction false} InsideEnds(d: Bytes, offset: int)
      ensures InsideCrlf(d, offset) ==> 0 < offset < |d|
    {
    }

    /** The pieces `[first, first + n)`, as `_walk_count` yields them. */
    method WalkCount(first: int, n: int) returns (out: seq<Piece>)
      requires Valid() && 0 <= first && 0 <= n && first + n <= |Pieces()|
      ensures out == Pieces()[first..first + n]
    {
      hide *;
      Facts();
      var all := Walk(root, first, fanout);
      DropIs(Pieces(), first);
      SliceTake(Pieces(), first, n);
      out := all[..n];
    }

    static lemma {:induction false} SliceTake(ps: seq<Piece>, first: int, n: int)
      requires 0 <= first && 0 <= n && first + n <= |ps|
      ensures |ps[first..]| == |ps| - first && ps[first..][..n] == ps[first..first + n]
    {
    }

    // ----- editing ----------------------------------------------------------------------------------

    /**
     `split_at`: make `offset` a piece boundary. `ValueError` for a bad offset, `RowNotIndexed` when the row
     oracle cannot count the left half; nothing changes then.
     */
    method SplitAt(offset: int, S: Sources) returns (r: Result<nat>)
      requires Valid() && AllTrue(Pieces(), S)
      modifies Repr
      ensures Valid() && fresh(Repr - old(Repr))
      ensures r.Err? ==> Pieces() == old(Pieces())
      ensures r == Err(ValueError) <==> !(0 <= offset <= |Doc(old(Pieces()), S)|) || InsideCrlf(Doc(old(Pieces()), S), offset)
      ensures r.Err? && r != Err(ValueError) ==> r == Err(RowNotIndexed) && SomeHides(Pieces(), S)
      ensures r != Err(ValueError) ==>
                && 0 <= offset <= |Addr(old(Pieces()))|
                && (r.Err? <==> CutAt(old(Pieces()), offset, S).Refused?)
                && (r.Ok? ==> Pieces() == CutAt(old(Pieces()), offset, S).rows && r.value == CutAt(old(Pieces()), offset, S).index)
    {
      hide *;
      DocLength(Pieces(), S);
      Facts();
      var ok := CheckBoundary(offset, S);
      InsideEnds(Doc(Pieces(), S), offset);
      if !ok {
        return Err(ValueError);
      }
      CutAtIs(Pieces(), offset, S);
      var found := FindOffset(offset);
      var location := found.value;
      if location.piece.None? || location.inner == 0 {
        if location.piece.Some? {
          LocateUnique(Pieces(), offset, location.index);
        }
        return Ok(location.index);
      }
      var i, p := location.index, location.piece.value;
      TakeApart(Pieces(), i, S);
      TrueParts(p, S);
      LocateUnique(Pieces(), offset, i);
      CutPieceIs(Pieces(), i, location.inner, S);
      var halves := SplitPiece(p, S[p.src], p.a + location.inner);
      if halves.Err? {
        SomeHidesAt(Pieces(), i, S);
        return Err(RowNotIndexed);
      }
      var (left, right) := halves.value;
      SplitPlaces(p, S[p.src], p.a + location.inner);
      ghost var ps := Pieces();
      ReplacePiece(i, left);
      InsertPiece(i + 1, right);
      CutByInsert(ps, i, left, right);
      r := Ok(i + 1);
    }

    static lemma {:induction false} SplitPlaces(p: Piece, source: Source, x: nat)
      requires p.a < x < p.b <= |source.data| && SplitPiece(p, source, x).Ok?
      ensures SplitPiece(p, source, x).value.0.a < SplitPiece(p, source, x).value.0.b
      ensures SplitPiece(p, source, x).value.1.a < SplitPiece(p, source, x).value.1.b
    {
      hide Count;
    }

    static lemma {:induction false} CutByInsert(ps: seq<Piece>, i: nat, l: Piece, r: Piece)
      requires i < |ps|
      ensures i + 1 <= |ps[i := l]| && Inserted(ps[i := l], i + 1, r) == Cut(ps, i, l, r)
    {
    }

    /** `_try_merge`. */
    method TryMerge(index: int)
      requires Valid()
      modifies Repr
      ensures Valid() && fresh(Repr - old(Repr)) && Pieces() == JoinedAt(old(Pieces()), index)
    {
      hide *;
      Facts();
      JoinedIs(Pieces(), index);
      if !(0 < index < root.count) {
        return;
      }
      var left := PieceAt(index - 1);
      var right := PieceAt(index);
      var joined := MergePieces(left.value, right.value);
      if joined.None? {
        return;
      }
      ghost var ps := Pieces();
      NonEmptyAt(ps, index - 1);
      NonEmptyAt(ps, index);
      JoinedPlaces(ps[index - 1], ps[index]);
      JoinByDelete(ps, index, joined.value);
      ReplacePiece(index - 1, joined.value);
      DeletePiece(index);
    }

    static lemma {:induction false} JoinedPlaces(l: Piece, r: Piece)
      requires l.a < l.b && r.a < r.b && MergePieces(l, r).Some?
      ensures MergePieces(l, r).value.a < MergePieces(l, r).value.b
    {
    }

    static lemma {:induction false} JoinByDelete(ps: seq<Piece>, i: int, m: Piece)
      requires 0 < i < |ps|
      ensures |ps[i - 1 := m]| == |ps| >= 2
      ensures ps[i - 1 := m][..i] + ps[i - 1 := m][i + 1..] == ps[..i - 1] + [m] + ps[i + 1..]
    {
    }

    /** What `splice` and `content` begin with: check the range and both boundaries, then cut at both. */
    method CutBoth(start: int, end: int, S: Sources) returns (r: Result<PieceRange>)
      requires Valid() && AllTrue(Pieces(), S)
      modifies Repr
      ensures Valid() && fresh(Repr - old(Repr))
      ensures AllTrue(Pieces(), S) && Addr(Pieces()) == Addr(old(Pieces()))
      ensures r == Err(ValueError) <==> !Allowed(Doc(old(Pieces()), S), start, end)
      ensures r == Err(RowNotIndexed) <==> Allowed(Doc(old(Pieces()), S), start, end) && Refuses(old(Pieces()), start, end, S)
      ensures r == Err(ValueError) ==> Pieces() == old(Pieces())
      ensures r.Err? && r != Err(ValueError) ==>
                r == Err(RowNotIndexed) && SomeHides(Pieces(), S) && 0 <= start <= |Addr(old(Pieces()))| && Pieces() == LeftBehind(old(Pieces()), start, S)
      ensures r == Err(RowNotIndexed) && Merged(old(Pieces())) ==> (Merged(Pieces()) <==> FirstCutSpares(old(Pieces()), start, S))
      ensures r.Ok? ==>
                && r.value.first <= r.value.last <= |Pieces()|
                && |Addr(Pieces()[..r.value.first])| == start && |Addr(Pieces()[..r.value.last])| == end
                && (Merged(old(Pieces())) ==> Seams(Pieces(), r.value.first, r.value.last))
    {
      hide *;
      ghost var ps := Pieces();
      Facts();
      RootAgg(S);
      AllowedIs(Doc(ps, S), start, end);
      if !(0 <= start <= end <= root.agg.length) {
        return Err(ValueError);
      }
      var startOk := CheckBoundary(start, S);
      if !startOk {
        return Err(ValueError);
      }
      var endOk := CheckBoundary(end, S);
      if !endOk {
        return Err(ValueError);
      }
      LeftBehindIs(ps, start, S);
      RefusesIs(ps, start, end, S);
      var cut := SplitAt(start, S);
      if cut.Err? {
        return Err(cut.error);
      }
      var first := cut.value;
      ghost var qs := Pieces();
      FirstCut(ps, start, S);
      DocByAddr(ps, qs, S);
      Facts();
      cut := SplitAt(end, S);
      if cut.Err? {
        return Err(cut.error);
      }
      SecondCut(qs, start, end, first, S);
      r := Ok(PieceRange(first, cut.value));
    }

    static lemma {:induction false} AllowedIs(d: Bytes, start: int, end: int)
      ensures Allowed(d, start, end) <==> 0 <= start <= end <= |d| && !InsideCrlf(d, start) && !InsideCrlf(d, end)
    {
    }

    static lemma {:induction false} RefusesIs(ps: seq<Piece>, start: int, end: int, S: Sources)
      requires AllTrue(ps, S) && Allowed(Doc(ps, S), start, end)
      ensures 0 <= start <= end <= |Addr(ps)| == |Doc(ps, S)| && !InsideCrlf(Doc(ps, S), start)
      ensures CutAt(ps, start, S).Refused? ==> Refuses(ps, start, end, S)
      ensures CutAt(ps, start, S).Done? ==>
                && AllTrue(CutAt(ps, start, S).rows, S) && Addr(CutAt(ps, start, S).rows) == Addr(ps)
                && (Refuses(ps, start, end, S) <==> CutAt(CutAt(ps, start, S).rows, end, S).Refused?)
    {
      hide CutAt;
      hide AllTrue;
      hide Addr;
      hide Doc;
      DocLength(ps, S);
      if CutAt(ps, start, S).Done? {
        FirstCut(ps, start, S);
      }
    }

    /** An edit at the very end is never refused. */
    static lemma {:induction false} EndNeverRefused(ps: seq<Piece>, S: Sources)
      requires AllTrue(ps, S)
      ensures Allowed(Doc(ps, S), |Doc(ps, S)|, |Doc(ps, S)|) && !Refuses(ps, |Doc(ps, S)|, |Doc(ps, S)|, S)
    {
      hide *;
      AllowedIs(Doc(ps, S), |Doc(ps, S)|, |Doc(ps, S)|);
      InsideEnds(Doc(ps, S), |Doc(ps, S)|);
      RefusesIs(ps, |Doc(ps, S)|, |Doc(ps, S)|, S);
      AllTrueNonEmpty(ps, S);
      CutAtIs(ps, |Doc(ps, S)|, S);
    }

    static lemma {:induction false} LeftBehindIs(ps: seq<Piece>, start: int, S: Sources)
      requires AllTrue(ps, S) && 0 <= start <= |Addr(ps)| && !InsideCrlf(Doc(ps, S), start)
      ensures CutAt(ps, start, S).Refused? ==> LeftBehind(ps, start, S) == ps
      ensures CutAt(ps, start, S).Done? ==> LeftBehind(ps, start, S) == CutAt(ps, start, S).rows
      ensures Merged(ps) ==> (Merged(LeftBehind(ps, start, S)) <==> FirstCutSpares(ps, start, S))
    {
      hide CutAt;
      hide AllTrue;
      hide Addr;
      hide Merged;
      hide Doc;
      hide AtPieceEdge;
      AllTrueNonEmpty(ps, S);
      if Merged(ps) && CutAt(ps, start, S).Done? {
        RefusedEditSeam(ps, start, S);
      }
    }

    static lemma {:induction false} FirstCut(ps: seq<Piece>, start: int, S: Sources)
      requires AllTrue(ps, S) && 0 <= start <= |Addr(ps)| && !InsideCrlf(Doc(ps, S), start)
      requires CutAt(ps, start, S).Done?
      ensures var c := CutAt(ps, start, S);
              && AllTrue(c.rows, S) && Addr(c.rows) == Addr(ps) && c.index <= |c.rows| && |Addr(c.rows[..c.index])| == start
              && (Merged(ps) ==> Seams(c.rows, c.index, c.index))
    {
      hide *;
      CutAtFacts(ps, start, S);
      if Merged(ps) {
        MergedIsSeams(ps, 0, 0);
        assert ps[..0] == [];
        AddrEmpty();
        CutAtSeams(ps, start, S, 0);
        SeamsAtZero(CutAt(ps, start, S).rows, CutAt(ps, start, S).index);
      }
    }

    static lemma {:induction false} SeamsAtZero(ps: seq<Piece>, x: int)
      requires Seams(ps, 0, x)
      ensures Seams(ps, x, x)
    {
      hide MergePieces;
    }

    static lemma {:induction false} SecondCut(qs: seq<Piece>, start: int, end: int, first: nat, S: Sources)
      requires AllTrue(qs, S) && 0 <= start <= end <= |Addr(qs)| && !InsideCrlf(Doc(qs, S), end)
      requires CutAt(qs, end, S).Done? && first <= |qs| && |Addr(qs[..first])| == start
      ensures var c := CutAt(qs, end, S);
              && AllTrue(c.rows, S) && Addr(c.rows) == Addr(qs) && first <= c.index <= |c.rows|
              && |Addr(c.rows[..c.index])| == end && |Addr(c.rows[..first])| == start
              && (Seams(qs, first, first) ==> Seams(c.rows, first, c.index))
    {
      hide *;
      CutAtFacts(qs, end, S);
      CutAtSeams(qs, end, S, first);
    }

    /** The pieces between two boundaries hold the bytes between them. */
    static lemma {:induction false} Between(ps: seq<Piece>, first: nat, last: nat, start: int, end: int, S: Sources)
      requires AllTrue(ps, S) && first <= last <= |ps|
      requires |Addr(ps[..first])| == start && |Addr(ps[..last])| == end
      ensures 0 <= start <= end <= |Addr(ps)|
      ensures AllTrue(ps[..first], S) && AllTrue(ps[first..last], S) && AllTrue(ps[last..], S)
      ensures Addr(ps[..first]) == Addr(ps)[..start] && Addr(ps[first..last]) == Addr(ps)[start..end] && Addr(ps[last..]) == Addr(ps)[end..]
    {
      hide *;
      assert ps == ps[..last] + ps[last..];
      assert ps[..last] == ps[..first] + ps[first..last];
      AddrConcat(ps[..last], ps[last..]);
      AddrConcat(ps[..first], ps[first..last]);
      AllTrueParts(ps, last, S);
      AllTrueParts(ps[..last], first, S);
      assert ps[..last][..first] == ps[..first] && ps[..last][first..] == ps[first..last];
    }

    /** `content`: the bytes `[start, end)` as pieces. A merged tree comes back exactly as it was. */
    method Content(start: int, end: int, tailChars: Option<nat>, S: Sources) returns (r: Result<Pieces.Content>)
      requires Valid() && AllTrue(Pieces(), S)
      modifies Repr
      ensures Valid() && fresh(Repr - old(Repr))
      ensures AllTrue(Pieces(), S) && Addr(Pieces()) == Addr(old(Pieces()))
      ensures r == Err(ValueError) <==> !Allowed(Doc(old(Pieces()), S), start, end)
      ensures r == Err(RowNotIndexed) <==> Allowed(Doc(old(Pieces()), S), start, end) && Refuses(old(Pieces()), start, end, S)
      ensures r == Err(ValueError) ==> Pieces() == old(Pieces())
      ensures r.Err? && r != Err(ValueError) ==>
                r == Err(RowNotIndexed) && SomeHides(Pieces(), S) && 0 <= start <= |Addr(old(Pieces()))| && Pieces() == LeftBehind(old(Pieces()), start, S)
      ensures r == Err(RowNotIndexed) && Merged(old(Pieces())) ==> (Merged(Pieces()) <==> FirstCutSpares(old(Pieces()), start, S))
      ensures r.Ok? && Merged(old(Pieces())) ==> Pieces() == old(Pieces())
      ensures r.Ok? ==>
                && 0 <= start <= end <= |Addr(old(Pieces()))|
                && AllTrue(r.value.pieces, S) && Addr(r.value.pieces) == Addr(old(Pieces()))[start..end]
                && r.value == FromPieces(r.value.pieces, if tailChars.Some? then tailChars.value else TailChars(Doc(r.value.pieces, S)))
    {
      hide *;
      ghost var ps := Pieces();
      var cut := CutBoth(start, end, S);
      if cut.Err? {
        return Err(cut.error);
      }
      var first, last := cut.value.first, cut.value.last;
      ghost var qs := Pieces();
      Between(qs, first, last, start, end, S);
      var pieces := WalkCount(first, last - first);
      TryMerge(last);
      JoinFacts(qs, last, S);
      TryMerge(first);
      JoinFacts(JoinedAt(qs, last), first, S);
      if Merged(ps) {
        Rejoined(ps, qs, first, last, S);
      }
      var n: nat;
      if tailChars.Some? {
        n := tailChars.value;
      } else {
        n := TailCharsOf(pieces, S);
      }
      FromPiecesIs(pieces, n);
      r := Ok(FromPieces(pieces, n));
    }

    static lemma {:induction false} FromPiecesIs(pieces: seq<Piece>, n: nat)
      ensures FromPieces(pieces, n).pieces == pieces
    {
    }

    static lemma {:induction false} Rejoined(ps: seq<Piece>, qs: seq<Piece>, first: nat, last: nat, S: Sources)
      requires AllTrue(ps, S) && Merged(ps) && AllTrue(qs, S) && Addr(qs) == Addr(ps)
      requires first <= last && Seams(qs, first, last)
      ensures JoinedAt(JoinedAt(qs, last), first) == ps
    {
      hide *;
      JoinFacts(qs, last, S);
      JoinSeams(qs, last, first);
      var rs := JoinedAt(qs, last);
      JoinFacts(rs, first, S);
      JoinSeams(rs, first, first);
      Canonical(JoinedAt(rs, first), ps, S);
    }

    /**
     `splice`: the bytes `[start, end)` are replaced by `content`, contiguous pieces are joined, and the
     removed bytes come back as a content. When an edit is refused the bytes are as before.
     */
    method Splice(start: int, end: int, content: Pieces.Content, removedTailChars: Option<nat>, S: Sources)
        returns (r: Result<Pieces.Content>)
      requires Valid() && AllTrue(Pieces(), S) && AllTrue(content.pieces, S)
      modifies Repr
      ensures Valid() && fresh(Repr - old(Repr)) && AllTrue(Pieces(), S)
      ensures r == Err(ValueError) <==> !Allowed(Doc(old(Pieces()), S), start, end)
      ensures r == Err(RowNotIndexed) <==> Allowed(Doc(old(Pieces()), S), start, end) && Refuses(old(Pieces()), start, end, S)
      ensures r == Err(ValueError) ==> Pieces() == old(Pieces())
      ensures r.Err? && r != Err(ValueError) ==>
                && r == Err(RowNotIndexed) && SomeHides(Pieces(), S) && 0 <= start <= |Addr(old(Pieces()))|
                && Pieces() == LeftBehind(old(Pieces()), start, S) && Addr(Pieces()) == Addr(old(Pieces()))
      ensures r == Err(RowNotIndexed) && Merged(old(Pieces())) ==> (Merged(Pieces()) <==> FirstCutSpares(old(Pieces()), start, S))
      ensures r.Ok? ==> Replaced(old(Pieces()), start, end, content.pieces, Pieces())
      ensures r.Ok? && Merged(old(Pieces())) ==> Merged(Pieces())
      ensures r.Ok? ==>
                && AllTrue(r.value.pieces, S) && Addr(r.value.pieces) == Addr(old(Pieces()))[start..end]
                && r.value == FromPieces(r.value.pieces,
                                         if removedTailChars.Some? then removedTailChars.value else TailChars(Doc(r.value.pieces, S)))
    {
      hide *;
      ghost var ps := Pieces();
      var cut := CutBoth(start, end, S);
      if cut.Err? {
        return Err(cut.error);
      }
      var first, last := cut.value.first, cut.value.last;
      ghost var qs := Pieces();
      Between(qs, first, last, start, end, S);
      var removed := WalkCount(first, last - first);
      DeletePieces(first, last - first);
      ghost var front, back := qs[..first], qs[last..];
      if Merged(ps) {
        SeamsParts(qs, first, last);
      }
      var pos, i := first, 0;
      assert content.pieces[..0] == [];
      AddrEmpty();
      while i < |content.pieces|
        invariant 0 <= i <= |content.pieces| && pos == |front|
        invariant Valid() && fresh(Repr - old(Repr)) && Pieces() == front + back
        invariant AllTrue(front, S) && Addr(front) == Addr(ps)[..start] + Addr(content.pieces[..i])
        invariant Merged(ps) ==> Merged(front)
      {
        var piece := content.pieces[i];
        OneMore(content.pieces, i, S);
        AppendFacts(front, piece, S);
        AppendedIs(front, back, piece, S);
        var joined: Option<Piece> := None;
        if pos > 0 {
          var previous := PieceAt(pos - 1);
          joined := MergePieces(previous.value, piece);
        }
        if joined.Some? {
          ReplacePiece(pos - 1, joined.value);
        } else {
          InsertPiece(pos, piece);
          pos := pos + 1;
        }
        front := Appended(front, piece);
        i := i + 1;
      }
      assert content.pieces[..i] == content.pieces;
      TryMerge(pos);
      Spliced(ps, front, back, start, end, content.pieces, S);
      var n: nat;
      if removedTailChars.Some? {
        n := removedTailChars.value;
      } else {
        n := TailCharsOf(removed, S);
      }
      FromPiecesIs(removed, n);
      r := Ok(FromPieces(removed, n));
    }

    static lemma {:induction false} OneMore(ps: seq<Piece>, i: nat, S: Sources)
      requires i < |ps| && AllTrue(ps, S)
      ensures TruePiece(ps[i], S) && ps[i].a < ps[i].b && Addr(ps[..i + 1]) == Addr(ps[..i]) + Addr1(ps[i])
    {
      hide *;
      AllTrueAt(ps, i, S);
      TrueNonEmpty(ps[i], S);
      assert ps[..i + 1] == ps[..i] + [ps[i]];
      AddrConcat(ps[..i], [ps[i]]);
      Addr1Is(ps[i]);
    }

    /** The two ways the tree takes in one more piece are the two cases of `Appended`. */
    static lemma {:induction false} AppendedIs(front: seq<Piece>, back: seq<Piece>, p: Piece, S: Sources)
      requires p.a < p.b && AllTrue(front, S)
      ensures (front + back)[..|front|] == front && |front + back| == |front| + |back|
      ensures front != [] ==> (front + back)[|front| - 1] == front[|front| - 1]
      ensures front != [] && MergePieces(front[|front| - 1], p).Some? ==>
                var m := MergePieces(front[|front| - 1], p).value;
                && m.a < m.b && |Appended(front, p)| == |front|
                && (front + back)[|front| - 1 := m] == Appended(front, p) + back
      ensures front == [] || MergePieces(front[|front| - 1], p).None? ==>
                && |Appended(front, p)| == |front| + 1
                && Inserted(front + back, |front|, p) == Appended(front, p) + back
    {
      hide Addr;
      hide AggOf;
      hide Count;
      if front != [] {
        assert TruePiece(front[|front| - 1], S);
      }
    }

    static lemma {:induction false} Spliced(ps: seq<Piece>, front: seq<Piece>, back: seq<Piece>, start: int, end: int,
                                            added: seq<Piece>, S: Sources)
      requires 0 <= start <= end <= |Addr(ps)| && AllTrue(front, S) && AllTrue(back, S)
      requires Addr(front) == Addr(ps)[..start] + Addr(added) && Addr(back) == Addr(ps)[end..]
      ensures var rs := JoinedAt(front + back, |front|);
              && AllTrue(rs, S) && Replaced(ps, start, end, added, rs)
              && (Merged(front) && Merged(back) ==> Merged(rs))
    {
      hide *;
      AllTrueJoin(front, back, S);
      JoinFacts(front + back, |front|, S);
      AddrConcat(front, back);
      if Merged(front) && Merged(back) {
        TwoParts(front, back);
        JoinSeams(front + back, |front|, |front|);
      }
      IsReplaced(ps, start, end, added, JoinedAt(front + back, |front|));
    }

    static lemma {:induction false} IsReplaced(before: seq<Piece>, start: int, end: int, added: seq<Piece>, after: seq<Piece>)
      requires 0 <= start <= end <= |Addr(before)|
      requires Addr(after) == Addr(before)[..start] + Addr(added) + Addr(before)[end..]
      ensures Replaced(before, start, end, added, after)
    {
      hide Addr;
    }

    // ----- reading -----------------------------------------------------------------------------------

    /** Only the first overlap may begin inside its piece, and only the last one may end inside. */
    static ghost predicate WholeInside(out: seq<Overlap>) {
      && (forall i :: 0 < i < |out| ==> out[i].lo == 0)
      && (forall i :: 0 <= i < |out| - 1 ==> out[i].hi == out[i].piece.b - out[i].piece.a)
    }

    static ghost predicate EndsWhole(out: seq<Overlap>) {
      out != [] ==> out[|out| - 1].hi == out[|out| - 1].piece.b - out[|out| - 1].piece.a
    }

    static lemma {:induction false} NothingInside()
      ensures WholeInside([]) && EndsWhole([])
    {
    }

    static lemma {:induction false} InsideSnoc(out: seq<Overlap>, o: Overlap)
      requires WholeInside(out) && EndsWhole(out) && (out != [] ==> o.lo == 0)
      ensures WholeInside(out + [o]) && (EndsWhole(out + [o]) <==> o.hi == o.piece.b - o.piece.a) && out + [o] != []
    {
    }

    /**
     `iter_range`: the pieces that overlap `[start, end)`, each once with the overlap relative to its start; only the first
     and the last one may be cut.
     */
    method IterRange(start: int, end: int) returns (r: Result<seq<Overlap>>)
      requires Valid()
      ensures r.Ok? <==> 0 <= start <= end <= |Addr(Pieces())|
      ensures r.Err? ==> r == Err(ValueError)
      ensures r.Ok? ==> Addr(Crops(r.value)) == Addr(Pieces())[start..end]
      ensures r.Ok? ==> forall i :: 0 <= i < |r.value| ==>
                          r.value[i].piece in Pieces() && 0 <= r.value[i].lo < r.value[i].hi <= r.value[i].piece.b - r.value[i].piece.a
      ensures r.Ok? ==> WholeInside(r.value)
    {
      hide *;
      Facts();
      AggRowsLength(Pieces());
      if !(0 <= start <= end <= root.agg.length) {
        return Err(ValueError);
      }
      ghost var places := Addr(Pieces());
      CropsNone();
      NothingInside();
      if start == end {
        assert places[start..end] == [];
        return Ok([]);
      }
      var found := FindOffset(start);
      var pos, i := found.value.start, found.value.index;
      var from := i;
      var rest := Walk(root, i, fanout);
      DropIs(Pieces(), i);
      var out: seq<Overlap> := [];
      LengthIs(Pieces()[i]);
      ClampIs(pos, start, end);
      assert places[start..start] == [];
      while i - from < |rest| && pos < end
        invariant from <= i <= |Pieces()| && rest == Pieces()[from..] && pos == |Addr(Pieces()[..i])|
        invariant start <= Clamp(pos, start, end) <= end && Addr(Crops(out)) == places[start..Clamp(pos, start, end)]
        invariant i > from ==> pos > start
        invariant i == from ==> pos <= start && i < |Pieces()| && start < pos + Pieces()[i].b - Pieces()[i].a
        invariant forall k :: 0 <= k < |out| ==>
                    out[k].piece in Pieces() && 0 <= out[k].lo < out[k].hi <= out[k].piece.b - out[k].piece.a
        invariant out == [] <==> i == from
        invariant WholeInside(out) && (pos < end ==> EndsWhole(out))
        decreases |rest| - (i - from)
      {
        var piece := rest[i - from];
        PieceRun(Pieces(), i);
        var lo := if start - pos > 0 then start - pos else 0;
        var hi := if end - pos < piece.b - piece.a then end - pos else piece.b - piece.a;
        ClampOverlap(pos, piece.b - piece.a, start, end);
        CropStep(places, out, Overlap(piece, lo, hi), pos, start);
        InsideSnoc(out, Overlap(piece, lo, hi));
        out := out + [Overlap(piece, lo, hi)];
        pos := pos + (piece.b - piece.a);
        i := i + 1;
      }
      ClampIs(pos, start, end);
      assert Pieces()[..|Pieces()|] == Pieces();
      r := Ok(out);
    }

    static lemma {:induction false} LengthIs(p: Piece)
      ensures p.Length() == p.b - p.a
    {
    }

    static lemma {:induction false} CropsNone()
      ensures Crops([]) == [] && Addr([]) == []
    {
    }

    /** The places of piece `i` in those of the sequence. */
    static lemma {:induction false} PieceRun(ps: seq<Piece>, i: nat)
      requires i < |ps| && NonEmpty(ps)
      ensures ps[i].a < ps[i].b
      ensures var pos := |Addr(ps[..i])|;
              && pos + ps[i].b - ps[i].a == |Addr(ps[..i + 1])| <= |Addr(ps)|
              && Addr(ps)[pos..pos + ps[i].b - ps[i].a] == Addr1(ps[i])
    {
      hide *;
      NonEmptyAt(ps, i);
      Addr1Length(ps[i]);
      Addr1Is(ps[i]);
      assert ps[..i + 1] == ps[..i] + [ps[i]];
      AddrConcat(ps[..i], [ps[i]]);
      assert ps == ps[..i + 1] + ps[i + 1..];
      AddrConcat(ps[..i + 1], ps[i + 1..]);
    }

    /** One more overlap. */
    static lemma {:induction false} CropStep(places: seq<Loc>, out: seq<Overlap>, o: Overlap, pos: nat, start: nat)
      requires 0 <= o.lo < o.hi <= o.piece.b - o.piece.a && pos + o.piece.b - o.piece.a <= |places|
      requires places[pos..pos + o.piece.b - o.piece.a] == Addr1(o.piece)
      requires start <= pos + o.lo && Addr(Crops(out)) == places[start..pos + o.lo]
      ensures Addr(Crops(out + [o])) == places[start..pos + o.hi]
    {
      hide *;
      CropsSnoc(out, o);
      AddrConcat(Crops(out), [Crop(o)]);
      Addr1Is(Crop(o));
      CropPlaces(o);
      SubSlice(places, pos, pos + o.piece.b - o.piece.a, o.lo, o.hi);
      assert places[start..pos + o.lo] + places[pos + o.lo..pos + o.hi] == places[start..pos + o.hi];
    }

    static lemma {:induction false} CropsSnoc(out: seq<Overlap>, o: Overlap)
      ensures Crops(out + [o]) == Crops(out) + [Crop(o)]
    {
    }

    static lemma {:induction false} CropPlaces(o: Overlap)
      requires 0 <= o.lo < o.hi <= o.piece.b - o.piece.a
      ensures |Addr1(o.piece)| == o.piece.b - o.piece.a && Addr1(Crop(o)) == Addr1(o.piece)[o.lo..o.hi]
    {
    }

    /** `read`: the bytes `[start, end)`, joined from the overlaps. */
    method Read(start: int, end: int, S: Sources) returns (r: Result<Bytes>)
      requires Valid() && AllTrue(Pieces(), S)
      ensures r == if 0 <= start <= end <= |Doc(Pieces(), S)| then Ok(Doc(Pieces(), S)[start..end]) else Err(ValueError)
    {
      hide *;
      DocLength(Pieces(), S);
      var found := IterRange(start, end);
      if found.Err? {
        return Err(found.error);
      }
      var overlaps := found.value;
      var out: Bytes, i := [], 0;
      assert overlaps[..0] == [];
      CropsNone();
      NoBytes(S);
      while i < |overlaps|
        invariant 0 <= i <= |overlaps| && out == BytesAt(Addr(Crops(overlaps[..i])), S)
      {
        var o := overlaps[i];
        ReadOverlap(Pieces(), o, S);
        CropsMore(overlaps, i, S);
        out := out + S[o.piece.src].Read(o.piece.a + o.lo, o.piece.a + o.hi);
        i := i + 1;
      }
      assert overlaps[..i] == overlaps;
      DocSlice(Pieces(), S, start, end);
      r := Ok(out);
    }

    static lemma {:induction false} NoBytes(S: Sources)
      ensures BytesAt([], S) == []
    {
    }

    static lemma {:induction false} DocSlice(ps: seq<Piece>, S: Sources, start: nat, end: nat)
      requires start <= end <= |Addr(ps)|
      ensures |Doc(ps, S)| == |Addr(ps)| && BytesAt(Addr(ps)[start..end], S) == Doc(ps, S)[start..end]
    {
      hide Addr;
    }

    static lemma {:induction false} CropsMore(overlaps: seq<Overlap>, i: nat, S: Sources)
      requires i < |overlaps|
      ensures BytesAt(Addr(Crops(overlaps[..i + 1])), S)
              == BytesAt(Addr(Crops(overlaps[..i])), S) + BytesAt(Addr1(Crop(overlaps[i])), S)
    {
      hide Addr;
      hide Crop;
      hide Addr1;
      assert Crops(overlaps[..i + 1]) == Crops(overlaps[..i]) + [Crop(overlaps[i])];
      AddrConcat(Crops(overlaps[..i]), [Crop(overlaps[i])]);
      Addr1Is(Crop(overlaps[i]));
    }

    static lemma {:induction false} ReadOverlap(ps: seq<Piece>, o: Overlap, S: Sources)
      requires AllTrue(ps, S) && o.piece in ps && 0 <= o.lo < o.hi <= o.piece.b - o.piece.a
      ensures o.piece.src in S
      ensures S[o.piece.src].Read(o.piece.a + o.lo, o.piece.a + o.hi) == BytesAt(Addr1(Crop(o)), S)
    {
      hide AggOf;
      hide Count;
      var i :| 0 <= i < |ps| && ps[i] == o.piece;
      assert TruePiece(ps[i], S);
    }

    static function Clamp(x: int, lo: int, hi: int): int {
      if x < lo then lo else if x < hi then x else hi
    }

    static lemma {:induction false} ClampIs(x: int, lo: int, hi: int)
      requires lo <= hi
      ensures lo <= Clamp(x, lo, hi) <= hi && (x <= lo ==> Clamp(x, lo, hi) == lo) && (x >= hi ==> Clamp(x, lo, hi) == hi)
    {
    }

    static lemma {:induction false} ClampOverlap(pos: int, n: int, start: int, end: int)
      requires start < end && start < pos + n && pos < end && n > 0
      ensures var lo := if start - pos > 0 then start - pos else 0;
              var hi := if end - pos < n then end - pos else n;
              0 <= lo < hi <= n && pos + lo == Clamp(pos, start, end) && pos + hi == Clamp(pos + n, start, end)
      ensures start <= Clamp(pos, start, end) <= Clamp(pos + n, start, end) <= end
    {
    }
  }
}
