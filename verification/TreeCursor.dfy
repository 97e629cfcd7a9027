/**
 One level of a descent: choose the child (or the piece of a leaf) that holds an offset or completes a
 break, with the running piece number, byte offset and aggregate of what was passed.
 */
module TreeCursor {
  import opened Rows
  import opened Pieces
  import opened TreeShape
  import opened TreeOps
  import opened TreeNode

  datatype Cursor = Cursor(index: int, start: int, acc: Aggregate)

  const ORIGIN := Cursor(0, 0, EMPTY)

  /** The cursor stands behind the pieces `seen`. */
  ghost predicate At(c: Cursor, seen: seq<Piece>) {
    NonEmpty(seen) && c.index == |seen| && c.start == |Addr(seen)| && c.acc == AggRows(seen)
  }

  lemma {:induction false} AtOrigin()
    ensures At(ORIGIN, [])
  {
  }

  function Pass(c: Cursor, count: int, agg: Aggregate): Cursor {
    Cursor(c.index + count, c.start + agg.length, Combine(c.acc, agg))
  }

  lemma {:induction false} PassRows(c: Cursor, seen: seq<Piece>, rows: seq<Piece>, count: int, agg: Aggregate)
    requires At(c, seen) && NonEmpty(rows) && count == |rows| && agg == AggRows(rows)
    ensures At(Pass(c, count, agg), seen + rows) && agg.length == |Addr(rows)|
    ensures AggRows(seen + rows) == Combine(c.acc, agg)
  {
    hide AggRows;
    hide Addr;
    hide Combine;
    AddrConcat(seen, rows);
    AggRowsConcat(seen, rows);
    AggRowsLength(rows);
  }

  lemma {:induction false} OneRow(p: Piece)
    requires p.a < p.b
    ensures NonEmpty([p]) && AggRows([p]) == p.Agg() && |Addr([p])| == p.b - p.a
  {
    assert [p][..0] == [];
    Addr1Is(p);
  }

  /** The cached facts of child `i` and how the rows seen grow by it. */
  lemma {:induction false} KidSeen(node: Node, i: nat, f: nat)
    requires f >= 4 && node.Valid() && !node.isLeaf && Dense(node.shape, node.h, f) && i < |node.kids|
    ensures |Node.Shapes(node.kids)| == |node.kids| && node.shape.Inner? && node.shape.kids == Node.Shapes(node.kids)
    ensures var ks := Node.Shapes(node.kids);
            && node.kids[i].Valid() && node.kids[i].shape == ks[i] && node.kids[i].h == node.h - 1
            && Dense(ks[i], node.h - 1, f)
            && node.kids[i].count == |RowsOf(ks[i])| && node.kids[i].agg == AggRows(RowsOf(ks[i])) && NonEmpty(RowsOf(ks[i]))
            && KidRows(ks[..i + 1]) == KidRows(ks[..i]) + RowsOf(ks[i])
            && RowsOf(node.shape) == KidRows(ks[..i]) + RowsOf(ks[i]) + KidRows(ks[i + 1..])
            && node.kids[i] in node.Repr && node.kids[i].Repr <= node.Repr
  {
    hide *;
    node.LinkedWhenValid();
    node.Open();
    node.KidCached(i);
    Node.ForestAt(node.kids, i, node.h - 1);
    var ks := Node.Shapes(node.kids);
    DenseKid(node.shape, i, node.h, f);
    KidRowsAt(ks, i);
    KidRowsAt(ks[..i + 1], i);
    assert ks[..i + 1][..i] == ks[..i] && ks[..i + 1][i + 1..] == [];
    KidsNone();
    LeafRows(node.shape);
    KidAllocated(node, i);
  }

  lemma {:induction false} KidAllocated(node: Node, i: nat)
    requires node.Linked() && i < |node.kids|
    ensures node.kids[i] in node.Repr && node.kids[i].Repr <= node.Repr
  {
    hide Node.Valid;
  }

  lemma {:induction false} DenseKid(t: Tree, i: nat, h: nat, f: nat)
    requires f >= 4 && t.Inner? && Dense(t, h, f) && i < |t.kids|
    ensures h > 0 && Dense(t.kids[i], h - 1, f)
    ensures t.kids[i].count == |RowsOf(t.kids[i])| && t.kids[i].agg == AggRows(RowsOf(t.kids[i])) && NonEmpty(RowsOf(t.kids[i]))
  {
    FullIsDense(t.kids[i], h - 1, f);
  }

  /** What is looked for lies behind the rows passed so far, so rows are left. */
  lemma {:induction false} StillAheadByLength(c: Cursor, seen0: seq<Piece>, part: seq<Piece>, rows: seq<Piece>, offset: int)
    requires At(c, seen0 + part) && c.start <= offset < |Addr(seen0 + rows)|
    ensures part != rows
  {
  }

  lemma {:induction false} StillAheadByBreaks(c: Cursor, seen0: seq<Piece>, part: seq<Piece>, rows: seq<Piece>, k: int)
    requires At(c, seen0 + part) && c.acc.breaks < k <= AggRows(seen0 + rows).breaks
    ensures part != rows
  {
  }

  lemma {:induction false} KidsAhead(ks: seq<Tree>, i: nat)
    requires i <= |ks| && KidRows(ks[..i]) != KidRows(ks)
    ensures i < |ks|
  {
    assert ks[..|ks|] == ks;
  }

  /** The loop over children that looks for the one holding byte `offset`. */
  method EnterByLength(node: Node, offset: int, c0: Cursor, ghost seen0: seq<Piece>, ghost f: nat)
    returns (i: nat, c: Cursor)
    requires f >= 4 && node.Valid() && !node.isLeaf && Dense(node.shape, node.h, f) && At(c0, seen0)
    requires c0.start <= offset < |Addr(seen0 + RowsOf(node.shape))|
    ensures i < |node.kids| == |Node.Shapes(node.kids)|
    ensures var ks := Node.Shapes(node.kids);
            At(c, seen0 + KidRows(ks[..i])) && c.start <= offset < |Addr(seen0 + KidRows(ks[..i]) + RowsOf(ks[i]))|
  {
    hide *;
    ghost var ks := Node.Shapes(node.kids);
    i, c := 0, c0;
    LeafRows(node.shape);
    node.LinkedWhenValid();
    node.Open();
    KidsNone();
    assert ks[..0] == [] && seen0 + [] == seen0;
    while true
      invariant i <= |node.kids| == |ks|
      invariant At(c, seen0 + KidRows(ks[..i])) && c.start <= offset
      decreases |ks| - i
    {
      StillAheadByLength(c, seen0, KidRows(ks[..i]), KidRows(ks), offset);
      KidsAhead(ks, i);
      KidSeen(node, i, f);
      var kid := node.kids[i];
      ghost var seen := seen0 + KidRows(ks[..i]);
      PassRows(c, seen, RowsOf(ks[i]), kid.count, kid.agg);
      assert seen + RowsOf(ks[i]) == seen0 + KidRows(ks[..i + 1]);
      PassIs(c, kid.count, kid.agg, seen + RowsOf(ks[i]));
      if offset < c.start + kid.agg.length {
        return;
      }
      c := Pass(c, kid.count, kid.agg);
      i := i + 1;
    }
  }

  lemma {:induction false} AtStart(c: Cursor, seen: seq<Piece>)
    requires At(c, seen)
    ensures c.start == |Addr(seen)| && c.index == |seen| && c.acc == AggRows(seen) && NonEmpty(seen)
  {
  }

  lemma {:induction false} PassIs(c: Cursor, count: int, agg: Aggregate, seen: seq<Piece>)
    requires At(Pass(c, count, agg), seen)
    ensures Pass(c, count, agg).start == c.start + agg.length == |Addr(seen)|
    ensures Pass(c, count, agg).acc == Combine(c.acc, agg) == AggRows(seen)
  {
  }

  /** The loop over the pieces of a leaf that looks for the one holding byte `offset`. */
  method PickByLength(node: Node, offset: int, c0: Cursor, ghost seen0: seq<Piece>)
    returns (i: nat, c: Cursor)
    requires node.Valid() && node.isLeaf && NonEmpty(node.rows) && At(c0, seen0)
    requires c0.start <= offset < |Addr(seen0 + node.rows)|
    ensures i < |node.rows| && At(c, seen0 + node.rows[..i])
    ensures c.start <= offset < c.start + node.rows[i].Length()
  {
    var rows := node.rows;
    hide *;
    i, c := 0, c0;
    assert rows[..0] == [] && seen0 + [] == seen0;
    while true
      invariant i <= |rows| && At(c, seen0 + rows[..i]) && c.start <= offset
      decreases |rows| - i
    {
      StillAheadByLength(c, seen0, rows[..i], rows, offset);
      assert rows[..|rows|] == rows;
      var p := rows[i];
      NonEmptyAt(rows, i);
      OneRow(p);
      PassRows(c, seen0 + rows[..i], [p], 1, p.Agg());
      TakeMore(seen0, rows, i);
      PassIs(c, 1, p.Agg(), seen0 + rows[..i + 1]);
      AggLength(p);
      if offset < c.start + p.Length() {
        return;
      }
      c := Pass(c, 1, p.Agg());
      i := i + 1;
    }
  }

  lemma {:induction false} TakeMore(front: seq<Piece>, rows: seq<Piece>, i: nat)
    requires i < |rows|
    ensures front + rows[..i] + [rows[i]] == front + rows[..i + 1]
  {
  }

  lemma {:induction false} NonEmptyAt(ps: seq<Piece>, i: nat)
    requires NonEmpty(ps) && i < |ps|
    ensures ps[i].a < ps[i].b
  {
  }

  lemma {:induction false} AggLength(p: Piece)
    ensures p.Agg().length == p.Length() == p.b - p.a
  {
  }

  /** The loop over children that looks for the one with which the break count reaches `k`. */
  method EnterByBreaks(node: Node, k: int, c0: Cursor, ghost seen0: seq<Piece>, ghost f: nat)
    returns (i: nat, c: Cursor)
    requires f >= 4 && node.Valid() && !node.isLeaf && Dense(node.shape, node.h, f) && At(c0, seen0)
    requires c0.acc.breaks < k <= AggRows(seen0 + RowsOf(node.shape)).breaks
    ensures i < |node.kids| == |Node.Shapes(node.kids)|
    ensures var ks := Node.Shapes(node.kids);
            At(c, seen0 + KidRows(ks[..i])) && c.acc.breaks < k <= AggRows(seen0 + KidRows(ks[..i]) + RowsOf(ks[i])).breaks
  {
    hide *;
    ghost var ks := Node.Shapes(node.kids);
    i, c := 0, c0;
    LeafRows(node.shape);
    node.LinkedWhenValid();
    node.Open();
    KidsNone();
    assert ks[..0] == [] && seen0 + [] == seen0;
    while true
      invariant i <= |node.kids| == |ks|
      invariant At(c, seen0 + KidRows(ks[..i])) && c.acc.breaks < k
      decreases |ks| - i
    {
      StillAheadByBreaks(c, seen0, KidRows(ks[..i]), KidRows(ks), k);
      KidsAhead(ks, i);
      KidSeen(node, i, f);
      var kid := node.kids[i];
      ghost var seen := seen0 + KidRows(ks[..i]);
      PassRows(c, seen, RowsOf(ks[i]), kid.count, kid.agg);
      assert seen + RowsOf(ks[i]) == seen0 + KidRows(ks[..i + 1]);
      PassIs(c, kid.count, kid.agg, seen + RowsOf(ks[i]));
      var joined := Combine(c.acc, kid.agg);
      if joined.breaks >= k {
        return;
      }
      c := Pass(c, kid.count, kid.agg);
      i := i + 1;
    }
  }

  /** The loop over the pieces of a leaf that looks for the one with which the break count reaches `k`. */
  method PickByBreaks(node: Node, k: int, c0: Cursor, ghost seen0: seq<Piece>)
    returns (i: nat, c: Cursor)
    requires node.Valid() && node.isLeaf && NonEmpty(node.rows) && At(c0, seen0)
    requires c0.acc.breaks < k <= AggRows(seen0 + node.rows).breaks
    ensures i < |node.rows| && At(c, seen0 + node.rows[..i])
    ensures c.acc.breaks < k <= Combine(c.acc, node.rows[i].Agg()).breaks
  {
    var rows := node.rows;
    hide *;
    i, c := 0, c0;
    assert rows[..0] == [] && seen0 + [] == seen0;
    while true
      invariant i <= |rows| && At(c, seen0 + rows[..i]) && c.acc.breaks < k
      decreases |rows| - i
    {
      StillAheadByBreaks(c, seen0, rows[..i], rows, k);
      assert rows[..|rows|] == rows;
      var p := rows[i];
      NonEmptyAt(rows, i);
      OneRow(p);
      PassRows(c, seen0 + rows[..i], [p], 1, p.Agg());
      TakeMore(seen0, rows, i);
      PassIs(c, 1, p.Agg(), seen0 + rows[..i + 1]);
      var joined := Combine(c.acc, p.Agg());
      if joined.breaks >= k {
        return;
      }
      c := Pass(c, 1, p.Agg());
      i := i + 1;
    }
  }

  /** The loop over children that looks for piece number `index`; returns the number left inside it. */
  method EnterByCount(node: Node, index: int, ghost f: nat) returns (i: nat, local: int)
    requires f >= 4 && node.Valid() && !node.isLeaf && Dense(node.shape, node.h, f)
    requires 0 <= index < |RowsOf(node.shape)|
    ensures i < |node.kids| == |Node.Shapes(node.kids)|
    ensures var ks := Node.Shapes(node.kids);
            index == |KidRows(ks[..i])| + local && 0 <= local < |RowsOf(ks[i])|
  {
    hide *;
    ghost var ks := Node.Shapes(node.kids);
    i, local := 0, index;
    LeafRows(node.shape);
    node.LinkedWhenValid();
    node.Open();
    KidsNone();
    assert ks[..0] == [];
    while true
      invariant i <= |node.kids| == |ks|
      invariant index == |KidRows(ks[..i])| + local && 0 <= local
      decreases |ks| - i
    {
      KidsAhead(ks, i);
      KidSeen(node, i, f);
      if local < node.kids[i].count {
        return;
      }
      local := local - node.kids[i].count;
      i := i + 1;
    }
  }

  /** `_walk`: the pieces below `node` from piece `index` on. */
  method Walk(node: Node, index: int, ghost f: nat) returns (out: seq<Piece>)
    requires f >= 4 && node.Valid() && Dense(node.shape, node.h, f) && 0 <= index
    ensures out == Drop(RowsOf(node.shape), index)
    decreases node.h
  {
    hide *;
    node.LinkedWhenValid();
    node.Open();
    LeafRows(node.shape);
    if node.isLeaf {
      DropIs(node.rows, index);
      return if index <= |node.rows| then node.rows[index..] else [];
    }
    out := [];
    ghost var ks := Node.Shapes(node.kids);
    var base, i := 0, 0;
    KidsNone();
    DropIs([], index);
    assert ks[..0] == [];
    while i < |node.kids|
      invariant i <= |node.kids| == |ks| && base == |KidRows(ks[..i])|
      invariant out == Drop(KidRows(ks[..i]), index)
    {
      KidSeen(node, i, f);
      var kid := node.kids[i];
      DropConcat(KidRows(ks[..i]), RowsOf(ks[i]), index);
      if index < base + kid.count {
        var part := Walk(kid, if index > base then index - base else 0, f);
        out := out + part;
      } else {
        DropIs(RowsOf(ks[i]), index - base);
      }
      base, i := base + kid.count, i + 1;
    }
    assert ks[..i] == ks;
  }

  /** The pieces from number `index` on. */
  function Drop(ps: seq<Piece>, index: int): seq<Piece> {
    if index <= 0 then ps else if index <= |ps| then ps[index..] else []
  }

  lemma {:induction false} DropIs(ps: seq<Piece>, index: int)
    ensures 0 <= index <= |ps| ==> Drop(ps, index) == ps[index..]
    ensures index >= |ps| && index >= 0 ==> Drop(ps, index) == []
  {
  }

  lemma {:induction false} DropConcat(a: seq<Piece>, b: seq<Piece>, index: int)
    requires index >= 0
    ensures Drop(a + b, index) == Drop(a, index) + Drop(b, if index > |a| then index - |a| else 0)
    ensures index >= |a| ==> Drop(a, index) == []
    ensures Drop(b, index - |a|) == Drop(b, if index > |a| then index - |a| else 0)
  {
  }
}
