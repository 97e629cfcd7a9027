/**
 Insertion, replacement and deletion on the value of a B+ tree: what they do to the pieces, and that
 they keep depth, occupancy and the exact facts of every node.
 */
module TreeOps {
  import opened Rows
  import opened Pieces
  import opened TreeShape

  /** All nodes below this one are full enough; nothing is said about the minimum of this one. */
  ghost predicate Dense(t: Tree, h: nat, f: nat) {
    && Exact(t)
    && t.Size() <= f
    && if t.Leaf? then h == 0 else |t.kids| >= 1 && AllFullBelow(t, h, f)
  }

  ghost predicate AllFull(ks: seq<Tree>, h: nat, f: nat) {
    forall i :: 0 <= i < |ks| ==> Full(ks[i], h, f)
  }

  lemma {:induction false} FullIsDense(t: Tree, h: nat, f: nat)
    requires f >= 4 && Full(t, h, f)
    ensures Dense(t, h, f)
  {
    hide Exact;
  }

  lemma {:induction false} DenseIsFull(t: Tree, h: nat, f: nat)
    requires Dense(t, h, f) && f / 2 <= t.Size()
    ensures Full(t, h, f)
  {
    hide Exact;
  }

  lemma {:induction false} WellFormedIsDense(t: Tree, h: nat, f: nat)
    requires f >= 4 && WellFormed(t, h, f)
    ensures Dense(t, h, f)
  {
    hide Exact;
  }

  lemma {:induction false} FullHasRows(t: Tree, h: nat, f: nat)
    requires f >= 4 && Full(t, h, f)
    ensures |RowsOf(t)| >= 2 && t.count == |RowsOf(t)|
    decreases h
  {
    hide AggRows;
    if t.Inner? {
      FullHasRows(t.kids[0], h - 1, f);
      KidsFirst(t.kids);
    }
  }

  lemma {:induction false} FreshFull(ks: seq<Tree>, h: nat, f: nat)
    requires f >= 4 && 1 <= |ks| <= f && AllFull(ks, h, f)
    ensures Dense(Refresh(Inner(ks, 0, EMPTY)), h + 1, f)
    ensures f / 2 <= |ks| ==> Full(Refresh(Inner(ks, 0, EMPTY)), h + 1, f)
    ensures Refresh(Inner(ks, 0, EMPTY)).Size() == |ks|
    ensures RowsOf(Refresh(Inner(ks, 0, EMPTY))) == KidRows(ks)
  {
    hide Exact;
    forall i | 0 <= i < |ks|
      ensures Exact(ks[i])
    {
      assert Full(ks[i], h, f);
    }
    RefreshExact(Inner(ks, 0, EMPTY));
  }

  lemma {:induction false} FreshLeaf(rows: seq<Piece>, f: nat)
    requires |rows| <= f && NonEmpty(rows)
    ensures Dense(Refresh(Leaf(rows, 0, EMPTY)), 0, f)
    ensures f / 2 <= |rows| ==> Full(Refresh(Leaf(rows, 0, EMPTY)), 0, f)
  {
    RefreshExact(Leaf(rows, 0, EMPTY));
  }

  // ----- choosing a child -----------------------------------------------------------------------

  /** `_child_for`: the child that holds piece `index` (or, for an insertion, takes a piece there). */
  function ChildFor(ks: seq<Tree>, index: int, forInsert: bool): (c: (nat, int))
    requires |ks| >= 1
    ensures c.0 < |ks|
  {
    if |ks| == 1 || index < ks[0].count || (forInsert && index == ks[0].count) then (0, index)
    else
      var (i, local) := ChildFor(ks[1..], index - ks[0].count, forInsert);
      (i + 1, local)
  }

  lemma {:induction false} ChildForFacts(ks: seq<Tree>, index: int, forInsert: bool)
    requires |ks| >= 1 && 0 <= index <= |KidRows(ks)|
    requires !forInsert ==> index < |KidRows(ks)|
    requires forall i :: 0 <= i < |ks| ==> ks[i].count == |RowsOf(ks[i])|
    ensures var (i, local) := ChildFor(ks, index, forInsert);
            && index == |KidRows(ks[..i])| + local
            && 0 <= local <= |RowsOf(ks[i])|
            && (!forInsert ==> local < |RowsOf(ks[i])|)
  {
    hide RowsOf;
    hide KidRows;
    KidsFirst(ks);
    KidsNone();
    if |ks| == 1 || index < ks[0].count || (forInsert && index == ks[0].count) {
      assert ks[..0] == [];
      assert ks[1..] == [] || |ks| > 1;
    } else {
      ChildForFacts(ks[1..], index - ks[0].count, forInsert);
      var (i, local) := ChildFor(ks[1..], index - ks[0].count, forInsert);
      KidsFirst(ks[..i + 1]);
      assert ks[..i + 1][1..] == ks[1..][..i];
    }
  }

  /** The child a descent enters can take the piece index it is given. */
  lemma {:induction false} ChildTarget(t: Tree, index: int, forInsert: bool, h: nat, f: nat)
    requires f >= 4 && t.Inner? && Dense(t, h, f) && 0 <= index <= |RowsOf(t)|
    requires !forInsert ==> index < |RowsOf(t)|
    ensures var (i, local) := ChildFor(t.kids, index, forInsert);
            && h > 0 && Dense(t.kids[i], h - 1, f) && f / 2 <= t.kids[i].Size()
            && 0 <= local <= |RowsOf(t.kids[i])|
            && (!forInsert ==> local < |RowsOf(t.kids[i])|)
            && (t.kids[i].Inner? ==> |t.kids[i].kids| >= 2)
  {
    hide Exact;
    KidCounts(t.kids, h - 1, f);
    ChildForFacts(t.kids, index, forInsert);
    FullIsDense(t.kids[ChildFor(t.kids, index, forInsert).0], h - 1, f);
  }

  // ----- one step of each operation, for the methods that perform it ---------------------------------

  lemma {:induction false} DenseHasKids(t: Tree, h: nat, f: nat)
    requires Dense(t, h, f)
    ensures t.Inner? ==> |t.kids| >= 1
  {
  }

  lemma {:induction false} ReplaceUnfold(t: Tree, index: int, p: Piece)
    requires 0 <= index
    ensures t.Leaf? && index < |t.rows| ==> ReplaceAt(t, index, p) == Refresh(Leaf(t.rows[index := p], 0, EMPTY))
    ensures t.Inner? && |t.kids| >= 1 ==>
              var (i, local) := ChildFor(t.kids, index, false);
              local >= 0 ==> ReplaceAt(t, index, p) == Refresh(Inner(t.kids[i := ReplaceAt(t.kids[i], local, p)], 0, EMPTY))
  {
  }

  lemma {:induction false} InsertUnfold(t: Tree, index: int, p: Piece, f: nat)
    requires 0 <= index
    ensures t.Leaf? && index <= |t.rows| ==> Insert(t, index, p, f) == OverflowLeaf(t.rows[..index] + [p] + t.rows[index..], f)
    ensures t.Inner? && |t.kids| >= 1 ==>
              var (i, local) := ChildFor(t.kids, index, true);
              local >= 0 ==>
                var (c, s) := Insert(t.kids[i], local, p, f);
                Insert(t, index, p, f)
                == Overflow(if s.Some? then t.kids[..i] + [c, s.value] + t.kids[i + 1..] else t.kids[i := c], f)
  {
    hide Overflow;
    hide OverflowLeaf;
  }

  // ----- plain sequences --------------------------------------------------------------------------

  lemma {:induction false} SeqReplace(a: seq<Piece>, m: seq<Piece>, z: seq<Piece>, k: nat, p: Piece)
    requires k < |m|
    ensures a + m[k := p] + z == (a + m + z)[|a| + k := p]
  {
  }

  lemma {:induction false} SeqDelete(a: seq<Piece>, m: seq<Piece>, z: seq<Piece>, k: nat)
    requires k < |m|
    ensures a + (m[..k] + m[k + 1..]) + z == (a + m + z)[..|a| + k] + (a + m + z)[|a| + k + 1..]
  {
  }

  lemma {:induction false} SeqInsert(a: seq<Piece>, m: seq<Piece>, z: seq<Piece>, k: nat, p: Piece)
    requires k <= |m|
    ensures a + Inserted(m, k, p) + z == Inserted(a + m + z, |a| + k, p)
  {
  }

  // ----- replacing one piece ----------------------------------------------------------------------

  function ReplaceAt(t: Tree, index: int, p: Piece): Tree
    requires 0 <= index
    decreases t
  {
    if t.Leaf? then
      if index < |t.rows| then Refresh(Leaf(t.rows[index := p], 0, EMPTY)) else t
    else if t.kids == [] then t
    else
      var (i, local) := ChildFor(t.kids, index, false);
      if local < 0 then t else
      Refresh(Inner(t.kids[i := ReplaceAt(t.kids[i], local, p)], 0, EMPTY))
  }

  lemma {:induction false} ReplaceAtFacts(t: Tree, index: int, p: Piece, h: nat, f: nat)
    requires f >= 4 && Dense(t, h, f) && 0 <= index < |RowsOf(t)| && p.a < p.b
    ensures var r := ReplaceAt(t, index, p);
            && Dense(r, h, f) && r.Size() == t.Size() && r.Leaf? == t.Leaf?
            && RowsOf(r) == RowsOf(t)[index := p]
    decreases h
  {
    hide Refresh;
    hide Exact;
    hide KidRows;
    if t.Leaf? {
      LeafRowsNonEmpty(t);
      FreshLeaf(t.rows[index := p], f);
      RefreshExact(Leaf(t.rows[index := p], 0, EMPTY));
      RefreshKeepsKind(t, t.rows[index := p]);
    } else {
      var (i, local) := ChildFor(t.kids, index, false);
      KidCounts(t.kids, h - 1, f);
      ChildForFacts(t.kids, index, false);
      var c := t.kids[i];
      FullIsDense(c, h - 1, f);
      ReplaceAtFacts(c, local, p, h - 1, f);
      var d := ReplaceAt(c, local, p);
      ReplaceKid(t.kids, i, d, h - 1, f);
      KidRowsAt(t.kids, i);
      SeqReplace(KidRows(t.kids[..i]), RowsOf(c), KidRows(t.kids[i + 1..]), local, p);
    }
  }

  lemma {:induction false} LeafRows(t: Tree)
    ensures t.Leaf? ==> RowsOf(t) == t.rows
    ensures t.Inner? ==> RowsOf(t) == KidRows(t.kids)
  {
  }

  lemma {:induction false} LeafRowsNonEmpty(t: Tree)
    requires Exact(t)
    ensures NonEmpty(RowsOf(t))
  {
  }

  lemma {:induction false} KidCounts(ks: seq<Tree>, h: nat, f: nat)
    requires AllFull(ks, h, f)
    ensures forall i :: 0 <= i < |ks| ==> ks[i].count == |RowsOf(ks[i])|
  {
    hide RowsOf;
  }

  /** Putting another dense child of at least the minimum size in place of child `i`. */
  lemma {:induction false} ReplaceKid(ks: seq<Tree>, i: nat, d: Tree, h: nat, f: nat)
    requires f >= 4 && i < |ks| <= f && AllFull(ks, h, f) && Dense(d, h, f) && f / 2 <= d.Size()
    ensures AllFull(ks[i := d], h, f)
    ensures Dense(Refresh(Inner(ks[i := d], 0, EMPTY)), h + 1, f)
    ensures RowsOf(Refresh(Inner(ks[i := d], 0, EMPTY))) == KidRows(ks[..i]) + RowsOf(d) + KidRows(ks[i + 1..])
    ensures Refresh(Inner(ks[i := d], 0, EMPTY)).Size() == |ks|
    ensures Refresh(Inner(ks[i := d], 0, EMPTY)).Inner?
  {
    hide Full;
    hide Dense;
    DenseIsFull(d, h, f);
    FreshFull(ks[i := d], h, f);
    KidRowsUpdate(ks, i, d);
  }

  // ----- inserting one piece ----------------------------------------------------------------------

  /** `_insert_into`: the node with the piece inserted, and the new right sibling when it overflowed. */
  function Insert(t: Tree, index: int, p: Piece, f: nat): (Tree, Option<Tree>)
    requires 0 <= index
    decreases t
  {
    if t.Leaf? then
      if index > |t.rows| then (t, None) else
      var rows := t.rows[..index] + [p] + t.rows[index..];
      OverflowLeaf(rows, f)
    else if t.kids == [] then (t, None)
    else
      var (i, local) := ChildFor(t.kids, index, true);
      if local < 0 then (t, None) else
      var (c, s) := Insert(t.kids[i], local, p, f);
      var ks := if s.Some? then t.kids[..i] + [c, s.value] + t.kids[i + 1..] else t.kids[i := c];
      Overflow(ks, f)
  }

  /** The leaf with `rows`, cut into two halves when it has too many. */
  function OverflowLeaf(rows: seq<Piece>, f: nat): (Tree, Option<Tree>) {
    if |rows| > f then
      (Refresh(Leaf(rows[..|rows| / 2], 0, EMPTY)), Some(Refresh(Leaf(rows[|rows| / 2..], 0, EMPTY))))
    else (Refresh(Leaf(rows, 0, EMPTY)), None)
  }

  /** The node over `ks`, cut into two halves when it has too many children. */
  function Overflow(ks: seq<Tree>, f: nat): (Tree, Option<Tree>) {
    if |ks| > f then
      (Refresh(Inner(ks[..|ks| / 2], 0, EMPTY)), Some(Refresh(Inner(ks[|ks| / 2..], 0, EMPTY))))
    else (Refresh(Inner(ks, 0, EMPTY)), None)
  }

  lemma {:induction false} OverflowFacts(us: seq<Tree>, h: nat, f: nat)
    requires f >= 4 && 1 <= |us| <= f + 1 && AllFull(us, h, f)
    ensures var r := Overflow(us, f);
            && Dense(r.0, h + 1, f) && r.0.Inner?
            && (r.1.None? ==> RowsOf(r.0) == KidRows(us) && r.0.Size() == |us|)
            && (r.1.Some? ==> Full(r.0, h + 1, f) && Full(r.1.value, h + 1, f)
                              && RowsOf(r.0) + RowsOf(r.1.value) == KidRows(us))
  {
    hide Refresh;
    hide Full;
    hide Dense;
    hide KidRows;
    hide RowsOf;
    if |us| > f {
      var m := |us| / 2;
      FreshFull(us[..m], h, f);
      FreshFull(us[m..], h, f);
      assert us[..m] + us[m..] == us;
      KidRowsConcat(us[..m], us[m..]);
      RefreshKeepsKind(Inner(us[..m], 0, EMPTY), []);
    } else {
      FreshFull(us, h, f);
      RefreshKeepsKind(Inner(us, 0, EMPTY), []);
    }
  }

  function Inserted(rows: seq<Piece>, index: int, p: Piece): seq<Piece>
    requires 0 <= index <= |rows|
  {
    rows[..index] + [p] + rows[index..]
  }

  /** What an insertion returns denotes the pieces with one more, in nodes of legal size. */
  ghost predicate InsertOk(t: Tree, r: (Tree, Option<Tree>), rows: seq<Piece>, h: nat, f: nat) {
    && Dense(r.0, h, f) && r.0.Leaf? == t.Leaf?
    && (r.1.None? ==> RowsOf(r.0) == rows && t.Size() <= r.0.Size())
    && (r.1.Some? ==> Full(r.0, h, f) && Full(r.1.value, h, f) && RowsOf(r.0) + RowsOf(r.1.value) == rows)
  }

  lemma {:induction false} InsertFacts(t: Tree, index: int, p: Piece, h: nat, f: nat)
    requires f >= 4 && Dense(t, h, f) && 0 <= index <= |RowsOf(t)| && p.a < p.b
    ensures InsertOk(t, Insert(t, index, p, f), Inserted(RowsOf(t), index, p), h, f)
    decreases h
  {
    if t.Leaf? {
      InsertLeaf(t, index, p, f);
    } else {
      var ks := t.kids;
      var (i, local) := ChildFor(ks, index, true);
      KidCounts(ks, h - 1, f);
      ChildForFacts(ks, index, true);
      FullIsDense(ks[i], h - 1, f);
      InsertFacts(ks[i], local, p, h - 1, f);
      InsertInner(t, index, p, h, f);
    }
  }

  lemma {:induction false} InsertLeaf(t: Tree, index: int, p: Piece, f: nat)
    requires f >= 4 && t.Leaf? && Dense(t, 0, f) && 0 <= index <= |RowsOf(t)| && p.a < p.b
    ensures InsertOk(t, Insert(t, index, p, f), Inserted(RowsOf(t), index, p), 0, f)
  {
    hide Refresh;
    var rows := Inserted(t.rows, index, p);
    assert NonEmpty(rows);
    if |rows| > f {
      var m := |rows| / 2;
      FreshLeaf(rows[..m], f);
      FreshLeaf(rows[m..], f);
      RefreshExact(Leaf(rows[..m], 0, EMPTY));
      RefreshExact(Leaf(rows[m..], 0, EMPTY));
      assert rows[..m] + rows[m..] == rows;
    } else {
      FreshLeaf(rows, f);
      RefreshExact(Leaf(rows, 0, EMPTY));
    }
    RefreshKeepsKind(t, rows);
  }

  lemma {:induction false} RefreshKeepsKind(t: Tree, rows: seq<Piece>)
    ensures Refresh(t).Leaf? == t.Leaf? && Refresh(t).Size() == t.Size()
    ensures forall n :: 0 <= n <= |rows| ==>
              Refresh(Leaf(rows[..n], 0, EMPTY)).Leaf? && Refresh(Leaf(rows[..n], 0, EMPTY)).Size() == n
    ensures Refresh(Leaf(rows, 0, EMPTY)).Leaf? && Refresh(Leaf(rows, 0, EMPTY)).Size() == |rows|
  {
  }

  lemma {:induction false} InsertInner(t: Tree, index: int, p: Piece, h: nat, f: nat)
    requires f >= 4 && h > 0 && t.Inner? && Dense(t, h, f) && 0 <= index <= |RowsOf(t)|
    requires var (i, local) := ChildFor(t.kids, index, true);
             && index == |KidRows(t.kids[..i])| + local
             && 0 <= local <= |RowsOf(t.kids[i])|
             && InsertOk(t.kids[i], Insert(t.kids[i], local, p, f), Inserted(RowsOf(t.kids[i]), local, p), h - 1, f)
    ensures InsertOk(t, Insert(t, index, p, f), Inserted(RowsOf(t), index, p), h, f)
  {
    hide Overflow;
    hide Full;
    hide Exact;
    hide KidRows;
    var ks := t.kids;
    assert AllFull(ks, h - 1, f);
    var (i, local) := ChildFor(ks, index, true);
    var (c, s) := Insert(ks[i], local, p, f);
    var us := if s.Some? then ks[..i] + [c, s.value] + ks[i + 1..] else ks[i := c];
    InsertRows(ks, i, local, p, c, s, us);
    if s.None? {
      DenseKeepsFull(ks[i], c, h - 1, f);
    }
    OverflowFacts(us, h - 1, f);
  }

  lemma {:induction false} DenseKeepsFull(t: Tree, c: Tree, h: nat, f: nat)
    requires Full(t, h, f) && Dense(c, h, f) && t.Size() <= c.Size()
    ensures Full(c, h, f)
  {
    DenseIsFull(c, h, f);
  }

  lemma {:induction false} PairInside<T>(a: seq<T>, x: T, y: T, z: seq<T>)
    ensures a + [x, y] + z == (a + [x]) + ([y] + z)
  {
  }

  lemma {:induction false} FourParts<T>(a: seq<T>, b: seq<T>, c: seq<T>, z: seq<T>)
    ensures (a + b) + (c + z) == a + (b + c) + z
  {
  }

  lemma {:induction false} InsertRows(ks: seq<Tree>, i: nat, local: int, p: Piece, c: Tree, s: Option<Tree>, us: seq<Tree>)
    requires i < |ks| && 0 <= local <= |RowsOf(ks[i])|
    requires us == if s.Some? then ks[..i] + [c, s.value] + ks[i + 1..] else ks[i := c]
    requires s.None? ==> RowsOf(c) == Inserted(RowsOf(ks[i]), local, p)
    requires s.Some? ==> RowsOf(c) + RowsOf(s.value) == Inserted(RowsOf(ks[i]), local, p)
    ensures var index := |KidRows(ks[..i])| + local;
            index <= |KidRows(ks)| && KidRows(us) == Inserted(KidRows(ks), index, p)
  {
    hide *;
    var a, z, mid := KidRows(ks[..i]), KidRows(ks[i + 1..]), RowsOf(ks[i]);
    KidRowsAt(ks, i);
    if s.None? {
      KidRowsUpdate(ks, i, c);
    } else {
      PairInside(ks[..i], c, s.value, ks[i + 1..]);
      KidRowsConcat(ks[..i] + [c], [s.value] + ks[i + 1..]);
      KidRowsConcat(ks[..i], [c]);
      KidRowsConcat([s.value], ks[i + 1..]);
      KidRowsOne(c);
      KidRowsOne(s.value);
      FourParts(a, RowsOf(c), RowsOf(s.value), z);
    }
    SeqInsert(a, mid, z, local, p);
  }

  // ----- deleting one piece -----------------------------------------------------------------------

  function DeleteAt(t: Tree, index: int, f: nat): Tree
    requires 0 <= index
    decreases t
  {
    if t.Leaf? then
      if index < |t.rows| then Refresh(Leaf(t.rows[..index] + t.rows[index + 1..], 0, EMPTY)) else t
    else if t.kids == [] then t
    else
      var (i, local) := ChildFor(t.kids, index, false);
      if local < 0 then t else
      var c := DeleteAt(t.kids[i], local, f);
      var ks := t.kids[i := c];
      if c.Size() < f / 2 && |ks| > 1 && (ks[LeftOf(i)].Leaf? <==> ks[LeftOf(i) + 1].Leaf?) then
        Refresh(Inner(Rebalanced(ks, i, f), 0, EMPTY))
      else Refresh(Inner(ks, 0, EMPTY))
  }

  /** A node one item short of the minimum joined with, or topped up by, a full neighbour. */
  lemma {:induction false} MendPair(l: Tree, r: Tree, h: nat, f: nat)
    requires f >= 4 && Dense(l, h, f) && Dense(r, h, f) && 1 <= l.Size() && 1 <= r.Size()
    requires l.Size() < f / 2 || r.Size() < f / 2
    requires f / 2 <= l.Size() + r.Size()
    ensures l.Leaf? <==> r.Leaf?
    ensures l.Size() + r.Size() <= f ==> Full(Absorb(l, r), h, f) && RowsOf(Absorb(l, r)) == RowsOf(l) + RowsOf(r)
    ensures l.Size() + r.Size() > f ==>
              && Full(Evened(l, r).0, h, f) && Full(Evened(l, r).1, h, f)
              && RowsOf(Evened(l, r).0) + RowsOf(Evened(l, r).1) == RowsOf(l) + RowsOf(r)
  {
    hide Refresh;
    hide EvenCut;
    if l.Size() + r.Size() > f {
      EvenCutFacts(l.Size(), r.Size(), f);
    }
    var m := EvenCut(l.Size(), r.Size());
    if l.Leaf? {
      MendLeaves(l.rows + r.rows, m, f);
    } else {
      KidRowsConcat(l.kids, r.kids);
      MendInners(l.kids + r.kids, m, h, f);
    }
  }

  lemma {:induction false} MendLeaves(all: seq<Piece>, m: nat, f: nat)
    requires NonEmpty(all) && f / 2 <= |all|
    ensures |all| <= f ==> Full(Refresh(Leaf(all, 0, EMPTY)), 0, f) && RowsOf(Refresh(Leaf(all, 0, EMPTY))) == all
    ensures f / 2 <= m <= f && f / 2 <= |all| - m <= f ==>
              var x, y := Refresh(Leaf(all[..m], 0, EMPTY)), Refresh(Leaf(all[m..], 0, EMPTY));
              Full(x, 0, f) && Full(y, 0, f) && RowsOf(x) + RowsOf(y) == all
  {
    hide Refresh;
    hide Full;
    if |all| <= f {
      FreshLeaf(all, f);
      RefreshExact(Leaf(all, 0, EMPTY));
    }
    if f / 2 <= m <= f && f / 2 <= |all| - m <= f {
      FreshLeaf(all[..m], f);
      FreshLeaf(all[m..], f);
      RefreshExact(Leaf(all[..m], 0, EMPTY));
      RefreshExact(Leaf(all[m..], 0, EMPTY));
      assert all[..m] + all[m..] == all;
    }
  }

  lemma {:induction false} MendInners(all: seq<Tree>, m: nat, h: nat, f: nat)
    requires f >= 4 && h > 0 && AllFull(all, h - 1, f) && f / 2 <= |all|
    ensures |all| <= f ==>
              && Full(Refresh(Inner(all, 0, EMPTY)), h, f)
              && RowsOf(Refresh(Inner(all, 0, EMPTY))) == KidRows(all)
    ensures f / 2 <= m <= f && f / 2 <= |all| - m <= f ==>
              var x, y := Refresh(Inner(all[..m], 0, EMPTY)), Refresh(Inner(all[m..], 0, EMPTY));
              Full(x, h, f) && Full(y, h, f) && RowsOf(x) + RowsOf(y) == KidRows(all)
  {
    hide Refresh;
    hide Full;
    hide KidRows;
    hide RowsOf;
    if |all| <= f {
      FreshFull(all, h - 1, f);
    }
    if f / 2 <= m <= f && f / 2 <= |all| - m <= f {
      FreshFull(all[..m], h - 1, f);
      FreshFull(all[m..], h - 1, f);
      assert all[..m] + all[m..] == all;
      KidRowsConcat(all[..m], all[m..]);
    }
  }

  lemma {:induction false} DeleteAtFacts(t: Tree, index: int, h: nat, f: nat)
    requires f >= 4 && Dense(t, h, f) && 0 <= index < |RowsOf(t)|
    requires t.Inner? ==> |t.kids| >= 2
    ensures var r := DeleteAt(t, index, f);
            && Dense(r, h, f) && t.Size() - 1 <= r.Size() && r.Leaf? == t.Leaf?
            && RowsOf(r) == RowsOf(t)[..index] + RowsOf(t)[index + 1..]
    decreases h
  {
    if t.Leaf? {
      var rows := t.rows[..index] + t.rows[index + 1..];
      FreshLeaf(rows, f);
      RefreshExact(Leaf(rows, 0, EMPTY));
    } else {
      var ks := t.kids;
      var (i, local) := ChildFor(ks, index, false);
      KidCounts(ks, h - 1, f);
      ChildForFacts(ks, index, false);
      FullIsDense(ks[i], h - 1, f);
      DeleteAtFacts(ks[i], local, h - 1, f);
      DeleteInner(t, index, i, local, h, f);
    }
  }

  lemma {:induction false} DeleteInner(t: Tree, index: int, i: nat, local: int, h: nat, f: nat)
    requires f >= 4 && h > 0 && t.Inner? && |t.kids| >= 2 && Dense(t, h, f)
    requires (i, local) == ChildFor(t.kids, index, false)
    requires 0 <= index < |RowsOf(t)| && index == |KidRows(t.kids[..i])| + local && 0 <= local < |RowsOf(t.kids[i])|
    requires var c := DeleteAt(t.kids[i], local, f);
             && Dense(c, h - 1, f) && t.kids[i].Size() - 1 <= c.Size() && c.Leaf? == t.kids[i].Leaf?
             && RowsOf(c) == RowsOf(t.kids[i])[..local] + RowsOf(t.kids[i])[local + 1..]
    ensures var r := DeleteAt(t, index, f);
            && Dense(r, h, f) && t.Size() - 1 <= r.Size() && r.Leaf? == t.Leaf?
            && RowsOf(r) == RowsOf(t)[..index] + RowsOf(t)[index + 1..]
  {
    hide Refresh;
    hide Exact;
    hide KidRows;
    var ks := t.kids;
    assert AllFull(ks, h - 1, f);
    var c := DeleteAt(ks[i], local, f);
    var us := ks[i := c];
    KidRowsAt(ks, i);
    KidRowsUpdate(ks, i, c);
    var a, z := KidRows(ks[..i]), KidRows(ks[i + 1..]);
    SeqDelete(a, RowsOf(ks[i]), z, local);
    if c.Size() < f / 2 {
      var n := LeftOf(i);
      var j := if i > 0 then i - 1 else i + 1;
      FullIsDense(ks[j], h - 1, f);
      MendKids(us, i, h - 1, f);
      var vs := Rebalanced(us, i, f);
      FreshFull(vs, h - 1, f);
      RefreshKeepsKind(Inner(vs, 0, EMPTY), []);
    } else {
      DenseIsFull(c, h - 1, f);
      FreshFull(us, h - 1, f);
      RefreshKeepsKind(Inner(us, 0, EMPTY), []);
    }
  }

  lemma {:induction false} MendKids(us: seq<Tree>, i: nat, h: nat, f: nat)
    requires f >= 4 && |us| >= 2 && i < |us|
    requires Dense(us[i], h, f) && f / 2 - 1 <= us[i].Size() < f / 2
    requires forall j :: 0 <= j < |us| && j != i ==> Full(us[j], h, f)
    ensures us[LeftOf(i)].Leaf? <==> us[LeftOf(i) + 1].Leaf?
    ensures var vs := Rebalanced(us, i, f);
            AllFull(vs, h, f) && |us| - 1 <= |vs| <= |us| && KidRows(vs) == KidRows(us)
  {
    hide Exact;
    hide KidRows;
    hide RowsOf;
    hide Absorb;
    hide Evened;
    var n := LeftOf(i);
    var l, r := us[n], us[n + 1];
    FullIsDense(if i > 0 then l else r, h, f);
    MendPair(l, r, h, f);
    hide Full;
    hide Dense;
    if l.Size() + r.Size() <= f {
      PairSwap(us, n, [Absorb(l, r)], f);
      KidRowsOne(Absorb(l, r));
    } else {
      var x, y := Evened(l, r).0, Evened(l, r).1;
      PairSwap(us, n, [x, y], f);
      assert [x, y] == [x] + [y];
      KidRowsConcat([x], [y]);
      KidRowsOne(x);
      KidRowsOne(y);
    }
  }

  lemma {:induction false} DeleteUnfold(t: Tree, index: int, f: nat)
    requires 0 <= index
    ensures t.Leaf? && index < |t.rows| ==>
              DeleteAt(t, index, f) == Refresh(Leaf(t.rows[..index] + t.rows[index + 1..], 0, EMPTY))
    ensures t.Inner? && |t.kids| >= 2 ==>
              var (i, local) := ChildFor(t.kids, index, false);
              local >= 0 ==>
                var c := DeleteAt(t.kids[i], local, f);
                var ks := t.kids[i := c];
                DeleteAt(t, index, f) ==
                if c.Size() < f / 2 && (ks[LeftOf(i)].Leaf? <==> ks[LeftOf(i) + 1].Leaf?)
                then Refresh(Inner(Rebalanced(ks, i, f), 0, EMPTY)) else Refresh(Inner(ks, 0, EMPTY))
  {
    hide Rebalanced;
  }
}
