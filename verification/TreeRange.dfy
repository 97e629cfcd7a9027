/**
 Deleting a range of pieces in one pass (`_delete_range`, `_repair_children`, `_collapse_root`) and the
 operations on a whole tree.
 */
module TreeRange {
  import opened Rows
  import opened Pieces
  import opened TreeShape
  import opened TreeOps

  function Clamp(x: int, n: nat): (c: nat)
    ensures c <= n
  {
    if x < 0 then 0 else if x > n then n else x
  }

  /** The pieces outside `[low, high)`. */
  function Outside(s: seq<Piece>, low: int, high: int): seq<Piece> {
    s[..Clamp(low, |s|)] + s[Clamp(high, |s|)..]
  }

  lemma {:induction false} TakeConcat(a: seq<Piece>, b: seq<Piece>, n: int)
    ensures (a + b)[..Clamp(n, |a + b|)] == a[..Clamp(n, |a|)] + b[..Clamp(n - |a|, |b|)]
    ensures n <= |a| ==> b[..Clamp(n - |a|, |b|)] == []
  {
  }

  lemma {:induction false} DropConcat(a: seq<Piece>, b: seq<Piece>, n: int)
    ensures (a + b)[Clamp(n, |a + b|)..] == a[Clamp(n, |a|)..] + b[Clamp(n - |a|, |b|)..]
    ensures n >= |a| ==> a[Clamp(n, |a|)..] == []
  {
  }

  lemma {:induction false} EmptyMiddle(ta: seq<Piece>, tb: seq<Piece>, da: seq<Piece>, db: seq<Piece>)
    requires tb == [] || da == []
    ensures (ta + tb) + (da + db) == (ta + da) + (tb + db)
  {
    if tb == [] {
      assert ta + tb == ta && tb + db == db;
    } else {
      assert da + db == db && ta + da == ta;
    }
  }

  lemma {:induction false} OutsideIs(s: seq<Piece>, low: int, high: int)
    ensures Outside(s, low, high) == s[..Clamp(low, |s|)] + s[Clamp(high, |s|)..]
  {
  }

  lemma {:induction false} OutsideConcat(a: seq<Piece>, b: seq<Piece>, low: int, high: int)
    requires low <= high
    ensures Outside(a + b, low, high) == Outside(a, low, high) + Outside(b, low - |a|, high - |a|)
  {
    hide *;
    OutsideIs(a + b, low, high);
    OutsideIs(a, low, high);
    OutsideIs(b, low - |a|, high - |a|);
    TakeConcat(a, b, low);
    DropConcat(a, b, high);
    EmptyMiddle(a[..Clamp(low, |a|)], b[..Clamp(low - |a|, |b|)], a[Clamp(high, |a|)..], b[Clamp(high - |a|, |b|)..]);
  }

  lemma {:induction false} FullIsRepaired(t: Tree, h: nat, f: nat)
    requires f >= 4 && Full(t, h, f)
    ensures Repaired(t, h, f)
    decreases h
  {
    hide Exact;
    if t.Inner? {
      forall i | 0 <= i < |t.kids|
        ensures Repaired(t.kids[i], h - 1, f) && f / 2 <= t.kids[i].Size()
      {
        FullIsRepaired(t.kids[i], h - 1, f);
      }
    }
  }

  lemma {:induction false} DenseIsRepaired(t: Tree, h: nat, f: nat)
    requires f >= 4 && Dense(t, h, f) && 1 <= t.Size()
    ensures Repaired(t, h, f)
  {
    hide Exact;
    if t.Inner? {
      forall i | 0 <= i < |t.kids|
        ensures Repaired(t.kids[i], h - 1, f) && f / 2 <= t.kids[i].Size()
      {
        FullIsRepaired(t.kids[i], h - 1, f);
      }
    }
  }

  /** A repaired node that is full enough itself is full all the way down. */
  lemma {:induction false} RepairedIsFull(t: Tree, h: nat, f: nat)
    requires f >= 4 && Repaired(t, h, f) && f / 2 <= t.Size()
    ensures Full(t, h, f)
    decreases h
  {
    hide Exact;
    if t.Inner? {
      forall i | 0 <= i < |t.kids|
        ensures Full(t.kids[i], h - 1, f)
      {
        RepairedIsFull(t.kids[i], h - 1, f);
      }
    }
  }

  // ----- deleting a range -------------------------------------------------------------------------

  /** `_delete_range` of `n` pieces from `index`; at least one piece stays. */
  function DeleteRange(t: Tree, index: int, n: int, h: nat, f: nat): (r: Tree)
    requires f >= 4 && Dense(t, h, f) && 0 <= index && 0 < n && index + n <= |RowsOf(t)| && n < |RowsOf(t)|
    ensures Without(r, t, index, n, h, f)
    decreases 2 * h, 0
  {
    if t.Leaf? then
      CutLeaf(t, index, n, f);
      Refresh(Leaf(t.rows[..index] + t.rows[index + n..], 0, EMPTY))
    else
      var ks := CutKids(t.kids, index, index + n, 0, h - 1, f);
      CutReady(t, ks, index, n, h, f);
      Repair(Inner(ks, t.count, t.agg), h, f)
  }

  lemma {:induction false} CutLeaf(t: Tree, index: int, n: int, f: nat)
    requires f >= 4 && t.Leaf? && Dense(t, 0, f) && 0 <= index && 0 < n && index + n <= |t.rows| && n < |t.rows|
    ensures var r := Refresh(Leaf(t.rows[..index] + t.rows[index + n..], 0, EMPTY));
            Repaired(r, 0, f) && RowsOf(r) == Outside(t.rows, index, index + n)
  {
    hide Refresh;
    LeafRowsNonEmpty(t);
    var rows := t.rows[..index] + t.rows[index + n..];
    FreshLeaf(rows, f);
    RefreshKeepsKind(t, rows);
    DenseIsRepaired(Refresh(Leaf(rows, 0, EMPTY)), 0, f);
    RefreshExact(Leaf(rows, 0, EMPTY));
  }

  lemma {:induction false} CutReady(t: Tree, ks: seq<Tree>, index: int, n: int, h: nat, f: nat)
    requires t.Inner? && Dense(t, h, f) && 0 <= index && 0 < n && index + n <= |RowsOf(t)| && n < |RowsOf(t)|
    requires AllRepaired(ks, h - 1, f) && |ks| <= |t.kids|
    requires KidRows(ks) == Outside(KidRows(t.kids), index, index + n)
    ensures Ready(Inner(ks, t.count, t.agg), h, f)
    ensures RowsOf(Inner(ks, t.count, t.agg)) == Outside(RowsOf(t), index, index + n)
  {
    hide Exact;
    hide AllRepaired;
    KidsNone();
  }

  /** The range cut down to one child removes the same pieces of it. */
  lemma {:induction false} OutsideOfKid(rows: seq<Piece>, index: int, end: int, base: int)
    requires index < end
    ensures base + |rows| <= index || base >= end ==> Outside(rows, index - base, end - base) == rows
    ensures index <= base && base + |rows| <= end ==> Outside(rows, index - base, end - base) == []
    ensures !(base + |rows| <= index || base >= end) && !(index <= base && base + |rows| <= end) ==>
              var at, n := CutStart(index, base), CutLength(index, end, base, |rows|);
              && 0 <= at && 0 < n && at + n <= |rows| && n < |rows|
              && Outside(rows, index - base, end - base) == Outside(rows, at, at + n)
  {
  }

  /** Cutting `[low, high)` out of `rows` is cutting `n` of them from `at`. */
  ghost predicate SameCut(rows: seq<Piece>, low: int, high: int, at: int, n: int) {
    Outside(rows, low, high) == Outside(rows, at, at + n)
  }

  /** `r` is `t` without `n` pieces from `index`, repaired. */
  ghost predicate Without(r: Tree, t: Tree, index: int, n: int, h: nat, f: nat) {
    Repaired(r, h, f) && RowsOf(r) == Outside(RowsOf(t), index, index + n)
  }

  /** `us` is what remains of `rows` outside `[low, high)`, in at most one repaired node. */
  ghost predicate Remains(us: seq<Tree>, rows: seq<Piece>, low: int, high: int, h: nat, f: nat) {
    AllRepaired(us, h, f) && |us| <= 1 && KidRows(us) == Outside(rows, low, high)
  }

  /** What a range deletion makes of one child: kept, dropped, or cut itself. */
  function CutKid(c: Tree, index: int, end: int, base: int, h: nat, f: nat): (us: seq<Tree>)
    requires f >= 4 && Full(c, h, f) && index < end
    ensures Remains(us, RowsOf(c), index - base, end - base, h, f)
    decreases 2 * h + 1, 0
  {
    CutKidCases(c, index, end, base, h, f);
    var childEnd := base + c.count;
    if childEnd <= index || base >= end then [c]
    else if index <= base && childEnd <= end then []
    else CutPart(c, CutStart(index, base), CutLength(index, end, base, c.count), index - base, end - base, h, f)
  }

  /** Where the range begins in a child that starts at `base`. */
  function CutStart(index: int, base: int): int {
    if index > base then index - base else 0
  }

  /** How much of the range falls into that child. */
  function CutLength(index: int, end: int, base: int, count: int): int {
    (if end < base + count then end else base + count) - (if index > base then index else base)
  }

  /** Some pieces of the child go and some stay. */
  ghost predicate Cuttable(c: Tree, at: int, n: int, low: int, high: int, h: nat, f: nat) {
    Dense(c, h, f) && 0 <= at && 0 < n && at + n <= |RowsOf(c)| && n < |RowsOf(c)| && SameCut(RowsOf(c), low, high, at, n)
  }

  /** The child that the range cuts: `n` of its pieces go, from `at` on. */
  function CutPart(c: Tree, at: int, n: int, low: int, high: int, h: nat, f: nat): (us: seq<Tree>)
    requires f >= 4 && Cuttable(c, at, n, low, high, h, f)
    ensures Remains(us, RowsOf(c), low, high, h, f)
    decreases 2 * h, 1
  {
    var r := DeleteRange(c, at, n, h, f);
    CutKidOne(c, r, at, n, low, high, h, f);
    [r]
  }

  lemma {:induction false} CutKidCases(c: Tree, index: int, end: int, base: int, h: nat, f: nat)
    requires f >= 4 && Full(c, h, f) && index < end
    ensures var childEnd := base + c.count;
            if childEnd <= index || base >= end then
              Remains([c], RowsOf(c), index - base, end - base, h, f)
            else if index <= base && childEnd <= end then
              Remains([], RowsOf(c), index - base, end - base, h, f)
            else
              Cuttable(c, CutStart(index, base), CutLength(index, end, base, c.count), index - base, end - base, h, f)
  {
    hide *;
    CuttableIs(c, CutStart(index, base), CutLength(index, end, base, c.count), index - base, end - base, h, f);
    FullHasRows(c, h, f);
    FullIsRepaired(c, h, f);
    FullIsDense(c, h, f);
    KidRowsOne(c);
    KidsNone();
    OneRepaired(c, h, f);
    OutsideOfKid(RowsOf(c), index, end, base);
    SameCutIs(RowsOf(c), index - base, end - base, CutStart(index, base), CutLength(index, end, base, c.count));
    RemainsIs([c], RowsOf(c), index - base, end - base, h, f);
    RemainsIs([], RowsOf(c), index - base, end - base, h, f);
  }

  lemma {:induction false} CuttableIs(c: Tree, at: int, n: int, low: int, high: int, h: nat, f: nat)
    ensures Cuttable(c, at, n, low, high, h, f) <==>
              Dense(c, h, f) && 0 <= at && 0 < n && at + n <= |RowsOf(c)| && n < |RowsOf(c)| && SameCut(RowsOf(c), low, high, at, n)
  {
    hide Dense;
    hide RowsOf;
    hide SameCut;
  }

  lemma {:induction false} SameCutIs(rows: seq<Piece>, low: int, high: int, at: int, n: int)
    ensures SameCut(rows, low, high, at, n) <==> Outside(rows, low, high) == Outside(rows, at, at + n)
  {
  }

  lemma {:induction false} WithoutIs(r: Tree, t: Tree, index: int, n: int, h: nat, f: nat)
    ensures Without(r, t, index, n, h, f) <==> Repaired(r, h, f) && RowsOf(r) == Outside(RowsOf(t), index, index + n)
  {
    hide Repaired;
    hide Outside;
    hide RowsOf;
  }

  lemma {:induction false} RemainsIs(us: seq<Tree>, rows: seq<Piece>, low: int, high: int, h: nat, f: nat)
    ensures Remains(us, rows, low, high, h, f) <==> AllRepaired(us, h, f) && |us| <= 1 && KidRows(us) == Outside(rows, low, high)
  {
  }

  lemma {:induction false} OneRepaired(c: Tree, h: nat, f: nat)
    requires Repaired(c, h, f)
    ensures AllRepaired([c], h, f) && AllRepaired([], h, f)
  {
    hide Repaired;
  }

  lemma {:induction false} CutKidOne(c: Tree, r: Tree, at: int, n: int, low: int, high: int, h: nat, f: nat)
    requires Without(r, c, at, n, h, f) && SameCut(RowsOf(c), low, high, at, n)
    ensures Remains([r], RowsOf(c), low, high, h, f)
  {
    hide *;
    WithoutIs(r, c, at, n, h, f);
    SameCutIs(RowsOf(c), low, high, at, n);
    OneRepaired(r, h, f);
    KidRowsOne(r);
    RemainsIs([r], RowsOf(c), low, high, h, f);
  }

  /** The children a range deletion keeps. */
  function CutKids(ks: seq<Tree>, index: int, end: int, base: int, h: nat, f: nat): (us: seq<Tree>)
    requires f >= 4 && AllFull(ks, h, f) && index < end
    ensures AllRepaired(us, h, f) && |us| <= |ks|
    ensures KidRows(us) == Outside(KidRows(ks), index - base, end - base)
    decreases 2 * h + 1, |ks|
  {
    if ks == [] then
      KidsNone();
      []
    else
      var first := CutKid(ks[0], index, end, base, h, f);
      var rest := CutKids(ks[1..], index, end, base + ks[0].count, h, f);
      CutStep(ks, first, rest, index, end, base, h, f);
      first + rest
  }

  lemma {:induction false} CutStep(ks: seq<Tree>, first: seq<Tree>, rest: seq<Tree>, index: int, end: int, base: int, h: nat, f: nat)
    requires f >= 4 && ks != [] && Full(ks[0], h, f) && index < end
    requires Remains(first, RowsOf(ks[0]), index - base, end - base, h, f)
    requires AllRepaired(rest, h, f) && |rest| < |ks|
    requires KidRows(rest) == Outside(KidRows(ks[1..]), index - (base + ks[0].count), end - (base + ks[0].count))
    ensures AllRepaired(first + rest, h, f) && |first + rest| <= |ks|
    ensures KidRows(first + rest) == Outside(KidRows(ks), index - base, end - base)
  {
    hide *;
    RemainsIs(first, RowsOf(ks[0]), index - base, end - base, h, f);
    KidsFirst(ks);
    FullHasRows(ks[0], h, f);
    OutsideConcat(RowsOf(ks[0]), KidRows(ks[1..]), index - base, end - base);
    KidRowsConcat(first, rest);
    AllRepairedConcat(first, rest, h, f);
  }

  lemma {:induction false} AllRepairedConcat(a: seq<Tree>, b: seq<Tree>, h: nat, f: nat)
    requires AllRepaired(a, h, f) && AllRepaired(b, h, f)
    ensures AllRepaired(a + b, h, f)
  {
    hide Repaired;
  }

  // ----- one step of the deletion, for the method that performs it ---------------------------------------

  lemma {:induction false} RangeUnfold(t: Tree, index: int, n: int, h: nat, f: nat)
    requires f >= 4 && Dense(t, h, f) && 0 <= index && 0 < n && index + n <= |RowsOf(t)| && n < |RowsOf(t)|
    ensures t.Leaf? ==> DeleteRange(t, index, n, h, f) == Refresh(Leaf(t.rows[..index] + t.rows[index + n..], t.count, t.agg))
    ensures t.Inner? ==>
              && h > 0 && AllFull(t.kids, h - 1, f)
              && var ks := CutKids(t.kids, index, index + n, 0, h - 1, f);
                 Ready(Inner(ks, 0, EMPTY), h, f) && DeleteRange(t, index, n, h, f) == Repair(Inner(ks, 0, EMPTY), h, f)
  {
    hide CutKids;
    hide Repair;
    if t.Inner? {
      var ks := CutKids(t.kids, index, index + n, 0, h - 1, f);
      CutReady(t, ks, index, n, h, f);
      RepairIgnores(Inner(ks, t.count, t.agg), h, f);
    }
  }

  lemma {:induction false} CutKidIs(c: Tree, index: int, end: int, base: int, h: nat, f: nat)
    requires f >= 4 && Full(c, h, f) && index < end
    ensures Dense(c, h, f)
    ensures var childEnd := base + c.count;
            if childEnd <= index || base >= end then CutKid(c, index, end, base, h, f) == [c]
            else if index <= base && childEnd <= end then CutKid(c, index, end, base, h, f) == []
            else
              var low := if index > base then index else base;
              var high := if end < childEnd then end else childEnd;
              && 0 <= low - base && 0 < high - low < |RowsOf(c)| && high - base <= |RowsOf(c)|
              && CutKid(c, index, end, base, h, f) == [DeleteRange(c, low - base, high - low, h, f)]
  {
    hide DeleteRange;
    hide Full;
    hide Dense;
    hide RowsOf;
    hide Outside;
    hide Remains;
    hide SameCut;
    hide Without;
    FullHasRows(c, h, f);
    FullIsDense(c, h, f);
    CutKidCases(c, index, end, base, h, f);
  }

  lemma {:induction false} CutUnfold(ks: seq<Tree>, index: int, end: int, base: int, h: nat, f: nat)
    requires f >= 4 && ks != [] && AllFull(ks, h, f) && index < end
    ensures AllFull(ks[1..], h, f) && Full(ks[0], h, f)
    ensures CutKids(ks, index, end, base, h, f)
         == CutKid(ks[0], index, end, base, h, f) + CutKids(ks[1..], index, end, base + ks[0].count, h, f)
  {
    hide CutKid;
    hide Full;
  }

  lemma {:induction false} CutNothing(index: int, end: int, base: int, h: nat, f: nat)
    requires f >= 4 && index < end
    ensures CutKids([], index, end, base, h, f) == []
  {
  }

  // ----- the root ----------------------------------------------------------------------------------

  function Collapse(t: Tree): Tree
    decreases t
  {
    if t.Inner? && |t.kids| == 1 then Collapse(t.kids[0]) else t
  }

  function CollapsedHeight(t: Tree, h: nat): nat
    decreases t
  {
    if t.Inner? && |t.kids| == 1 && h > 0 then CollapsedHeight(t.kids[0], h - 1) else h
  }

  lemma {:induction false} CollapseFacts(t: Tree, h: nat, f: nat)
    requires f >= 4 && Repaired(t, h, f)
    ensures WellFormed(Collapse(t), CollapsedHeight(t, h), f) && RowsOf(Collapse(t)) == RowsOf(t)
    decreases h
  {
    hide Exact;
    if t.Inner? {
      if |t.kids| == 1 {
        CollapseFacts(t.kids[0], h - 1, f);
        KidRowsOne(t.kids[0]);
        assert t.kids == [t.kids[0]];
      } else {
        forall i | 0 <= i < |t.kids|
          ensures Full(t.kids[i], h - 1, f)
        {
          RepairedIsFull(t.kids[i], h - 1, f);
        }
      }
    }
  }

  /** `_delete_pieces` on the whole tree. */
  function DeletePieces(t: Tree, index: int, n: int, h: nat, f: nat): Tree
    requires f >= 4 && WellFormed(t, h, f) && 0 <= index && index + n <= |RowsOf(t)|
  {
    WellFormedIsDense(t, h, f);
    if n <= 0 then t
    else if n == t.count then NO_LEAF
    else Collapse(DeleteRange(t, index, n, h, f))
  }

  /**
   Range deletion keeps the B+ tree: exactly the pieces of the range go, and depth, occupancy, counts
   and aggregates are right again at every node, for every range and every fanout of at least 4.
   */
  lemma {:induction false} DeletePiecesFacts(t: Tree, index: int, n: int, h: nat, f: nat)
    requires f >= 4 && WellFormed(t, h, f) && 0 <= index && 0 <= n && index + n <= |RowsOf(t)|
    ensures exists k :: WellFormed(DeletePieces(t, index, n, h, f), k, f)
    ensures RowsOf(DeletePieces(t, index, n, h, f)) == RowsOf(t)[..index] + RowsOf(t)[index + n..]
  {
    hide AggRows;
    hide KidRows;
    WellFormedIsDense(t, h, f);
    if n <= 0 {
      assert WellFormed(DeletePieces(t, index, n, h, f), h, f);
    } else if n == t.count {
      NoLeaf(f);
      assert WellFormed(DeletePieces(t, index, n, h, f), 0, f);
    } else {
      var r := DeleteRange(t, index, n, h, f);
      CollapseFacts(r, h, f);
      assert WellFormed(DeletePieces(t, index, n, h, f), CollapsedHeight(r, h), f);
    }
  }

  lemma {:induction false} NoLeaf(f: nat)
    ensures WellFormed(NO_LEAF, 0, f) && RowsOf(NO_LEAF) == []
  {
  }

  /** `_insert_piece`: a root that overflows gets a new root above its two halves. */
  function InsertPiece(t: Tree, index: int, p: Piece, f: nat): Tree
    requires 0 <= index
  {
    var (l, s) := Insert(t, index, p, f);
    if s.Some? then Refresh(Inner([l, s.value], 0, EMPTY)) else l
  }

  lemma {:induction false} InsertPieceFacts(t: Tree, index: int, p: Piece, h: nat, f: nat)
    requires f >= 4 && WellFormed(t, h, f) && 0 <= index <= |RowsOf(t)| && p.a < p.b
    ensures exists k :: WellFormed(InsertPiece(t, index, p, f), k, f)
    ensures RowsOf(InsertPiece(t, index, p, f)) == Inserted(RowsOf(t), index, p)
  {
    hide Refresh;
    hide Exact;
    WellFormedIsDense(t, h, f);
    InsertFacts(t, index, p, h, f);
    var (l, s) := Insert(t, index, p, f);
    if s.Some? {
      var ks := [l, s.value];
      assert ks == [l] + [s.value];
      KidRowsConcat([l], [s.value]);
      KidRowsOne(l);
      KidRowsOne(s.value);
      FreshFull(ks, h, f);
      RefreshKeepsKind(Inner(ks, 0, EMPTY), []);
      assert WellFormed(InsertPiece(t, index, p, f), h + 1, f);
    } else {
      assert WellFormed(InsertPiece(t, index, p, f), h, f);
    }
  }

  lemma {:induction false} ReplacePieceFacts(t: Tree, index: int, p: Piece, h: nat, f: nat)
    requires f >= 4 && WellFormed(t, h, f) && 0 <= index < |RowsOf(t)| && p.a < p.b
    ensures WellFormed(ReplaceAt(t, index, p), h, f) && RowsOf(ReplaceAt(t, index, p)) == RowsOf(t)[index := p]
  {
    hide Exact;
    hide ReplaceAt;
    WellFormedIsDense(t, h, f);
    ReplaceAtFacts(t, index, p, h, f);
  }

  /** One piece deleted and the root collapsed, as `_try_merge` does. */
  lemma {:induction false} DeletePieceFacts(t: Tree, index: int, h: nat, f: nat)
    requires f >= 4 && WellFormed(t, h, f) && 0 <= index < |RowsOf(t)| && |RowsOf(t)| >= 2
    ensures exists k :: WellFormed(Collapse(DeleteAt(t, index, f)), k, f)
    ensures RowsOf(Collapse(DeleteAt(t, index, f))) == RowsOf(t)[..index] + RowsOf(t)[index + 1..]
  {
    hide Exact;
    hide DeleteAt;
    WellFormedIsDense(t, h, f);
    DeleteAtFacts(t, index, h, f);
    var r := DeleteAt(t, index, f);
    DenseIsRepaired(r, h, f);
    CollapseFacts(r, h, f);
    assert WellFormed(Collapse(r), CollapsedHeight(r, h), f);
  }
}
