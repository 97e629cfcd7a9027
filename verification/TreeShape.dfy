/**
 The shape of the counted B+ tree (`piece_tree.py`) as a value: what each structural operation makes of
 a node, with the cached count and aggregate the code keeps in every node. The classes of `PieceTree`
 are proved to compute exactly these functions in place.
 */
module TreeShape {
  import opened Rows
  import opened Pieces

  datatype Tree =
    | Leaf(rows: seq<Piece>, count: int, agg: Aggregate)
    | Inner(kids: seq<Tree>, count: int, agg: Aggregate)
  {
    function Size(): nat { if Leaf? then |rows| else |kids| }
  }

  const NO_LEAF := Leaf([], 0, EMPTY)

  /** The pieces below a node, in order. */
  function RowsOf(t: Tree): seq<Piece> {
    if t.Leaf? then t.rows else KidRows(t.kids)
  }

  function KidRows(ks: seq<Tree>): seq<Piece> {
    if ks == [] then [] else RowsOf(ks[0]) + KidRows(ks[1..])
  }

  function Nodes(t: Tree): nat {
    if t.Leaf? then 1 else 1 + KidNodes(t.kids)
  }

  function KidNodes(ks: seq<Tree>): nat {
    if ks == [] then 0 else Nodes(ks[0]) + KidNodes(ks[1..])
  }

  function KidCount(ks: seq<Tree>): int {
    if ks == [] then 0 else KidCount(ks[..|ks| - 1]) + ks[|ks| - 1].count
  }

  function KidAgg(ks: seq<Tree>): Aggregate {
    if ks == [] then EMPTY else Combine(KidAgg(ks[..|ks| - 1]), ks[|ks| - 1].agg)
  }

  /** Recompute the cached facts of one node from its items. */
  function Refresh(t: Tree): Tree {
    if t.Leaf? then Leaf(t.rows, |t.rows|, AggRows(t.rows))
    else Inner(t.kids, KidCount(t.kids), KidAgg(t.kids))
  }

  /** The cached facts of this node are those of the pieces below it. */
  ghost predicate Exact(t: Tree) {
    t.count == |RowsOf(t)| && t.agg == AggRows(RowsOf(t)) && NonEmpty(RowsOf(t))
  }

  /**
   Leaves at one depth `h`, at most `f` items per node, exact facts everywhere, no empty node below.
   `least` is the minimum occupancy asked of every node below this one.
   */
  ghost predicate Sound(t: Tree, h: nat, f: nat)
    decreases h
  {
    && Exact(t)
    && t.Size() <= f
    && if t.Leaf? then h == 0 else
      h > 0 && forall i :: 0 <= i < |t.kids| ==> Sound(t.kids[i], h - 1, f)
  }

  /** `Sound`, and this node and all nodes below hold at least `f / 2` items. */
  ghost predicate Full(t: Tree, h: nat, f: nat)
    decreases h
  {
    && Exact(t)
    && f / 2 <= t.Size() <= f
    && if t.Leaf? then h == 0 else AllFullBelow(t, h, f)
  }

  ghost predicate AllFullBelow(t: Tree, h: nat, f: nat)
    requires t.Inner?
    decreases h, 0
  {
    h > 0 && forall i :: 0 <= i < |t.kids| ==> Full(t.kids[i], h - 1, f)
  }

  /** The invariant of the whole tree: `check_invariants` of the code, with the aggregates exact. */
  ghost predicate WellFormed(t: Tree, h: nat, f: nat) {
    && Exact(t)
    && t.Size() <= f
    && if t.Leaf? then h == 0 else |t.kids| >= 2 && AllFullBelow(t, h, f)
  }

  // ----- concatenation ------------------------------------------------------------------------

  lemma {:induction false} KidRowsConcat(a: seq<Tree>, b: seq<Tree>)
    ensures KidRows(a + b) == KidRows(a) + KidRows(b)
    ensures KidNodes(a + b) == KidNodes(a) + KidNodes(b)
  {
    hide *;
    if a == [] {
      assert a + b == b;
      KidsNone();
    } else {
      KidRowsConcat(a[1..], b);
      assert (a + b)[0] == a[0] && (a + b)[1..] == a[1..] + b;
      KidsFirst(a + b);
      KidsFirst(a);
    }
  }

  lemma {:induction false} KidsNone()
    ensures KidRows([]) == [] && KidNodes([]) == 0
  {
  }

  lemma {:induction false} KidsFirst(ks: seq<Tree>)
    requires ks != []
    ensures KidRows(ks) == RowsOf(ks[0]) + KidRows(ks[1..])
    ensures KidNodes(ks) == Nodes(ks[0]) + KidNodes(ks[1..])
  {
  }

  lemma {:induction false} KidRowsOne(t: Tree)
    ensures KidRows([t]) == RowsOf(t) && KidNodes([t]) == Nodes(t)
  {
    hide RowsOf;
    hide Nodes;
    assert [t][1..] == [];
  }

  /** The rows of a child list cut around child `i`. */
  lemma {:induction false} KidRowsAt(ks: seq<Tree>, i: nat)
    requires i < |ks|
    ensures KidRows(ks) == KidRows(ks[..i]) + RowsOf(ks[i]) + KidRows(ks[i + 1..])
    ensures KidNodes(ks) == KidNodes(ks[..i]) + Nodes(ks[i]) + KidNodes(ks[i + 1..])
  {
    hide RowsOf;
    hide Nodes;
    hide KidRows;
    hide KidNodes;
    assert ks == ks[..i] + ([ks[i]] + ks[i + 1..]);
    KidRowsConcat(ks[..i], [ks[i]] + ks[i + 1..]);
    KidRowsConcat([ks[i]], ks[i + 1..]);
    KidRowsOne(ks[i]);
  }

  lemma {:induction false} KidRowsUpdate(ks: seq<Tree>, i: nat, t: Tree)
    requires i < |ks|
    ensures KidRows(ks[i := t]) == KidRows(ks[..i]) + RowsOf(t) + KidRows(ks[i + 1..])
    ensures KidNodes(ks[i := t]) == KidNodes(ks) - Nodes(ks[i]) + Nodes(t)
  {
    hide RowsOf;
    hide Nodes;
    hide KidRows;
    hide KidNodes;
    var us := ks[i := t];
    KidRowsAt(us, i);
    KidRowsAt(ks, i);
    assert us[..i] == ks[..i] && us[i + 1..] == ks[i + 1..];
  }

  // ----- exactness of Refresh -------------------------------------------------------------------

  lemma {:induction false} KidsExact(ks: seq<Tree>)
    requires forall i :: 0 <= i < |ks| ==> Exact(ks[i])
    ensures KidCount(ks) == |KidRows(ks)| && KidAgg(ks) == AggRows(KidRows(ks)) && NonEmpty(KidRows(ks))
  {
    hide RowsOf;
    hide Combine;
    if ks != [] {
      var n := |ks| - 1;
      KidsExact(ks[..n]);
      assert ks == ks[..n] + [ks[n]];
      KidRowsConcat(ks[..n], [ks[n]]);
      KidRowsOne(ks[n]);
      AggRowsConcat(KidRows(ks[..n]), RowsOf(ks[n]));
    }
  }

  lemma {:induction false} RefreshExact(t: Tree)
    requires t.Leaf? ==> NonEmpty(t.rows)
    requires t.Inner? ==> forall i :: 0 <= i < |t.kids| ==> Exact(t.kids[i])
    ensures Exact(Refresh(t)) && RowsOf(Refresh(t)) == RowsOf(t)
  {
    hide AggRows;
    hide KidAgg;
    hide KidCount;
    if t.Inner? {
      KidsExact(t.kids);
    }
  }

  // ----- rebalancing two neighbours ---------------------------------------------------------------

  /** One merged node out of two neighbours. */
  function Absorb(l: Tree, r: Tree): Tree
    requires l.Leaf? <==> r.Leaf?
  {
    if l.Leaf? then Refresh(Leaf(l.rows + r.rows, 0, EMPTY)) else Refresh(Inner(l.kids + r.kids, 0, EMPTY))
  }

  /** Where the items of two neighbours end up being cut when items move from the larger to the smaller. */
  function EvenCut(l: nat, r: nat): nat {
    if l + 1 < r then (l + r) / 2 else if r + 1 < l then l + r - (l + r) / 2 else l
  }

  /** The neighbours after items moved over one by one until the sizes differ by at most one. */
  function Evened(l: Tree, r: Tree): (Tree, Tree)
    requires l.Leaf? <==> r.Leaf?
  {
    var m := EvenCut(l.Size(), r.Size());
    if m == l.Size() then (l, r)
    else if l.Leaf? then
      var all := l.rows + r.rows;
      (Refresh(Leaf(all[..m], 0, EMPTY)), Refresh(Leaf(all[m..], 0, EMPTY)))
    else
      var all := l.kids + r.kids;
      (Refresh(Inner(all[..m], 0, EMPTY)), Refresh(Inner(all[m..], 0, EMPTY)))
  }

  lemma {:induction false} EvenedIs(x: Tree, y: Tree, m: nat, rows: seq<Piece>, kids: seq<Tree>)
    requires x.Leaf? <==> y.Leaf?
    requires m == EvenCut(x.Size(), y.Size())
    requires x.Leaf? ==> rows == x.rows + y.rows
    requires x.Inner? ==> kids == x.kids + y.kids
    ensures m <= x.Size() + y.Size()
    ensures Evened(x, y) ==
            if m == x.Size() then (x, y)
            else if x.Leaf? then (Refresh(Leaf(rows[..m], 0, EMPTY)), Refresh(Leaf(rows[m..], 0, EMPTY)))
            else (Refresh(Inner(kids[..m], 0, EMPTY)), Refresh(Inner(kids[m..], 0, EMPTY)))
  {
    hide Refresh;
  }

  function LeftOf(i: nat): nat {
    if i > 0 then i - 1 else i
  }

  /** `_rebalance` of child `i` with its left neighbour (the right one for the first child). */
  function Rebalanced(ks: seq<Tree>, i: nat, f: nat): seq<Tree>
    requires |ks| >= 2 && i < |ks|
    requires ks[LeftOf(i)].Leaf? <==> ks[LeftOf(i) + 1].Leaf?
  {
    var n := LeftOf(i);
    var l, r := ks[n], ks[n + 1];
    if l.Size() + r.Size() <= f then ks[..n] + [Absorb(l, r)] + ks[n + 2..]
    else ks[..n] + [Evened(l, r).0, Evened(l, r).1] + ks[n + 2..]
  }

  lemma {:induction false} RebalancedIs(ks: seq<Tree>, i: nat, f: nat)
    requires |ks| >= 2 && i < |ks|
    requires ks[LeftOf(i)].Leaf? <==> ks[LeftOf(i) + 1].Leaf?
    ensures var n := LeftOf(i);
            var l, r := ks[n], ks[n + 1];
            Rebalanced(ks, i, f) == if l.Size() + r.Size() <= f then ks[..n] + [Absorb(l, r)] + ks[n + 2..]
                                    else ks[..n] + [Evened(l, r).0, Evened(l, r).1] + ks[n + 2..]
  {
    hide Absorb;
    hide Evened;
  }

  // ----- repair after a range deletion -------------------------------------------------------------

  /** A node as a finished repair leaves it: only a node with a single child may be thin below. */
  ghost predicate Repaired(t: Tree, h: nat, f: nat)
    decreases h
  {
    && Exact(t)
    && 1 <= t.Size() <= f
    && if t.Leaf? then h == 0 else
      && h > 0
      && (forall i :: 0 <= i < |t.kids| ==> Repaired(t.kids[i], h - 1, f))
      && (|t.kids| == 1 || forall i :: 0 <= i < |t.kids| ==> f / 2 <= t.kids[i].Size())
  }

  ghost predicate AllRepaired(ks: seq<Tree>, h: nat, f: nat) {
    forall i :: 0 <= i < |ks| ==> Repaired(ks[i], h, f)
  }

  /** A node whose children are repaired but which may still have to be repaired itself. */
  ghost predicate Ready(t: Tree, h: nat, f: nat) {
    && 1 <= t.Size() <= f
    && if t.Leaf? then h == 0 && Exact(t) else h > 0 && AllRepaired(t.kids, h - 1, f)
  }

  function Deficient(ks: seq<Tree>, f: nat): nat {
    if ks == [] then 0 else (if ks[0].Size() < f / 2 then 1 else 0) + Deficient(ks[1..], f)
  }

  lemma {:induction false} DeficientConcat(a: seq<Tree>, b: seq<Tree>, f: nat)
    ensures Deficient(a + b, f) == Deficient(a, f) + Deficient(b, f)
  {
    if a == [] {
      assert a + b == b;
    } else {
      DeficientConcat(a[1..], b, f);
      assert (a + b)[0] == a[0] && (a + b)[1..] == a[1..] + b;
    }
  }

  /** Replacing two adjacent children, seen through rows, node counts and deficiency. */
  lemma {:induction false} PairSwap(ks: seq<Tree>, n: nat, mid: seq<Tree>, f: nat)
    requires n + 1 < |ks|
    ensures var us := ks[..n] + mid + ks[n + 2..];
            && KidRows(us) == KidRows(ks[..n]) + KidRows(mid) + KidRows(ks[n + 2..])
            && KidRows(ks) == KidRows(ks[..n]) + (RowsOf(ks[n]) + RowsOf(ks[n + 1])) + KidRows(ks[n + 2..])
            && KidNodes(us) == KidNodes(ks) - Nodes(ks[n]) - Nodes(ks[n + 1]) + KidNodes(mid)
            && Deficient(us, f) == Deficient(ks, f) - Deficient([ks[n], ks[n + 1]], f) + Deficient(mid, f)
  {
    hide *;
    var a, b, p := ks[..n], ks[n + 2..], [ks[n], ks[n + 1]];
    assert ks == a + p + b;
    KidRowsConcat(a, mid);
    KidRowsConcat(a + mid, b);
    KidRowsConcat(a, p);
    KidRowsConcat(a + p, b);
    KidRowsConcat([ks[n]], [ks[n + 1]]);
    assert p == [ks[n]] + [ks[n + 1]];
    KidRowsOne(ks[n]);
    KidRowsOne(ks[n + 1]);
    DeficientConcat(a, mid, f);
    DeficientConcat(a + mid, b, f);
    DeficientConcat(a, p, f);
    DeficientConcat(a + p, b, f);
  }

  lemma {:induction false} RepairedIsReady(t: Tree, h: nat, f: nat)
    requires Repaired(t, h, f)
    ensures Ready(t, h, f)
  {
    hide Exact;
  }

  /** A node over items taken from repaired nodes is ready for its own repair. */
  lemma {:induction false} FreshReady(t: Tree, h: nat, f: nat)
    requires 1 <= t.Size() <= f
    requires if t.Leaf? then h == 0 && NonEmpty(t.rows) else h > 0 && AllRepaired(t.kids, h - 1, f)
    ensures Ready(Refresh(t), h, f) && RowsOf(Refresh(t)) == RowsOf(t) && Nodes(Refresh(t)) == Nodes(t)
    ensures Refresh(t).Size() == t.Size()
  {
    RefreshExact(t);
  }

  lemma {:induction false} AbsorbFacts(l: Tree, r: Tree, h: nat, f: nat)
    requires Repaired(l, h, f) && Repaired(r, h, f) && l.Size() + r.Size() <= f
    ensures var t := Absorb(l, r);
            && Ready(t, h, f)
            && RowsOf(t) == RowsOf(l) + RowsOf(r)
            && Nodes(t) < Nodes(l) + Nodes(r)
  {
    hide AggRows;
    if l.Leaf? {
      FreshReady(Leaf(l.rows + r.rows, 0, EMPTY), h, f);
    } else {
      KidRowsConcat(l.kids, r.kids);
      FreshReady(Inner(l.kids + r.kids, 0, EMPTY), h, f);
    }
  }

  lemma {:induction false} EvenCutFacts(l: nat, r: nat, f: nat)
    requires f >= 4 && 1 <= l <= f && 1 <= r <= f && l + r > f && (l < f / 2 || r < f / 2)
    ensures f / 2 <= EvenCut(l, r) <= f && f / 2 <= l + r - EvenCut(l, r) <= f && EvenCut(l, r) != l
  {
  }

  lemma {:induction false} EvenedFacts(l: Tree, r: Tree, h: nat, f: nat)
    requires f >= 4 && Repaired(l, h, f) && Repaired(r, h, f)
    requires l.Size() + r.Size() > f && (l.Size() < f / 2 || r.Size() < f / 2)
    ensures var (x, y) := Evened(l, r);
            && Ready(x, h, f) && Ready(y, h, f) && f / 2 <= x.Size() && f / 2 <= y.Size()
            && RowsOf(x) + RowsOf(y) == RowsOf(l) + RowsOf(r)
            && Nodes(x) + Nodes(y) == Nodes(l) + Nodes(r)
  {
    hide EvenCut;
    hide Refresh;
    EvenCutFacts(l.Size(), r.Size(), f);
    var m := EvenCut(l.Size(), r.Size());
    if l.Leaf? {
      EvenLeaves(l.rows + r.rows, m, f);
    } else {
      KidRowsConcat(l.kids, r.kids);
      EvenInners(l.kids + r.kids, m, h, f);
    }
  }

  lemma {:induction false} EvenLeaves(all: seq<Piece>, m: nat, f: nat)
    requires NonEmpty(all) && 1 <= m <= f && 1 <= |all| - m <= f
    ensures var x, y := Refresh(Leaf(all[..m], 0, EMPTY)), Refresh(Leaf(all[m..], 0, EMPTY));
            && Ready(x, 0, f) && Ready(y, 0, f) && x.Size() == m && y.Size() == |all| - m
            && RowsOf(x) + RowsOf(y) == all && Nodes(x) == Nodes(y) == 1
  {
    hide Refresh;
    hide AggRows;
    FreshReady(Leaf(all[..m], 0, EMPTY), 0, f);
    FreshReady(Leaf(all[m..], 0, EMPTY), 0, f);
    assert all[..m] + all[m..] == all;
  }

  lemma {:induction false} EvenInners(all: seq<Tree>, m: nat, h: nat, f: nat)
    requires h > 0 && AllRepaired(all, h - 1, f) && 1 <= m <= f && 1 <= |all| - m <= f
    ensures var x, y := Refresh(Inner(all[..m], 0, EMPTY)), Refresh(Inner(all[m..], 0, EMPTY));
            && Ready(x, h, f) && Ready(y, h, f) && x.Size() == m && y.Size() == |all| - m
            && RowsOf(x) + RowsOf(y) == KidRows(all) && Nodes(x) + Nodes(y) == 2 + KidNodes(all)
  {
    hide Refresh;
    hide Repaired;
    hide KidRows;
    hide KidNodes;
    KidRowsConcat(all[..m], all[m..]);
    assert all[..m] + all[m..] == all;
    FreshReady(Inner(all[..m], 0, EMPTY), h, f);
    FreshReady(Inner(all[m..], 0, EMPTY), h, f);
  }

  /** What one rebalance of a thin child does: fewer nodes, or equally many and one thin child less. */
  lemma {:induction false} RebalancedFacts(ks: seq<Tree>, i: nat, h: nat, f: nat)
    requires f >= 4 && |ks| >= 2 && i < |ks| && AllRepaired(ks, h, f) && ks[i].Size() < f / 2
    ensures ks[LeftOf(i)].Leaf? <==> ks[LeftOf(i) + 1].Leaf?
    ensures var n, us := LeftOf(i), Rebalanced(ks, i, f);
            && |ks| - 1 <= |us| <= |ks|
            && KidRows(us) == KidRows(ks)
            && (forall j :: 0 <= j < |us| && j != n && j != n + 1 ==> Repaired(us[j], h, f))
            && Ready(us[n], h, f)
            && (n + 1 < |us| ==> Ready(us[n + 1], h, f))
            && (|us| < |ks| ==> KidNodes(us) < KidNodes(ks))
            && (|us| == |ks| ==>
                && KidNodes(us) == KidNodes(ks) && Deficient(us, f) < Deficient(ks, f)
                && f / 2 <= us[n].Size() && f / 2 <= us[n + 1].Size())
  {
    hide Exact;
    hide RowsOf;
    hide KidRows;
    hide KidNodes;
    hide Nodes;
    hide Absorb;
    hide Evened;
    hide Deficient;
    var n := LeftOf(i);
    var l, r := ks[n], ks[n + 1];
    assert Repaired(l, h, f) && Repaired(r, h, f);
    if l.Size() + r.Size() <= f {
      AbsorbFacts(l, r, h, f);
      PairSwap(ks, n, [Absorb(l, r)], f);
      OthersStay(ks, n, [Absorb(l, r)], h, f);
      KidRowsOne(Absorb(l, r));
      if n + 2 < |ks| {
        RepairedIsReady(ks[n + 2], h, f);
      }
    } else {
      EvenedFacts(l, r, h, f);
      var (x, y) := Evened(l, r);
      PairSwap(ks, n, [x, y], f);
      OthersStay(ks, n, [x, y], h, f);
      KidRowsOne(x);
      KidRowsOne(y);
      assert [x, y] == [x] + [y];
      KidRowsConcat([x], [y]);
      TwoDeficient(l, r, f);
      TwoDeficient(x, y, f);
    }
  }

  /** The children beside a pair stay repaired when the pair is replaced. */
  lemma {:induction false} OthersStay(ks: seq<Tree>, n: nat, mid: seq<Tree>, h: nat, f: nat)
    requires n + 2 <= |ks| && AllRepaired(ks, h, f) && 1 <= |mid| <= 2
    ensures var us := ks[..n] + mid + ks[n + 2..];
            forall j :: 0 <= j < |us| && j != n && j != n + 1 ==> Repaired(us[j], h, f)
  {
    hide Repaired;
    var us := ks[..n] + mid + ks[n + 2..];
    forall j | 0 <= j < |us| && j != n && j != n + 1
      ensures Repaired(us[j], h, f)
    {
      assert us[j] == ks[if j < n then j else j + 2 - |mid|];
    }
  }

  lemma {:induction false} TwoDeficient(l: Tree, r: Tree, f: nat)
    ensures Deficient([l, r], f) == (if l.Size() < f / 2 then 1 else 0) + if r.Size() < f / 2 then 1 else 0
  {
    assert [l, r][1..] == [r] && [r][1..] == [];
    assert Deficient([r], f) == if r.Size() < f / 2 then 1 else 0;
  }

  /** `_repair_children` of one node, then `refresh`. */
  function Repair(t: Tree, h: nat, f: nat): (r: Tree)
    requires f >= 4 && Ready(t, h, f)
    ensures Repaired(r, h, f) && RowsOf(r) == RowsOf(t)
    ensures Nodes(r) <= Nodes(t) && (Nodes(r) == Nodes(t) ==> r.Size() == t.Size())
    decreases 2 * h, 0, 0, 0
  {
    if t.Leaf? then t else
    var ks := Settle(t.kids, h - 1, 0, f);
    RefreshExact(Inner(ks, 0, EMPTY));
    Refresh(Inner(ks, 0, EMPTY))
  }

  /** Repair child `j` when there is one. */
  function RepairAt(ks: seq<Tree>, j: nat, h: nat, f: nat): (us: seq<Tree>)
    requires f >= 4 && (j < |ks| ==> Ready(ks[j], h, f))
    ensures |us| == |ks| && KidRows(us) == KidRows(ks)
    ensures KidNodes(us) <= KidNodes(ks)
    ensures j < |ks| ==> us == ks[j := us[j]] && Repaired(us[j], h, f)
    ensures KidNodes(us) == KidNodes(ks) ==> Deficient(us, f) == Deficient(ks, f)
    ensures j >= |ks| ==> us == ks
    decreases 2 * h, 1, 0, 0
  {
    if j < |ks| then
      var t := Repair(ks[j], h, f);
      RepairAtFacts(ks, j, t, f);
      ks[j := t]
    else ks
  }

  lemma {:induction false} RepairAtFacts(ks: seq<Tree>, j: nat, t: Tree, f: nat)
    requires j < |ks| && RowsOf(t) == RowsOf(ks[j])
    ensures KidRows(ks[j := t]) == KidRows(ks)
    ensures KidNodes(ks[j := t]) == KidNodes(ks) - Nodes(ks[j]) + Nodes(t)
    ensures t.Size() == ks[j].Size() ==> Deficient(ks[j := t], f) == Deficient(ks, f)
  {
    hide *;
    KidRowsAt(ks, j);
    KidRowsUpdate(ks, j, t);
    if t.Size() == ks[j].Size() {
      DeficientUpdate(ks, j, t, f);
    }
  }

  lemma {:induction false} DeficientUpdate(ks: seq<Tree>, j: nat, t: Tree, f: nat)
    requires j < |ks| && t.Size() == ks[j].Size()
    ensures Deficient(ks[j := t], f) == Deficient(ks, f)
  {
    if j > 0 {
      assert ks[j := t][1..] == ks[1..][j - 1 := t];
      DeficientUpdate(ks[1..], j - 1, t, f);
    } else {
      assert ks[j := t][1..] == ks[1..];
    }
  }

  /** One round of the repair loop makes progress: fewer nodes, or as many and fewer thin children. */
  lemma {:induction false} RoundFacts(ks: seq<Tree>, i: nat, us: seq<Tree>, vs: seq<Tree>, ws: seq<Tree>, h: nat, f: nat)
    requires f >= 4 && |ks| >= 2 && i < |ks| && AllRepaired(ks, h, f) && ks[i].Size() < f / 2
    requires ks[LeftOf(i)].Leaf? <==> ks[LeftOf(i) + 1].Leaf?
    requires us == Rebalanced(ks, i, f)
    requires LeftOf(i) < |us| == |vs| == |ws|
    requires vs == us[LeftOf(i) := vs[LeftOf(i)]] && Repaired(vs[LeftOf(i)], h, f)
    requires LeftOf(i) + 1 < |us| ==> ws == vs[LeftOf(i) + 1 := ws[LeftOf(i) + 1]] && Repaired(ws[LeftOf(i) + 1], h, f)
    requires LeftOf(i) + 1 >= |us| ==> ws == vs
    requires KidNodes(ws) <= KidNodes(vs) <= KidNodes(us)
    requires KidNodes(ws) == KidNodes(us) ==> Deficient(ws, f) == Deficient(us, f)
    ensures AllRepaired(ws, h, f) && |ws| <= |ks| && KidRows(us) == KidRows(ks)
    ensures KidNodes(ws) < KidNodes(ks) || (KidNodes(ws) == KidNodes(ks) && |ws| == |ks| && Deficient(ws, f) < Deficient(ks, f))
  {
    RebalancedFacts(ks, i, h, f);
    hide *;
    hide Rebalanced;
    forall j | 0 <= j < |ws|
      ensures Repaired(ws[j], h, f)
    {
      if j != LeftOf(i) && j != LeftOf(i) + 1 {
        assert ws[j] == us[j];
      }
    }
  }

  /** One round: rebalance the thin child `i`, then repair the two nodes this touched. */
  function Round(ks: seq<Tree>, h: nat, i: nat, f: nat): (ws: seq<Tree>)
    requires f >= 4 && |ks| >= 2 && i < |ks| && AllRepaired(ks, h, f) && ks[i].Size() < f / 2
    ensures AllRepaired(ws, h, f) && 1 <= |ws| <= |ks| && KidRows(ws) == KidRows(ks)
    ensures KidNodes(ws) < KidNodes(ks) || (KidNodes(ws) == KidNodes(ks) && |ws| == |ks| && Deficient(ws, f) < Deficient(ks, f))
    decreases 2 * h, 2, 0, 0
  {
    RebalancedFacts(ks, i, h, f);
    var n, us := LeftOf(i), Rebalanced(ks, i, f);
    var vs := RepairAt(us, n, h, f);
    var ws := RepairAt(vs, n + 1, h, f);
    RoundFacts(ks, i, us, vs, ws, h, f);
    ws
  }

  /**
   The repair loop from child `i` on: rebalance the first thin child, repair the two nodes it touched,
   start over; stop when no child is thin or only one child is left.
   */
  function Settle(ks: seq<Tree>, h: nat, i: nat, f: nat): (us: seq<Tree>)
    requires f >= 4 && 1 <= |ks| && i <= |ks| && AllRepaired(ks, h, f)
    requires forall j :: 0 <= j < i ==> f / 2 <= ks[j].Size()
    ensures AllRepaired(us, h, f) && 1 <= |us| <= |ks|
    ensures |us| == 1 || forall j :: 0 <= j < |us| ==> f / 2 <= us[j].Size()
    ensures KidRows(us) == KidRows(ks)
    ensures KidNodes(us) <= KidNodes(ks) && (KidNodes(us) == KidNodes(ks) ==> |us| == |ks|)
    decreases 2 * h + 1, KidNodes(ks), Deficient(ks, f), |ks| - i
  {
    if i < |ks| && |ks| > 1 then
      if ks[i].Size() >= f / 2 then Settle(ks, h, i + 1, f)
      else
        Settle(Round(ks, h, i, f), h, 0, f)
    else ks
  }

  // ----- one step of the repair, for the methods that perform it --------------------------------------

  lemma {:induction false} ReadyKids(ks: seq<Tree>, h: nat, f: nat)
    requires Ready(Inner(ks, 0, EMPTY), h, f)
    ensures h > 0 && 1 <= |ks| && AllRepaired(ks, h - 1, f)
  {
  }

  lemma {:induction false} SettleUnfold(ks: seq<Tree>, h: nat, i: nat, f: nat)
    requires f >= 4 && 1 <= |ks| && i <= |ks| && AllRepaired(ks, h, f)
    requires forall j :: 0 <= j < i ==> f / 2 <= ks[j].Size()
    ensures i >= |ks| || |ks| == 1 ==> Settle(ks, h, i, f) == ks
    ensures i < |ks| && |ks| > 1 && ks[i].Size() >= f / 2 ==> Settle(ks, h, i, f) == Settle(ks, h, i + 1, f)
    ensures i < |ks| && |ks| > 1 && ks[i].Size() < f / 2 ==> Settle(ks, h, i, f) == Settle(Round(ks, h, i, f), h, 0, f)
  {
    hide Round;
    hide Repaired;
  }

  lemma {:induction false} RoundUnfold(ks: seq<Tree>, h: nat, i: nat, f: nat)
    requires f >= 4 && |ks| >= 2 && i < |ks| && AllRepaired(ks, h, f) && ks[i].Size() < f / 2
    ensures ks[LeftOf(i)].Leaf? <==> ks[LeftOf(i) + 1].Leaf?
    ensures var n, us := LeftOf(i), Rebalanced(ks, i, f);
            && Ready(us[n], h, f)
            && var vs := RepairAt(us, n, h, f);
               (n + 1 < |vs| ==> Ready(vs[n + 1], h, f)) && Round(ks, h, i, f) == RepairAt(vs, n + 1, h, f)
  {
    hide RepairAt;
    hide Rebalanced;
    RebalancedFacts(ks, i, h, f);
  }

  lemma {:induction false} RepairAtIs(ks: seq<Tree>, j: nat, h: nat, f: nat)
    requires f >= 4 && (j < |ks| ==> Ready(ks[j], h, f))
    ensures RepairAt(ks, j, h, f) == if j < |ks| then ks[j := Repair(ks[j], h, f)] else ks
  {
    hide Repair;
  }

  lemma {:induction false} RepairLeaf(t: Tree, h: nat, f: nat)
    requires f >= 4 && Ready(t, h, f)
    ensures t.Leaf? ==> Repair(t, h, f) == t
  {
  }

  /** A repair recomputes the facts of the node, whatever they were. */
  lemma {:induction false} RepairIgnores(t: Tree, h: nat, f: nat)
    requires f >= 4 && Ready(t, h, f) && t.Inner?
    ensures Ready(Inner(t.kids, 0, EMPTY), h, f) && Repair(t, h, f) == Repair(Inner(t.kids, 0, EMPTY), h, f)
  {
    hide Settle;
  }

  lemma {:induction false} RepairIs(ks: seq<Tree>, h: nat, f: nat, n: int, g: Aggregate)
    requires f >= 4 && Ready(Inner(ks, 0, EMPTY), h, f)
    ensures h > 0 && 1 <= |ks| && AllRepaired(ks, h - 1, f)
    ensures Repair(Inner(ks, 0, EMPTY), h, f) == Refresh(Inner(Settle(ks, h - 1, 0, f), n, g))
  {
    hide Settle;
  }
}
