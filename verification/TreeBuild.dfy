/** Building a tree bottom-up from a list of pieces (`from_pieces` in `piece_tree.py`). */
module TreeBuild {
  import opened Rows
  import opened Pieces
  import opened PieceSeq
  import opened TreeShape
  import opened TreeOps
  import opened TreeNode

  // ----- cutting a list into even runs -------------------------------------------------------------------

  function Flat<T>(runs: seq<seq<T>>): seq<T> {
    if runs == [] then [] else Flat(runs[..|runs| - 1]) + runs[|runs| - 1]
  }

  lemma {:induction false} FlatSnoc<T>(runs: seq<seq<T>>, run: seq<T>)
    ensures Flat(runs + [run]) == Flat(runs) + run && Flat<T>([]) == []
  {
    assert (runs + [run])[..|runs|] == runs;
  }

  /** Where run `i` lies in the list. */
  lemma {:induction false} RunAt<T>(runs: seq<seq<T>>, items: seq<T>, i: nat)
    requires Flat(runs) == items && i < |runs|
    ensures var pos := |Flat(runs[..i])|;
            && pos + |runs[i]| <= |items| && items[pos..pos + |runs[i]|] == runs[i] && |Flat(runs[..i + 1])| == pos + |runs[i]|
    decreases |runs|
  {
    var last := |runs| - 1;
    if i < last {
      RunAt(runs[..last], Flat(runs[..last]), i);
      assert runs[..last][..i] == runs[..i] && runs[..last][..i + 1] == runs[..i + 1];
    } else {
      assert runs[..i + 1] == runs;
    }
  }

  /** The fewest runs, of nearly equal size: none above `f`, and with more than one run none below half of it. */
  ghost predicate Even(n: nat, f: nat, count: nat, base: nat, extra: nat) {
    && 0 < count && count * base + extra == n && extra < count
    && (count - 1) * f < n <= count * f
    && 1 <= base && (if extra > 0 then base + 1 else base) <= f
    && (count > 1 ==> f / 2 <= base)
  }

  lemma {:induction false} Divide(n: nat, f: nat)
    requires n > 0 && f >= 4
    ensures var count := (n + f - 1) / f;
            count > 0 && Even(n, f, count, n / count, n % count) && (n > 1 ==> count < n)
  {
    hide *;
    var count := (n + f - 1) / f;
    Ceiling(n, f, count);
    Few(n, f, count);
    Quotient(n, count);
    var base, extra := n / count, n % count;
    Sizes(n, f, count, base, extra);
    if count > 1 {
      Half(n, f, count, base, extra);
    }
    IsEven(n, f, count, base, extra);
  }

  lemma {:induction false} Ceiling(n: nat, f: nat, count: nat)
    requires n > 0 && f >= 4 && count == (n + f - 1) / f
    ensures 0 < count && (count - 1) * f < n <= count * f
  {
    Quotient(n + f - 1, f);
    Times(count - 1, f);
    assert f * count == count * f;
  }

  lemma {:induction false} Sizes(n: nat, f: nat, count: nat, base: nat, extra: nat)
    requires 0 < count <= n <= count * f && n == count * base + extra && extra < count
    ensures 1 <= base && (if extra > 0 then base + 1 else base) <= f
  {
    assert base == 0 ==> count * base == 0;
    GrowIf(count, f, base);
    GrowIf(count, f + 1, base);
    assert count * (f + 1) == count * f + count;
  }

  lemma {:induction false} IsEven(n: nat, f: nat, count: nat, base: nat, extra: nat)
    requires 0 < count && count * base + extra == n && extra < count && (count - 1) * f < n <= count * f
    requires 1 <= base && (if extra > 0 then base + 1 else base) <= f && (count > 1 ==> f / 2 <= base)
    ensures Even(n, f, count, base, extra)
  {
  }

  lemma {:induction false} Quotient(n: nat, d: nat)
    requires d > 0
    ensures n == d * (n / d) + n % d && 0 <= n % d < d
  {
  }

  lemma {:induction false} Times(a: int, f: int)
    ensures (a + 1) * f == a * f + f
  {
  }

  lemma {:induction false} Grow(c: nat, a: nat, b: nat)
    requires a <= b
    ensures c * a <= c * b
  {
  }

  lemma {:induction false} GrowIf(c: nat, a: nat, b: nat)
    ensures a <= b ==> c * a <= c * b
  {
    if a <= b {
      Grow(c, a, b);
    }
  }

  lemma {:induction false} Few(n: nat, f: nat, count: nat)
    requires f >= 4 && count > 0 && (count - 1) * f < n
    ensures count <= n && (n > 1 ==> count < n)
  {
    assert (count - 1) * f >= (count - 1) * 4;
  }

  lemma {:induction false} Half(n: nat, f: nat, count: nat, base: nat, extra: nat)
    requires f >= 4 && count > 1 && (count - 1) * f < n && n == count * base + extra && extra < count
    ensures f / 2 <= base
  {
    var h := f / 2;
    assert count * (base + 1) == count * base + count;
    GrowIf(count, base + 1, h);
    assert 2 * (count * h) == count * (2 * h);
    Grow(count, 2 * h, f);
    assert (count - 1) * f == count * f - f;
    Grow(f, 2, count);
    assert f * count == count * f;
  }

  /** `_split_even`. */
  method SplitEven<T>(items: seq<T>, f: nat) returns (runs: seq<seq<T>>)
    requires items != [] && f >= 4
    ensures Flat(runs) == items && runs != []
    ensures (|runs| - 1) * f < |items| <= |runs| * f
    ensures forall i :: 0 <= i < |runs| ==> 1 <= |runs[i]| <= f && (|runs| > 1 ==> f / 2 <= |runs[i]|)
    ensures forall i, j :: 0 <= i < j < |runs| ==> |runs[j]| <= |runs[i]| <= |runs[j]| + 1
    ensures |items| > 1 ==> |runs| < |items|
  {
    hide *;
    var n := |items|;
    var count := (n + f - 1) / f;
    Divide(n, f);
    var base, extra := n / count, n % count;
    EvenIs(n, f, count, base, extra);
    runs := [];
    var pos, i := 0, 0;
    FlatSnoc<T>([], []);
    PlaceFacts(0, count, base, extra);
    while i < count
      invariant 0 <= i <= count && |runs| == i && pos == Place(i, base, extra) <= n
      invariant Flat(runs) == items[..pos]
      invariant forall k :: 0 <= k < i ==> |runs[k]| == base + if k < extra then 1 else 0
    {
      var size := base + if i < extra then 1 else 0;
      PlaceFacts(i, count, base, extra);
      FlatSnoc(runs, items[pos..pos + size]);
      assert items[..pos] + items[pos..pos + size] == items[..pos + size];
      runs := runs + [items[pos..pos + size]];
      pos := pos + size;
      i := i + 1;
    }
    PlaceFacts(count, count, base, extra);
    assert items[..n] == items;
  }

  /** Where run `i` begins. */
  function Place(i: nat, base: nat, extra: nat): nat {
    i * base + if i < extra then i else extra
  }

  lemma {:induction false} PlaceFacts(i: nat, count: nat, base: nat, extra: nat)
    requires i <= count && extra < count
    ensures Place(0, base, extra) == 0 && Place(count, base, extra) == count * base + extra
    ensures i < count ==> Place(i + 1, base, extra) == Place(i, base, extra) + (base + if i < extra then 1 else 0)
    ensures i < count ==> Place(i + 1, base, extra) <= count * base + extra
  {
    Times(i, base);
    if i < count {
      Grow(base, i + 1, count);
      assert base * (i + 1) == (i + 1) * base && base * count == count * base;
    }
  }

  lemma {:induction false} EvenIs(n: nat, f: nat, count: nat, base: nat, extra: nat)
    requires Even(n, f, count, base, extra)
    ensures 0 < count && count * base + extra == n && extra < count && (count - 1) * f < n <= count * f
    ensures 1 <= base && (if extra > 0 then base + 1 else base) <= f && (count > 1 ==> f / 2 <= base)
  {
  }

  // ----- one level of the tree ----------------------------------------------------------------------------

  /** A level of the tree being built: full nodes, or the one that becomes the root. */
  ghost predicate Level(ks: seq<Tree>, h: nat, f: nat, rows: seq<Piece>) {
    ks != [] && KidRows(ks) == rows && (if |ks| > 1 then AllFull(ks, h, f) else WellFormed(ks[0], h, f))
  }

  lemma {:induction false} LeafMade(rows: seq<Piece>, f: nat)
    requires NonEmpty(rows) && |rows| <= f
    ensures var t := Refresh(Leaf(rows, 0, EMPTY));
            WellFormed(t, 0, f) && RowsOf(t) == rows && (f / 2 <= |rows| ==> Full(t, 0, f))
  {
    hide AggRows;
    RefreshExact(Leaf(rows, 0, EMPTY));
  }

  lemma {:induction false} InnerMade(ks: seq<Tree>, h: nat, f: nat)
    requires AllFull(ks, h, f) && |ks| <= f
    ensures var t := Refresh(Inner(ks, 0, EMPTY));
            RowsOf(t) == KidRows(ks) && (|ks| >= 2 ==> WellFormed(t, h + 1, f)) && (f / 2 <= |ks| ==> Full(t, h + 1, f))
  {
    hide KidRows;
    hide AggRows;
    hide KidCount;
    hide KidAgg;
    forall i | 0 <= i < |ks|
      ensures Exact(ks[i])
    {
      assert Full(ks[i], h, f);
    }
    RefreshExact(Inner(ks, 0, EMPTY));
  }

  lemma {:induction false} FullSnoc(ks: seq<Tree>, t: Tree, h: nat, f: nat)
    requires AllFull(ks, h, f) && Full(t, h, f)
    ensures AllFull(ks + [t], h, f)
  {
    hide Full;
  }

  lemma {:induction false} FullSlice(ks: seq<Tree>, low: nat, high: nat, h: nat, f: nat)
    requires AllFull(ks, h, f) && low <= high <= |ks|
    ensures AllFull(ks[low..high], h, f)
  {
    hide Full;
  }

  lemma {:induction false} RowsSnoc(ks: seq<Tree>, t: Tree)
    ensures KidRows(ks + [t]) == KidRows(ks) + RowsOf(t)
  {
    hide *;
    KidRowsConcat(ks, [t]);
    KidRowsOne(t);
  }

  lemma {:induction false} NoneFull(h: nat, f: nat)
    ensures AllFull([], h, f) && KidRows([]) == []
  {
  }

  lemma {:induction false} LevelIs(ks: seq<Tree>, h: nat, f: nat, rows: seq<Piece>)
    ensures Level(ks, h, f, rows) <==>
              ks != [] && KidRows(ks) == rows && (if |ks| > 1 then AllFull(ks, h, f) else WellFormed(ks[0], h, f))
  {
    hide AllFull;
    hide WellFormed;
    hide KidRows;
  }

  lemma {:induction false} NonEmptySlice(rows: seq<Piece>, low: nat, high: nat)
    requires NonEmpty(rows) && low <= high <= |rows|
    ensures NonEmpty(rows[low..high])
  {
  }

  method NewLeaf(rows: seq<Piece>) returns (leaf: Node)
    ensures fresh(leaf) && leaf.Repr == {leaf} && leaf.h == 0 && leaf.Valid() && leaf.shape == Refresh(Leaf(rows, 0, EMPTY))
  {
    hide *;
    leaf := new Node.LeafOf(rows);
    leaf.Open();
    leaf.FreshIs();
    Node.FreshUnfold(leaf.isLeaf, leaf.rows, Node.Shapes(leaf.kids));
    leaf.Refresh();
  }

  method NewInner(kids: seq<Node>, ghost h: nat) returns (node: Node)
    requires Node.Forest(kids, h)
    ensures fresh(node) && node.Repr == {node} + Node.Below(kids) && node.h == h + 1 && node.Valid()
    ensures node.shape == Refresh(Inner(Node.Shapes(kids), 0, EMPTY))
  {
    hide *;
    node := new Node.InnerOf(kids, h + 1, Node.Below(kids));
    node.Open();
    node.FreshIs();
    Node.FreshUnfold(node.isLeaf, node.rows, Node.Shapes(node.kids));
    node.Refresh();
  }

  /** The leaves over the runs of `rows`. */
  method BuildLeaves(rows: seq<Piece>, f: nat) returns (level: seq<Node>)
    requires f >= 4 && rows != [] && NonEmpty(rows)
    ensures Node.Forest(level, 0) && fresh(Node.Below(level)) && |Node.Shapes(level)| == |level| <= |rows|
    ensures Level(Node.Shapes(level), 0, f, rows)
  {
    hide *;
    var runs := SplitEven(rows, f);
    level := [];
    Node.BelowNone();
    Node.ForestNone(0);
    assert Node.Below([]) == {};
    NoneFull(0, f);
    FlatSnoc<Piece>([], []);
    assert runs[..0] == [];
    var i := 0;
    ghost var pos, repr: set<Node> := 0, {};
    while i < |runs|
      invariant 0 <= i == |level| <= |runs| && pos == |Flat(runs[..i])| <= |rows|
      invariant Node.Forest(level, 0) && Node.Below(level) == repr && fresh(repr) && |Node.Shapes(level)| == i
      invariant KidRows(Node.Shapes(level)) == rows[..pos]
      invariant if |runs| > 1 then AllFull(Node.Shapes(level), 0, f) else i == 1 ==> WellFormed(Node.Shapes(level)[0], 0, f)
    {
      RunAt(runs, rows, i);
      NonEmptySlice(rows, pos, pos + |runs[i]|);
      LeafMade(runs[i], f);
      var leaf := NewLeaf(runs[i]);
      Node.ForestOne(leaf);
      Node.ForestJoin(level, [leaf], 0);
      RowsSnoc(Node.Shapes(level), leaf.shape);
      if |runs| > 1 {
        FullSnoc(Node.Shapes(level), leaf.shape, 0, f);
      }
      assert rows[..pos] + runs[i] == rows[..pos + |runs[i]|];
      level, repr := level + [leaf], repr + {leaf};
      pos := pos + |runs[i]|;
      i := i + 1;
    }
    assert runs[..i] == runs && rows[..pos] == rows;
    LevelIs(Node.Shapes(level), 0, f, rows);
  }

  /** The first nodes of `rest` become the children of a new node behind `next`. */
  method TakeRun(next: seq<Node>, run: seq<Node>, ghost rest: seq<Node>, ghost h: nat, ghost made: set<Node>, ghost left: set<Node>)
      returns (node: Node, ghost later: set<Node>)
    requires Node.Forest(next, h + 1) && Node.Below(next) == made && Node.Forest(rest, h) && Node.Below(rest) == left && made !! left
    requires |run| <= |rest| && run == rest[..|run|]
    ensures Node.Forest(next + [node], h + 1) && Node.Below(next + [node]) == made + node.Repr
    ensures Node.Shapes(next + [node]) == Node.Shapes(next) + [node.shape]
    ensures node.shape == Refresh(Inner(Node.Shapes(rest)[..|run|], 0, EMPTY))
    ensures Node.Forest(rest[|run|..], h) && Node.Below(rest[|run|..]) == later && Node.Shapes(rest[|run|..]) == Node.Shapes(rest)[|run|..]
    ensures made + node.Repr !! later && later <= left && forall o :: o in node.Repr ==> o in left || fresh(o)
    ensures Node.Shapes(next) == old(Node.Shapes(next)) && Node.Shapes(rest) == old(Node.Shapes(rest))
  {
    hide *;
    Node.ForestCut(rest, |run|, h);
    later := Node.Below(rest[|run|..]);
    node := NewInner(run, h);
    Node.ForestOne(node);
    Node.ForestJoin(next, [node], h + 1);
  }

  /** The nodes over the runs of a level. */
  method BuildInner(level: seq<Node>, ghost h: nat, f: nat, ghost rows: seq<Piece>, ghost all: set<Node>) returns (next: seq<Node>)
    requires f >= 4 && |level| > 1 && Node.Forest(level, h) && Node.Below(level) == all && Level(Node.Shapes(level), h, f, rows) && |Node.Shapes(level)| == |level|
    ensures Node.Forest(next, h + 1) && |Node.Shapes(next)| == |next| < |level|
    ensures forall o :: o in Node.Below(next) ==> o in all || fresh(o)
    ensures Level(Node.Shapes(next), h + 1, f, rows)
  {
    hide *;
    LevelIs(Node.Shapes(level), h, f, rows);
    ghost var shapes := Node.Shapes(level);
    var runs := SplitEven(level, f);
    next := [];
    Node.BelowNone();
    Node.ForestNone(h + 1);
    NoneFull(h + 1, f);
    FlatSnoc<Node>([], []);
    FromStart(level, h);
    assert runs[..0] == [] && shapes[0..] == shapes && Node.Below([]) == {};
    assert KidRows([]) + KidRows(shapes) == KidRows(shapes);
    var i := 0;
    ghost var pos, made, left: set<Node> := 0, {}, all;
    while i < |runs|
      invariant 0 <= i == |next| <= |runs| && pos == |Flat(runs[..i])| <= |level| == |shapes|
      invariant Node.Forest(next, h + 1) && Node.Below(next) == made && |Node.Shapes(next)| == i
      invariant Node.Forest(level[pos..], h) && Node.Below(level[pos..]) == left && Node.Shapes(level[pos..]) == shapes[pos..]
      invariant made !! left && left <= all && (forall o :: o in made ==> o in all || fresh(o))
      invariant KidRows(Node.Shapes(next)) + KidRows(shapes[pos..]) == rows
      invariant if |runs| > 1 then AllFull(Node.Shapes(next), h + 1, f) else i == 1 ==> WellFormed(Node.Shapes(next)[0], h + 1, f)
    {
      RunAt(runs, level, i);
      ghost var n := |runs[i]|;
      Parts(level, pos, n);
      Parts(shapes, pos, n);
      OnlyRun(runs, level, i);
      ghost var later: set<Node>;
      var node;
      node, later := TakeRun(next, runs[i], level[pos..], h, made, left);
      StepUp(Node.Shapes(next), node.shape, shapes, pos, n, rows, h, f, |runs| > 1);
      next, made, left := next + [node], made + node.Repr, later;
      pos := pos + n;
      i := i + 1;
    }
    assert runs[..i] == runs && shapes[pos..] == [];
    assert KidRows(Node.Shapes(next)) + [] == KidRows(Node.Shapes(next));
    LevelIs(Node.Shapes(next), h + 1, f, rows);
  }

  /** One more node of the next level. */
  lemma {:induction false} StepUp(next: seq<Tree>, t: Tree, shapes: seq<Tree>, pos: nat, n: nat, rows: seq<Piece>, h: nat, f: nat, several: bool)
    requires f >= 4 && AllFull(shapes, h, f) && pos + n <= |shapes| && 1 <= n <= f
    requires t == Refresh(Inner(shapes[pos..pos + n], 0, EMPTY)) && KidRows(next) + KidRows(shapes[pos..]) == rows
    requires if several then AllFull(next, h + 1, f) && f / 2 <= n else next == [] && n == |shapes| > 1
    ensures KidRows(next + [t]) + KidRows(shapes[pos + n..]) == rows
    ensures if several then AllFull(next + [t], h + 1, f) else WellFormed((next + [t])[0], h + 1, f)
  {
    hide *;
    Parts(shapes, pos, n);
    FullSlice(shapes, pos, pos + n, h, f);
    KidRowsConcat(shapes[pos..pos + n], shapes[pos + n..]);
    InnerMade(shapes[pos..pos + n], h, f);
    RowsSnoc(next, t);
    JoinAssoc(KidRows(next), RowsOf(t), KidRows(shapes[pos + n..]));
    if several {
      FullSnoc(next, t, h + 1, f);
    }
  }

  lemma {:induction false} FromStart(level: seq<Node>, h: nat)
    requires Node.Forest(level, h)
    ensures level[0..] == level && Node.Forest(level[0..], h)
  {
    hide *;
    assert level[0..] == level;
  }

  lemma {:induction false} Parts<T>(s: seq<T>, pos: nat, n: nat)
    requires pos + n <= |s|
    ensures s[pos..][..n] == s[pos..pos + n] && s[pos..][n..] == s[pos + n..]
    ensures s[pos..] == s[pos..pos + n] + s[pos + n..]
  {
  }

  /** A single run is the whole list. */
  lemma {:induction false} OnlyRun<T>(runs: seq<seq<T>>, items: seq<T>, i: nat)
    requires Flat(runs) == items && i < |runs|
    ensures |runs| == 1 ==> |runs[i]| == |items|
  {
    if |runs| == 1 {
      assert runs[..0] == [];
    }
  }

  /** `from_pieces` on a merged list: leaves, then level by level until one node is left. */
  method BuildTree(rows: seq<Piece>, f: nat) returns (root: Node)
    requires f >= 4 && rows != [] && NonEmpty(rows)
    ensures root.Valid() && fresh(root.Repr) && WellFormed(root.shape, root.h, f) && RowsOf(root.shape) == rows
  {
    hide *;
    var level := BuildLeaves(rows, f);
    ghost var h, repr: set<Node> := 0, Node.Below(level);
    LevelIs(Node.Shapes(level), 0, f, rows);
    while |level| > 1
      invariant Node.Forest(level, h) && Node.Below(level) == repr && fresh(repr) && |Node.Shapes(level)| == |level| > 0
      invariant Level(Node.Shapes(level), h, f, rows)
      decreases |level|
    {
      level := BuildInner(level, h, f, rows, repr);
      h := h + 1;
      repr := Node.Below(level);
      LevelIs(Node.Shapes(level), h, f, rows);
    }
    LevelIs(Node.Shapes(level), h, f, rows);
    root := level[0];
    assert level == [root];
    Node.ForestOne(root);
    assert Node.Shapes(level) == [root.shape];
    KidRowsOne(root.shape);
  }

  /** The first loop of `from_pieces`: join contiguous neighbours. */
  method MergeAll(pieces: seq<Piece>, ghost S: Sources) returns (merged: seq<Piece>)
    requires AllTrue(pieces, S)
    ensures AllTrue(merged, S) && Merged(merged) && Addr(merged) == Addr(pieces)
  {
    hide *;
    merged := [];
    NothingMerged(S);
    var i := 0;
    assert pieces[..0] == [];
    while i < |pieces|
      invariant 0 <= i <= |pieces| && AllTrue(merged, S) && Merged(merged) && Addr(merged) == Addr(pieces[..i])
    {
      var p := pieces[i];
      OneTrue(pieces, i, S);
      AppendFacts(merged, p, S);
      AppendedParts(merged, p);
      assert pieces[..i + 1] == pieces[..i] + [p];
      AddrConcat(pieces[..i], [p]);
      Addr1Is(p);
      var joined := if merged != [] then MergePieces(merged[|merged| - 1], p) else None;
      merged := if joined.None? then merged + [p] else merged[..|merged| - 1] + [joined.value];
      i := i + 1;
    }
    assert pieces[..i] == pieces;
  }

  lemma {:induction false} NothingMerged(S: Sources)
    ensures AllTrue([], S) && Merged([]) && Addr([]) == []
  {
  }

  lemma {:induction false} OneTrue(ps: seq<Piece>, i: nat, S: Sources)
    requires AllTrue(ps, S) && i < |ps|
    ensures TruePiece(ps[i], S)
  {
    hide TruePiece;
  }

  lemma {:induction false} AppendedParts(front: seq<Piece>, p: Piece)
    ensures Appended(front, p) ==
            if front != [] && MergePieces(front[|front| - 1], p).Some?
            then front[..|front| - 1] + [MergePieces(front[|front| - 1], p).value] else front + [p]
  {
    hide MergePieces;
  }
}
