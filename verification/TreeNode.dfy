/**
 The nodes of the B+ tree as objects that are changed in place. Every method is proved to turn the
 node's `shape` into what the functions of `TreeShape`, `TreeOps` and `TreeRange` say.
 */
module TreeNode {
  import opened Rows
  import opened Pieces
  import opened TreeShape
  import opened TreeOps
  import opened TreeRange

  class Node {
    const isLeaf: bool
    var rows: seq<Piece>
    var kids: seq<Node>
    var count: int
    var agg: Aggregate

    ghost const h: nat  // leaves have height 0
    ghost var Repr: set<Node>
    ghost var shape: Tree

    /** Everything in and below the given nodes. */
    static ghost function Below(ks: seq<Node>): set<Node>
      reads ks
    {
      set k, o | k in ks && o in k.Repr :: o
    }

    static ghost function Shapes(ks: seq<Node>): seq<Tree>
      reads ks
    {
      seq(|ks|, i requires 0 <= i < |ks| reads ks => ks[i].shape)
    }

    /** Valid nodes of one height that share nothing. */
    static ghost predicate Forest(ks: seq<Node>, height: int)
      reads ks, Below(ks)
      ensures Forest(ks, height) ==> forall k :: k in ks ==> k in Below(ks)
      decreases height, 2
    {
      && (|ks| > 0 ==> height >= 0)
      && (forall i :: 0 <= i < |ks| ==> ks[i].h == height && ks[i].Repr <= Below(ks) && ks[i].Valid())
      && (forall i, j :: 0 <= i < j < |ks| ==> ks[i].Repr !! ks[j].Repr)
    }

    /** The items of this node are in order; its cached facts and `shape` may be stale. */
    ghost predicate Linked()
      reads this, Repr
      decreases h, 0
    {
      && this in Repr
      && (isLeaf <==> h == 0)
      && (if isLeaf then kids == [] else rows == [])
      && (forall k :: k in kids ==> k in Repr)
      && Below(kids) <= Repr && this !in Below(kids)
      && Forest(kids, h - 1)
    }

    /** The value of this node and everything below it. */
    ghost function Value(): Tree
      reads this, kids
    {
      if isLeaf then Leaf(rows, count, agg) else Inner(Shapes(kids), count, agg)
    }

    ghost predicate Valid()
      reads this, Repr
      ensures Valid() ==> this in Repr
      decreases h, 1
    {
      Linked() && shape == Value()
    }

    // ----- forests --------------------------------------------------------------------------------

    static lemma {:induction false} ForestCut(ks: seq<Node>, m: nat, height: int)
      requires m <= |ks| && Forest(ks, height)
      ensures Forest(ks[..m], height) && Forest(ks[m..], height)
      ensures Below(ks) == Below(ks[..m]) + Below(ks[m..]) && Below(ks[..m]) !! Below(ks[m..])
      ensures Shapes(ks[..m]) == Shapes(ks)[..m] && Shapes(ks[m..]) == Shapes(ks)[m..]
    {
      hide Node.Valid;
      hide Below;
      BelowCut(ks, m);
      forall i | 0 <= i < |ks[m..]|
        ensures ks[m..][i].h == height && ks[m..][i].Repr <= Below(ks[m..]) && ks[m..][i].Valid()
      {
        assert ks[m..][i] == ks[m + i];
      }
    }

    static lemma {:induction false} BelowCut(ks: seq<Node>, m: nat)
      requires m <= |ks| && forall i, j :: 0 <= i < j < |ks| ==> ks[i].Repr !! ks[j].Repr
      ensures Below(ks) == Below(ks[..m]) + Below(ks[m..]) && Below(ks[..m]) !! Below(ks[m..])
      ensures forall i :: 0 <= i < m ==> ks[i].Repr <= Below(ks[..m])
      ensures forall i :: m <= i < |ks| ==> ks[i].Repr <= Below(ks[m..])
    {
      hide Node.Valid;
      assert ks == ks[..m] + ks[m..];
      BelowJoin(ks[..m], ks[m..]);
      forall o | o in Below(ks[..m])
        ensures o !in Below(ks[m..])
      {
        var i :| 0 <= i < m && o in ks[i].Repr;
        forall j | m <= j < |ks|
          ensures o !in ks[j].Repr
        {
          assert ks[i].Repr !! ks[j].Repr;
        }
      }
    }

    static lemma {:induction false} ForestJoin(a: seq<Node>, b: seq<Node>, height: int)
      requires Forest(a, height) && Forest(b, height) && Below(a) !! Below(b)
      ensures Forest(a + b, height) && Below(a + b) == Below(a) + Below(b)
      ensures Shapes(a + b) == Shapes(a) + Shapes(b)
    {
      hide Node.Valid;
      hide Below;
      BelowJoin(a, b);
      forall i, j | 0 <= i < j < |a + b|
        ensures (a + b)[i].Repr !! (a + b)[j].Repr
      {
        if i < |a| <= j {
          assert a[i].Repr <= Below(a) && b[j - |a|].Repr <= Below(b);
        }
      }
      forall i | 0 <= i < |a + b|
        ensures (a + b)[i].h == height && (a + b)[i].Repr <= Below(a + b) && (a + b)[i].Valid()
      {
        if i < |a| {
          assert (a + b)[i] == a[i];
        } else {
          assert (a + b)[i] == b[i - |a|];
        }
      }
    }

    static lemma {:induction false} BelowJoin(a: seq<Node>, b: seq<Node>)
      ensures Below(a + b) == Below(a) + Below(b)
    {
      hide Node.Valid;
    }

    static lemma {:induction false} ForestOne(k: Node)
      ensures k.Valid() ==> Forest([k], k.h)
      ensures forall height :: Forest([k], height) ==> k.Valid() && k.h == height
      ensures Below([k]) == k.Repr && Shapes([k]) == [k.shape]
    {
      forall height | Forest([k], height)
        ensures k.Valid() && k.h == height
      {
        assert [k][0] == k;
      }
    }

    /** A forest taken apart around node `i`. */
    static lemma {:induction false} ForestAt(ks: seq<Node>, i: nat, height: int)
      requires i < |ks| && Forest(ks, height)
      ensures Forest(ks[..i], height) && ks[i].Valid() && ks[i].h == height && Forest(ks[i + 1..], height)
      ensures Below(ks) == Below(ks[..i]) + ks[i].Repr + Below(ks[i + 1..])
      ensures Below(ks[..i]) !! ks[i].Repr && Below(ks[..i]) !! Below(ks[i + 1..]) && ks[i].Repr !! Below(ks[i + 1..])
      ensures Shapes(ks) == Shapes(ks[..i]) + [ks[i].shape] + Shapes(ks[i + 1..])
      ensures |Shapes(ks)| == |ks| && Shapes(ks)[i] == ks[i].shape
      ensures Shapes(ks[..i]) == Shapes(ks)[..i] && Shapes(ks[i + 1..]) == Shapes(ks)[i + 1..]
      ensures ks[i] in Below(ks)
    {
      hide Forest;
      hide Below;
      hide Node.Valid;
      ForestCut(ks, i, height);
      var t := ks[i..];
      ForestCut(t, 1, height);
      assert t[..1] == [ks[i]] && t[1..] == ks[i + 1..];
      ForestOne(ks[i]);
    }

    /** A forest put together around a node. */
    static lemma {:induction false} ForestPut(a: seq<Node>, k: Node, b: seq<Node>)
      requires Forest(a, k.h) && k.Valid() && Forest(b, k.h)
      requires Below(a) !! k.Repr && Below(a) !! Below(b) && k.Repr !! Below(b)
      ensures Forest(a + [k] + b, k.h)
      ensures Below(a + [k] + b) == Below(a) + k.Repr + Below(b)
      ensures Shapes(a + [k] + b) == Shapes(a) + [k.shape] + Shapes(b)
    {
      hide *;
      ForestOne(k);
      ForestJoin(a, [k], k.h);
      ForestJoin(a + [k], b, k.h);
    }

    // ----- construction -----------------------------------------------------------------------------

    constructor Empty()
      ensures Valid() && isLeaf && h == 0 && shape == NO_LEAF && Repr == {this}
    {
      isLeaf, rows, kids, count, agg := true, [], [], 0, EMPTY;
      h, Repr, shape := 0, {this}, NO_LEAF;
    }

    constructor LeafOf(items: seq<Piece>)
      ensures Linked() && isLeaf && h == 0 && rows == items && Repr == {this}
    {
      isLeaf, rows, kids, count, agg := true, items, [], 0, EMPTY;
      h, Repr, shape := 0, {this}, NO_LEAF;
    }

    constructor InnerOf(items: seq<Node>, ghost height: nat, ghost below: set<Node>)
      requires height > 0 && Forest(items, height - 1) && below == Below(items)
      ensures Linked() && !isLeaf && kids == items && h == height && Repr == {this} + Below(items)
    {
      hide *;
      isLeaf, rows, kids, count, agg := false, [], items, 0, EMPTY;
      h, Repr, shape := height, {this} + below, NO_LEAF;
      new;
      Close();
    }

    function Size(): nat
      reads this
    {
      if isLeaf then |rows| else |kids|
    }

    lemma {:induction false} LinkedWhenValid()
      requires Valid()
      ensures Linked() && shape == Value()
    {
      hide Forest;
      hide Below;
    }

    lemma {:induction false} CloseLeaf()
      requires this in Repr && isLeaf && h == 0 && kids == []
      ensures Linked() && Value() == Leaf(rows, count, agg)
    {
    }

    lemma {:induction false} Open()
      requires Linked()
      ensures this in Repr && (isLeaf <==> h == 0)
      ensures if isLeaf then kids == [] && Value() == Leaf(rows, count, agg)
              else rows == [] && Value() == Inner(Shapes(kids), count, agg)
      ensures Below(kids) <= Repr && this !in Below(kids) && Forest(kids, h - 1) && this !in kids
      ensures Valid() <==> shape == Value()
      ensures |Shapes(kids)| == |kids|
    {
      hide Forest;
      hide Below;
    }

    lemma {:induction false} Close()
      requires this in Repr && !isLeaf && h > 0 && rows == []
      requires Below(kids) <= Repr && this !in Below(kids) && Forest(kids, h - 1)
      ensures Linked() && Value() == Inner(Shapes(kids), count, agg)
    {
      hide Forest;
      hide Below;
    }

    lemma {:induction false} KidCached(i: nat)
      requires Linked() && i < |kids|
      ensures kids[i].Valid() && |Shapes(kids)| == |kids| && Shapes(kids)[i] == kids[i].shape
      ensures kids[i].shape.count == kids[i].count && kids[i].shape.agg == kids[i].agg
      ensures kids[i].shape.Leaf? == kids[i].isLeaf && kids[i].shape.Size() == kids[i].Size()
    {
      hide Below;
    }

    /** `refresh`: recompute count and aggregate from the items. */
    method Refresh()
      requires Linked()
      modifies this`count, this`agg, this`shape
      ensures Valid() && shape == TreeShape.Refresh(old(Value()))
    {
      hide Forest;
      hide Below;
      var total, sum := 0, EMPTY;
      if isLeaf {
        for i := 0 to |rows|
          invariant sum == AggRows(rows[..i])
        {
          sum := Combine(sum, rows[i].Agg());
          assert rows[..i + 1][..i] == rows[..i];
        }
        assert rows[..|rows|] == rows;
        total := |rows|;
      } else {
        ghost var ks := Shapes(kids);
        for i := 0 to |kids|
          invariant sum == KidAgg(ks[..i]) && total == KidCount(ks[..i])
        {
          KidCached(i);
          sum := Combine(sum, kids[i].agg);
          total := total + kids[i].count;
          assert ks[..i + 1][..i] == ks[..i];
        }
        assert ks[..|kids|] == ks;
      }
      count, agg := total, sum;
      shape := Value();
    }

    /** `_child_for`. */
    method ChildFor(index: int, forInsert: bool) returns (i: nat, local: int)
      requires Linked() && !isLeaf && |kids| >= 1
      ensures i < |kids| && (i, local) == TreeOps.ChildFor(Shapes(kids), index, forInsert)
    {
      hide Valid;
      hide Forest;
      hide Below;
      ghost var ks := Shapes(kids);
      var base := 0;
      i := 0;
      while true
        invariant i < |kids|
        invariant TreeOps.ChildFor(ks, index, forInsert)
               == (TreeOps.ChildFor(ks[i..], index - base, forInsert).0 + i, TreeOps.ChildFor(ks[i..], index - base, forInsert).1)
        decreases |kids| - i
      {
        KidCached(i);
        if index < base + kids[i].count || (forInsert && index == base + kids[i].count) || i == |kids| - 1 {
          return i, index - base;
        }
        assert ks[i..][1..] == ks[i + 1..];
        base := base + kids[i].count;
        i := i + 1;
      }
    }

    /** `_replace_at`. */
    method ReplaceAt(index: int, p: Piece, f: nat)
      requires f >= 4 && Valid() && Dense(shape, h, f) && 0 <= index < |RowsOf(shape)| && p.a < p.b
      modifies Repr
      ensures Valid() && Repr == old(Repr) && shape == TreeOps.ReplaceAt(old(shape), index, p)
      decreases h, 1
    {
      hide *;
      LinkedWhenValid();
      Open();
      LeafRows(shape);
      ReplaceUnfold(shape, index, p);
      if isLeaf {
        rows := rows[index := p];
        CloseLeaf();
        FreshIs();
        FreshUnfold(isLeaf, rows, Shapes(kids));
        Refresh();
      } else {
        DenseHasKids(shape, h, f);
        var i, local := ChildFor(index, false);
        ChildTarget(shape, index, false, h, f);
        KidCached(i);
        ReplaceBelow(i, local, p, f);
        Open();
        FreshIs();
        FreshUnfold(isLeaf, rows, Shapes(kids));
        Refresh();
      }
    }

    /** Replace in child `i`; the facts of this node are not refreshed yet. */
    method ReplaceBelow(i: nat, local: int, p: Piece, f: nat)
      requires Linked() && !isLeaf && i < |kids|
      requires f >= 4 && Dense(kids[i].shape, h - 1, f) && 0 <= local < |RowsOf(kids[i].shape)| && p.a < p.b
      modifies Repr
      ensures Linked() && Repr == old(Repr)
      ensures Shapes(kids) == old(Shapes(kids))[i := TreeOps.ReplaceAt(old(kids[i].shape), local, p)]
      decreases h, 0
    {
      hide *;
      Open();
      ForestAt(kids, i, h - 1);
      ghost var ks := Shapes(kids);
      ghost var a, b := kids[..i], kids[i + 1..];
      var c := kids[i];
      c.ReplaceAt(local, p, f);
      ForestPut(a, c, b);
      assert kids == a + [c] + b;
      assert Shapes(kids) == ks[i := c.shape];
      Close();
    }

    /** `split_half` of an inner node. */
    method SplitKids() returns (sib: Node)
      requires Linked() && !isLeaf && |kids| >= 2
      modifies this`kids, this`Repr
      ensures Linked() && sib.Linked() && fresh(sib) && sib.h == h && !sib.isLeaf
      ensures Repr <= old(Repr) && sib.Repr <= old(Repr) + {sib} && Repr !! sib.Repr
      ensures Shapes(kids) == old(Shapes(kids))[..|old(kids)| / 2]
      ensures Shapes(sib.kids) == old(Shapes(kids))[|old(kids)| / 2..]
    {
      hide Forest;
      hide Below;
      hide Shapes;
      hide Valid;
      var mid := |kids| / 2;
      ForestCut(kids, mid, h - 1);
      sib := new Node.InnerOf(kids[mid..], h, Below(kids[mid..]));
      kids := kids[..mid];
      Repr := {this} + Below(kids);
    }

    /** Cut an over-full leaf or inner node into two halves and refresh. */
    method Overflow(f: nat) returns (sib: Node?)
      requires f >= 4 && Linked()
      modifies this
      ensures Valid() && Repr <= old(Repr)
      ensures sib != null ==> fresh(sib) && sib.h == h && sib.Valid() && sib.Repr <= old(Repr) + {sib} && Repr !! sib.Repr
      ensures var r := if isLeaf then OverflowLeaf(old(rows), f) else TreeOps.Overflow(old(Shapes(kids)), f);
              && shape == r.0
              && (sib == null <==> r.1.None?)
              && (sib != null ==> sib.shape == r.1.value)
    {
      hide Forest;
      hide Below;
      sib := null;
      if isLeaf {
        if |rows| > f {
          var mid := |rows| / 2;
          sib := new Node.LeafOf(rows[mid..]);
          rows := rows[..mid];
          sib.Refresh();
        }
      } else if |kids| > f {
        sib := SplitKids();
        sib.Refresh();
      }
      Refresh();
    }

    /** `_insert_into`: returns the new right sibling when this node overflowed. */
    method InsertInto(index: int, p: Piece, f: nat) returns (sib: Node?)
      requires f >= 4 && Valid() && Dense(shape, h, f) && 0 <= index <= |RowsOf(shape)| && p.a < p.b
      modifies Repr
      ensures Valid() && fresh(Repr - old(Repr))
      ensures sib != null ==> sib.h == h && sib.Valid() && fresh(sib.Repr - old(Repr)) && Repr !! sib.Repr
      ensures var r := Insert(old(shape), index, p, f);
              && shape == r.0
              && (sib == null <==> r.1.None?)
              && (sib != null ==> sib.shape == r.1.value)
      decreases h, 1
    {
      hide *;
      LinkedWhenValid();
      Open();
      LeafRows(shape);
      InsertUnfold(shape, index, p, f);
      if isLeaf {
        rows := rows[..index] + [p] + rows[index..];
        CloseLeaf();
        sib := Overflow(f);
      } else {
        DenseHasKids(shape, h, f);
        var i, local := ChildFor(index, true);
        ChildTarget(shape, index, true, h, f);
        KidCached(i);
        ghost var ks := Shapes(kids);
        var extra := InsertBelow(i, local, p, f);
        Open();
        ghost var c := Shapes(kids)[i];
        if extra != null {
          Adopt(i, extra);
          Open();
          assert Shapes(kids) == ks[..i] + [c, extra.shape] + ks[i + 1..];
        }
        assert Insert(ks[i], local, p, f) == (c, if extra == null then None else Some(extra.shape));
        sib := Overflow(f);
      }
    }

    /** Insert into child `i`; the sibling it may return is not a child yet. */
    method InsertBelow(i: nat, local: int, p: Piece, f: nat) returns (extra: Node?)
      requires Linked() && !isLeaf && i < |kids|
      requires f >= 4 && Dense(kids[i].shape, h - 1, f) && 0 <= local <= |RowsOf(kids[i].shape)| && p.a < p.b
      modifies Repr
      ensures Linked() && fresh(Repr - old(Repr)) && |kids| == old(|kids|)
      ensures var (c, s) := Insert(old(kids[i].shape), local, p, f);
              && Shapes(kids) == old(Shapes(kids))[i := c]
              && (extra == null <==> s.None?)
              && (extra != null ==> extra.shape == s.value)
      ensures extra != null ==>
                extra.h == h - 1 && extra.Valid() && fresh(extra.Repr - old(Repr)) && extra.Repr !! Below(kids) && this !in extra.Repr
      decreases h, 0
    {
      hide *;
      Open();
      ForestAt(kids, i, h - 1);
      ghost var ks := Shapes(kids);
      ghost var a, b := kids[..i], kids[i + 1..];
      var c := kids[i];
      extra := c.InsertInto(local, p, f);
      ForestPut(a, c, b);
      assert kids == a + [c] + b;
      Repr := Repr + c.Repr;
      assert Shapes(kids) == ks[i := c.shape];
      Close();
    }

    /** Put a new child behind child `i`. */
    method Adopt(i: nat, extra: Node)
      requires Linked() && !isLeaf && i < |kids|
      requires extra.h == h - 1 && extra.Valid() && extra.Repr !! Below(kids) && this !in extra.Repr
      modifies this`kids, this`Repr
      ensures Linked() && Repr == old(Repr) + extra.Repr
      ensures Shapes(kids) == old(Shapes(kids))[..i + 1] + [extra.shape] + old(Shapes(kids))[i + 1..]
    {
      hide *;
      Open();
      ForestCut(kids, i + 1, h - 1);
      ghost var a, b := kids[..i + 1], kids[i + 1..];
      kids := kids[..i + 1] + [extra] + kids[i + 1..];
      Repr := Repr + extra.Repr;
      ForestPut(a, extra, b);
      Close();
    }

    // ----- rebalancing --------------------------------------------------------------------------

    /** A refreshed node over the given items. */
    static ghost function Fresh(leaf: bool, rows: seq<Piece>, shapes: seq<Tree>): Tree {
      if leaf then TreeShape.Refresh(Leaf(rows, 0, EMPTY)) else TreeShape.Refresh(Inner(shapes, 0, EMPTY))
    }

    lemma {:induction false} FreshIs()
      requires Linked()
      ensures TreeShape.Refresh(Value()) == Fresh(isLeaf, rows, Shapes(kids))
    {
      hide Forest;
      hide Below;
      hide AggRows;
      hide KidAgg;
      hide KidCount;
    }

    /** Two separate nodes of one height. */
    static ghost predicate Pair(left: Node, right: Node)
      reads left, right, left.Repr, right.Repr
    {
      left.Valid() && right.Valid() && left.h == right.h && left.Repr !! right.Repr
    }

    /** `_absorb`: the left node takes over all items of the right one. */
    static method Absorb(left: Node, right: Node)
      requires Pair(left, right)
      modifies left
      ensures left.Valid() && left.Repr == old(left.Repr + right.Repr)
      ensures left.shape == Fresh(left.isLeaf, old(left.rows + right.rows), old(Shapes(left.kids) + Shapes(right.kids)))
    {
      hide *;
      PairOpen(left, right);
      if left.isLeaf {
        left.rows := left.rows + right.rows;
        left.Repr := left.Repr + right.Repr;
        left.CloseLeaf();
      } else {
        ForestJoin(left.kids, right.kids, left.h - 1);
        left.kids := left.kids + right.kids;
        left.Repr := left.Repr + right.Repr;
        left.Close();
      }
      left.FreshIs();
      FreshUnfold(left.isLeaf, left.rows, Shapes(left.kids));
      FreshUnfold(left.isLeaf, left.rows, old(Shapes(left.kids) + Shapes(right.kids)));
      assert left.rows == old(left.rows + right.rows);
      left.Refresh();
    }

    static lemma {:induction false} PairClose(left: Node, right: Node)
      requires left.Valid() && right.Valid() && left.h == right.h && left.Repr !! right.Repr
      ensures Pair(left, right)
      ensures left.Size() == (if left.isLeaf then |left.rows| else |left.kids|)
      ensures right.Size() == (if right.isLeaf then |right.rows| else |right.kids|)
    {
    }

    static lemma {:induction false} PairOpen(left: Node, right: Node)
      requires Pair(left, right)
      ensures left.Linked() && right.Linked() && left.isLeaf == right.isLeaf
      ensures left in left.Repr && right in right.Repr && left.Repr !! right.Repr && left.h == right.h
      ensures left.rows == [] || left.isLeaf
      ensures right.rows == [] || left.isLeaf
      ensures left.h > 0 <==> !left.isLeaf
      ensures left.Size() == (if left.isLeaf then |left.rows| else |left.kids|)
      ensures right.Size() == (if left.isLeaf then |right.rows| else |right.kids|)
      ensures left.isLeaf ==> left.h == 0 && left.kids == [] && right.kids == []
      ensures Below(left.kids) <= left.Repr && Below(right.kids) <= right.Repr
      ensures left !in Below(left.kids) && right !in Below(right.kids)
      ensures Forest(left.kids, left.h - 1) && Forest(right.kids, right.h - 1)
      ensures left.shape == left.Value() && right.shape == right.Value()
      ensures |Shapes(left.kids)| == |left.kids| && |Shapes(right.kids)| == |right.kids|
      ensures left.Value() == if left.isLeaf then Leaf(left.rows, left.count, left.agg) else Inner(Shapes(left.kids), left.count, left.agg)
      ensures right.Value() == if right.isLeaf then Leaf(right.rows, right.count, right.agg) else Inner(Shapes(right.kids), right.count, right.agg)
    {
      left.LinkedWhenValid();
      right.LinkedWhenValid();
      left.Open();
      right.Open();
    }

    /** Both ends of a move are refreshed. */
    static method RenewPair(left: Node, right: Node)
      requires left.Linked() && right.Linked() && left.h == right.h
      requires left in left.Repr && right in right.Repr && left.Repr !! right.Repr
      modifies left`count, left`agg, left`shape, right`count, right`agg, right`shape
      ensures Pair(left, right)
      ensures left.Size() == (if left.isLeaf then |left.rows| else |left.kids|)
      ensures right.Size() == (if right.isLeaf then |right.rows| else |right.kids|)
      ensures Shapes(left.kids) == old(Shapes(left.kids)) && Shapes(right.kids) == old(Shapes(right.kids))
      ensures left.shape == Fresh(left.isLeaf, left.rows, Shapes(left.kids))
      ensures right.shape == Fresh(right.isLeaf, right.rows, Shapes(right.kids))
    {
      hide *;
      left.Open();
      right.Open();
      left.FreshIs();
      left.Refresh();
      right.FreshIs();
      right.Refresh();
      PairClose(left, right);
    }

    /** `_move` one item from the front of the right node to the end of the left one. */
    static method MoveLeft(left: Node, right: Node)
      requires Pair(left, right) && right.Size() >= 1
      modifies left, right
      ensures Pair(left, right) && left.Repr + right.Repr == old(left.Repr + right.Repr)
      ensures left.Size() == old(left.Size()) + 1 && right.Size() == old(right.Size()) - 1
      ensures left.rows + right.rows == old(left.rows + right.rows)
      ensures Shapes(left.kids) + Shapes(right.kids) == old(Shapes(left.kids) + Shapes(right.kids))
      ensures left.shape == Fresh(left.isLeaf, left.rows, Shapes(left.kids))
      ensures right.shape == Fresh(right.isLeaf, right.rows, Shapes(right.kids))
    {
      hide *;
      PairOpen(left, right);
      if left.isLeaf {
        left.rows, right.rows := left.rows + right.rows[..1], right.rows[1..];
        left.CloseLeaf();
        right.CloseLeaf();
      } else {
        var c, rest := right.kids[0], right.kids[1..];
        ForestAt(right.kids, 0, right.h - 1);
        assert right.kids[..0] == [];
        ForestOne(c);
        ForestJoin(left.kids, [c], left.h - 1);
        right.kids, left.kids := rest, left.kids + [c];
        right.Repr, left.Repr := right.Repr - c.Repr, left.Repr + c.Repr;
        left.Close();
        right.Close();
      }
      RenewPair(left, right);
    }

    /** `_move` one item from the end of the left node to the front of the right one. */
    static method MoveRight(left: Node, right: Node)
      requires Pair(left, right) && left.Size() >= 1
      modifies left, right
      ensures Pair(left, right) && left.Repr + right.Repr == old(left.Repr + right.Repr)
      ensures left.Size() == old(left.Size()) - 1 && right.Size() == old(right.Size()) + 1
      ensures left.rows + right.rows == old(left.rows + right.rows)
      ensures Shapes(left.kids) + Shapes(right.kids) == old(Shapes(left.kids) + Shapes(right.kids))
      ensures left.shape == Fresh(left.isLeaf, left.rows, Shapes(left.kids))
      ensures right.shape == Fresh(right.isLeaf, right.rows, Shapes(right.kids))
    {
      hide *;
      PairOpen(left, right);
      var n := left.Size() - 1;
      if left.isLeaf {
        left.rows, right.rows := left.rows[..n], left.rows[n..] + right.rows;
        left.CloseLeaf();
        right.CloseLeaf();
      } else {
        var c, rest := left.kids[n], left.kids[..n];
        ForestAt(left.kids, n, left.h - 1);
        assert left.kids[n + 1..] == [];
        ForestOne(c);
        ForestJoin([c], right.kids, right.h - 1);
        left.kids, right.kids := rest, [c] + right.kids;
        left.Repr, right.Repr := left.Repr - c.Repr, right.Repr + c.Repr;
        left.Close();
        right.Close();
      }
      RenewPair(left, right);
    }

    /** The two loops of `_rebalance`: move single items until the sizes differ by at most one. */
    static method Even(left: Node, right: Node)
      requires Pair(left, right) && (left.shape.Leaf? <==> right.shape.Leaf?)
      modifies left, right
      ensures Pair(left, right) && left.Repr + right.Repr == old(left.Repr + right.Repr)
      ensures (left.shape, right.shape) == Evened(old(left.shape), old(right.shape))
    {
      hide Node.Valid;
      hide Node.Linked;
      hide Forest;
      hide Below;
      hide Shapes;
      hide Fresh;
      hide Node.Value;
      hide Pair;
      hide Evened;
      hide MovedTo;
      hide TreeShape.Refresh;
      PairOpen(left, right);
      MovedStart(left, right);
      ghost var rows, shapes := left.rows + right.rows, Shapes(left.kids) + Shapes(right.kids);
      ghost var n, total := left.Size(), left.Size() + right.Size();
      ghost var x, y := left.shape, right.shape;
      while left.Size() + 1 < right.Size()
        invariant Pair(left, right) && left.Repr + right.Repr == old(left.Repr + right.Repr)
        invariant left.rows + right.rows == rows && Shapes(left.kids) + Shapes(right.kids) == shapes
        invariant left.Size() + right.Size() == total && n <= left.Size() && (left.Size() == n || left.Size() <= total / 2)
        invariant MovedTo(left, right, x, y, n)
        decreases right.Size()
      {
        MoveLeft(left, right);
        MovedOn(left, right, x, y, n);
      }
      while right.Size() + 1 < left.Size()
        invariant Pair(left, right) && left.Repr + right.Repr == old(left.Repr + right.Repr)
        invariant left.rows + right.rows == rows && Shapes(left.kids) + Shapes(right.kids) == shapes
        invariant left.Size() + right.Size() == total
        invariant left.Size() == EvenCut(n, total - n)
               || (left.Size() <= n && (left.Size() == n || total - left.Size() <= total / 2) && n > total - n + 1)
        invariant MovedTo(left, right, x, y, n)
        decreases left.Size()
      {
        MoveRight(left, right);
        MovedOn(left, right, x, y, n);
      }
      EvenDone(left, right, x, y, rows, shapes);
    }

    static lemma {:induction false} MovedStart(left: Node, right: Node)
      ensures MovedTo(left, right, left.shape, right.shape, left.Size())
    {
    }

    static lemma {:induction false} MovedOn(left: Node, right: Node, x: Tree, y: Tree, n: nat)
      requires left.Size() != n
      requires left.shape == Fresh(left.isLeaf, left.rows, Shapes(left.kids))
      requires right.shape == Fresh(right.isLeaf, right.rows, Shapes(right.kids))
      ensures MovedTo(left, right, x, y, n)
    {
    }

    /** Where the loops stop, the two nodes are what `Evened` says. */
    static lemma {:induction false} EvenDone(left: Node, right: Node, x: Tree, y: Tree, rows: seq<Piece>, shapes: seq<Tree>)
      requires Pair(left, right) && (x.Leaf? <==> y.Leaf?) && x.Leaf? == left.isLeaf
      requires left.rows + right.rows == rows && Shapes(left.kids) + Shapes(right.kids) == shapes
      requires x.Leaf? ==> rows == x.rows + y.rows
      requires x.Inner? ==> shapes == x.kids + y.kids
      requires left.Size() == EvenCut(x.Size(), y.Size()) && MovedTo(left, right, x, y, x.Size())
      ensures (left.shape, right.shape) == Evened(x, y)
    {
      hide Node.Valid;
      hide Node.Linked;
      hide Forest;
      hide Below;
      hide Shapes;
      hide Fresh;
      hide Pair;
      hide Evened;
      hide EvenCut;
      hide TreeShape.Refresh;
      PairOpen(left, right);
      EvenedIs(x, y, left.Size(), rows, shapes);
      assert left.rows == rows[..|left.rows|] && right.rows == rows[|left.rows|..];
      assert Shapes(left.kids) == shapes[..|left.kids|] && Shapes(right.kids) == shapes[|left.kids|..];
      FreshUnfold(left.isLeaf, left.rows, Shapes(left.kids));
      FreshUnfold(left.isLeaf, right.rows, Shapes(right.kids));
    }

    static lemma {:induction false} FreshUnfold(leaf: bool, rows: seq<Piece>, shapes: seq<Tree>)
      ensures Fresh(leaf, rows, shapes)
           == if leaf then TreeShape.Refresh(Leaf(rows, 0, EMPTY)) else TreeShape.Refresh(Inner(shapes, 0, EMPTY))
    {
    }

    /** Nothing moved yet, or both nodes were refreshed after the last move. */
    static ghost predicate MovedTo(left: Node, right: Node, x: Tree, y: Tree, n: nat)
      reads left, right, left.kids, right.kids
    {
      if left.Size() == n then left.shape == x && right.shape == y
      else left.shape == Fresh(left.isLeaf, left.rows, Shapes(left.kids))
           && right.shape == Fresh(right.isLeaf, right.rows, Shapes(right.kids))
    }

    static lemma {:induction false} AbsorbIs(left: Node, right: Node)
      requires Pair(left, right)
      ensures left.shape.Leaf? <==> right.shape.Leaf?
      ensures Fresh(left.isLeaf, left.rows + right.rows, Shapes(left.kids) + Shapes(right.kids))
           == TreeShape.Absorb(left.shape, right.shape)
      ensures left.shape.Size() == left.Size() && right.shape.Size() == right.Size()
    {
      hide TreeShape.Refresh;
      hide Node.Valid;
      hide Node.Linked;
      hide Shapes;
      PairOpen(left, right);
    }

    static lemma {:induction false} BelowNone()
      ensures Below([]) == {}
    {
    }

    /** A forest taken apart around two adjacent nodes. */
    static lemma {:induction false} ForestPair(ks: seq<Node>, n: nat, height: int)
      requires n + 1 < |ks| && Forest(ks, height)
      ensures Forest(ks[..n], height) && Pair(ks[n], ks[n + 1]) && ks[n].h == height && Forest(ks[n + 2..], height)
      ensures Below(ks) == Below(ks[..n]) + ks[n].Repr + ks[n + 1].Repr + Below(ks[n + 2..])
      ensures Below(ks[..n]) !! ks[n].Repr && Below(ks[..n]) !! ks[n + 1].Repr && Below(ks[..n]) !! Below(ks[n + 2..])
      ensures ks[n].Repr !! Below(ks[n + 2..]) && ks[n + 1].Repr !! Below(ks[n + 2..])
      ensures |Shapes(ks)| == |ks| && Shapes(ks)[n] == ks[n].shape && Shapes(ks)[n + 1] == ks[n + 1].shape
      ensures Shapes(ks[..n]) == Shapes(ks)[..n] && Shapes(ks[n + 2..]) == Shapes(ks)[n + 2..]
      ensures ks[n] in ks[n].Repr && ks[n + 1] in ks[n + 1].Repr
    {
      hide *;
      ForestAt(ks, n, height);
      var t := ks[n + 1..];
      ForestAt(t, 0, height);
      assert t[0] == ks[n + 1] && t[..0] == [] && t[1..] == ks[n + 2..];
      BelowNone();
      PairClose(ks[n], ks[n + 1]);
      PairOpen(ks[n], ks[n + 1]);
    }

    /** `_rebalance`: the facts of this node are not refreshed yet. */
    method Rebalance(i: nat, f: nat)
      requires Linked() && !isLeaf && |Shapes(kids)| == |kids| >= 2 && i < |kids|
      requires Shapes(kids)[LeftOf(i)].Leaf? <==> Shapes(kids)[LeftOf(i) + 1].Leaf?
      modifies this, kids[LeftOf(i)], kids[LeftOf(i) + 1]
      ensures Linked() && Repr == old(Repr)
      ensures Shapes(kids) == Rebalanced(old(Shapes(kids)), i, f)
    {
      hide *;
      Open();
      var n := if i > 0 then i - 1 else i;
      LeftOfIs(i);
      ForestPair(kids, n, h - 1);
      AbsorbIs(kids[n], kids[n + 1]);
      RebalancedIs(Shapes(kids), i, f);
      if kids[n].Size() + kids[n + 1].Size() <= f {
        JoinKids(n);
      } else {
        EvenKids(n);
      }
    }

    method JoinKids(n: nat)
      requires Linked() && !isLeaf && n + 1 < |kids| == |Shapes(kids)|
      requires Shapes(kids)[n].Leaf? <==> Shapes(kids)[n + 1].Leaf?
      modifies this, kids[n]
      ensures Linked() && Repr == old(Repr)
      ensures var ks := old(Shapes(kids)); Shapes(kids) == ks[..n] + [TreeShape.Absorb(ks[n], ks[n + 1])] + ks[n + 2..]
    {
      hide *;
      Open();
      var left, right := kids[n], kids[n + 1];
      ghost var ks, a, b := Shapes(kids), kids[..n], kids[n + 2..];
      ForestPair(kids, n, h - 1);
      AbsorbIs(left, right);
      Absorb(left, right);
      kids := kids[..n + 1] + kids[n + 2..];
      assert kids == a + [left] + b;
      ForestPut(a, left, b);
      assert Shapes(kids) == ks[..n] + [left.shape] + ks[n + 2..];
      Close();
    }

    method EvenKids(n: nat)
      requires Linked() && !isLeaf && n + 1 < |kids| == |Shapes(kids)|
      requires Shapes(kids)[n].Leaf? <==> Shapes(kids)[n + 1].Leaf?
      modifies this, kids[n], kids[n + 1]
      ensures Linked() && Repr == old(Repr) && kids == old(kids)
      ensures var ks := old(Shapes(kids));
              var (x, y) := Evened(ks[n], ks[n + 1]);
              Shapes(kids) == ks[..n] + [x, y] + ks[n + 2..]
    {
      hide *;
      Open();
      var left, right := kids[n], kids[n + 1];
      ghost var ks, a, b := Shapes(kids), kids[..n], kids[n + 2..];
      ForestPair(kids, n, h - 1);
      Even(left, right);
      PairOpen(left, right);
      PairValid(left, right);
      ForestOne(right);
      ForestJoin([right], b, h - 1);
      ForestPut(a, left, [right] + b);
      assert kids == a + [left] + ([right] + b);
      assert Shapes(kids) == ks[..n] + [left.shape, right.shape] + ks[n + 2..];
      Close();
    }

    static lemma {:induction false} LeftOfIs(i: nat)
      ensures LeftOf(i) == if i > 0 then i - 1 else i
    {
    }

    static lemma {:induction false} PairValid(left: Node, right: Node)
      requires Pair(left, right)
      ensures left.Valid() && right.Valid()
    {
    }

    /** `_delete_at`. */
    method DeleteAt(index: int, f: nat)
      requires f >= 4 && Valid() && Dense(shape, h, f) && 0 <= index < |RowsOf(shape)|
      requires shape.Inner? ==> |shape.kids| >= 2
      modifies Repr
      ensures Valid() && Repr == old(Repr) && shape == TreeOps.DeleteAt(old(shape), index, f)
      decreases h
    {
      hide *;
      LinkedWhenValid();
      Open();
      LeafRows(shape);
      DeleteUnfold(shape, index, f);
      if isLeaf {
        rows := rows[..index] + rows[index + 1..];
        CloseLeaf();
      } else {
        var i, local := ChildFor(index, false);
        ChildTarget(shape, index, false, h, f);
        KidCached(i);
        DeleteBelow(i, local, f);
        if kids[i].Size() < f / 2 && |kids| > 1 {
          KidsAlike(i);
          Open();
          LeftOfIs(i);
          ForestPair(kids, LeftOf(i), h - 1);
          Rebalance(i, f);
        }
      }
      Open();
      FreshIs();
      FreshUnfold(isLeaf, rows, Shapes(kids));
      Refresh();
    }

    /** Delete in child `i`; the facts of this node are not refreshed yet. */
    method DeleteBelow(i: nat, local: int, f: nat)
      requires Linked() && !isLeaf && i < |kids|
      requires f >= 4 && Dense(kids[i].shape, h - 1, f) && 0 <= local < |RowsOf(kids[i].shape)|
      requires kids[i].shape.Inner? ==> |kids[i].shape.kids| >= 2
      modifies Repr
      ensures Linked() && Repr == old(Repr) && kids == old(kids)
      ensures Shapes(kids) == old(Shapes(kids))[i := TreeOps.DeleteAt(old(kids[i].shape), local, f)]
      ensures kids[i].Size() == TreeOps.DeleteAt(old(kids[i].shape), local, f).Size()
      decreases h, 0
    {
      hide *;
      Open();
      ForestAt(kids, i, h - 1);
      ghost var ks := Shapes(kids);
      ghost var a, b := kids[..i], kids[i + 1..];
      var c := kids[i];
      c.DeleteAt(local, f);
      ForestPut(a, c, b);
      assert kids == a + [c] + b;
      assert Shapes(kids) == ks[i := c.shape];
      Close();
      KidCached(i);
    }

    /** Neighbouring children are of one kind. */
    lemma {:induction false} KidsAlike(i: nat)
      requires Linked() && !isLeaf && i < |kids| && |kids| >= 2
      ensures |Shapes(kids)| == |kids| && (Shapes(kids)[LeftOf(i)].Leaf? <==> Shapes(kids)[LeftOf(i) + 1].Leaf?)
    {
      hide *;
      Open();
      LeftOfIs(i);
      ForestPair(kids, LeftOf(i), h - 1);
      AbsorbIs(kids[LeftOf(i)], kids[LeftOf(i) + 1]);
    }

    // ----- range deletion --------------------------------------------------------------------------

    /** `_repair_children`, ending in a refresh of this node. */
    method RepairChildren(f: nat)
      requires f >= 4 && Linked() && !isLeaf && Ready(Inner(Shapes(kids), 0, EMPTY), h, f)
      modifies Repr
      ensures Valid() && Repr == old(Repr)
      ensures shape == Repair(Inner(old(Shapes(kids)), 0, EMPTY), h, f)
      decreases h, 1
    {
      hide *;
      Open();
      ghost var ks := Shapes(kids);
      ReadyKids(ks, h, f);
      var i := 0;
      while i < |kids| && |kids| > 1
        invariant Linked() && Repr == old(Repr) && |Shapes(kids)| == |kids| >= 1 && i <= |kids|
        invariant AllRepaired(Shapes(kids), h - 1, f)
        invariant forall j :: 0 <= j < i ==> f / 2 <= Shapes(kids)[j].Size()
        invariant Settle(Shapes(kids), h - 1, i, f) == Settle(ks, h - 1, 0, f)
        decreases KidNodes(Shapes(kids)), Deficient(Shapes(kids), f), |kids| - i
      {
        KidCached(i);
        SettleUnfold(Shapes(kids), h - 1, i, f);
        if kids[i].Size() >= f / 2 {
          i := i + 1;
        } else {
          RepairRound(i, f);
          Open();
          i := 0;
        }
      }
      SettleUnfold(Shapes(kids), h - 1, i, f);
      Open();
      RepairIs(ks, h, f, count, agg);
      Refresh();
    }

    /** Rebalance child `i`, then repair the two children this touched. */
    method RepairRound(i: nat, f: nat)
      requires f >= 4 && Linked() && !isLeaf && h > 0 && |Shapes(kids)| == |kids| >= 2 && i < |kids|
      requires AllRepaired(Shapes(kids), h - 1, f) && Shapes(kids)[i].Size() < f / 2
      modifies Repr
      ensures Linked() && Repr == old(Repr)
      ensures Shapes(kids) == Round(old(Shapes(kids)), h - 1, i, f)
      decreases h, 0, 1
    {
      hide *;
      Open();
      ghost var ks := Shapes(kids);
      RebalancedFacts(ks, i, h - 1, f);
      RoundUnfold(ks, h - 1, i, f);
      LeftOfIs(i);
      var left := if i > 0 then i - 1 else i;
      KidsAlike(i);
      Open();
      ForestPair(kids, left, h - 1);
      Rebalance(i, f);
      RepairKid(left, f);
      RepairKid(left + 1, f);
    }

    method RepairKid(j: nat, f: nat)
      requires f >= 4 && Linked() && !isLeaf && h > 0
      requires j < |Shapes(kids)| ==> Ready(Shapes(kids)[j], h - 1, f)
      modifies Repr
      ensures Linked() && Repr == old(Repr)
      ensures Shapes(kids) == RepairAt(old(Shapes(kids)), j, h - 1, f)
      decreases h, 0, 0
    {
      hide *;
      Open();
      RepairAtIs(Shapes(kids), j, h - 1, f);
      if j < |kids| {
        KidCached(j);
        ghost var ks := Shapes(kids);
        ForestAt(kids, j, h - 1);
        ghost var a, b := kids[..j], kids[j + 1..];
        var c := kids[j];
        RepairLeaf(c.shape, h - 1, f);
        c.LinkedWhenValid();
        c.Open();
        if !c.isLeaf {
          RepairIgnores(c.shape, h - 1, f);
          c.RepairChildren(f);
        }
        ForestPut(a, c, b);
        assert kids == a + [c] + b;
        assert Shapes(kids) == ks[j := c.shape];
        Close();
      }
    }

    /** `_delete_range` of `n` pieces from `index`. */
    method DeleteRange(index: int, n: int, f: nat)
      requires f >= 4 && Valid() && Dense(shape, h, f)
      requires 0 <= index && 0 < n && index + n <= |RowsOf(shape)| && n < |RowsOf(shape)|
      modifies Repr
      ensures Valid() && Repr == old(Repr) && shape == TreeRange.DeleteRange(old(shape), index, n, h, f)
      decreases h, 1
    {
      hide *;
      LinkedWhenValid();
      Open();
      LeafRows(shape);
      RangeUnfold(shape, index, n, h, f);
      if isLeaf {
        rows := rows[..index] + rows[index + n..];
        CloseLeaf();
        Refresh();
      } else {
        CutBelow(index, index + n, f);
        Open();
        RepairChildren(f);
      }
    }

    /** What `_delete_range` of the parent does with this child: keep, drop or cut it. */
    method CutOne(index: int, end: int, base: int, f: nat) returns (keep: bool)
      requires f >= 4 && Valid() && Full(shape, h, f) && index < end
      modifies Repr
      ensures Valid() && Repr == old(Repr)
      ensures (if keep then [shape] else []) == CutKid(old(shape), index, end, base, h, f)
      decreases h, 2
    {
      hide *;
      CachedFacts();
      CutKidIs(shape, index, end, base, h, f);
      var childEnd := base + count;
      if childEnd <= index || base >= end {
        keep := true;
      } else if index <= base && childEnd <= end {
        keep := false;
      } else {
        var low := if index > base then index else base;
        var high := if end < childEnd then end else childEnd;
        DeleteRange(low - base, high - low, f);
        keep := true;
      }
    }

    /** The loop of `_delete_range` over the children. */
    method CutBelow(index: int, end: int, f: nat)
      requires f >= 4 && Linked() && !isLeaf && h > 0 && AllFull(Shapes(kids), h - 1, f) && index < end
      modifies Repr
      ensures Linked() && Repr == old(Repr)
      ensures Shapes(kids) == CutKids(old(Shapes(kids)), index, end, 0, h - 1, f)
      decreases h, 0
    {
      hide *;
      Open();
      BelowNone();
      ForestNone(h - 1);
      ghost var ks := Shapes(kids);
      var kept, i, base := [], 0, 0;
      assert kids[0..] == kids && ks[0..] == ks;
      while i < |kids|
        invariant i <= |kids| == |ks| && unchanged(this)
        invariant Forest(kept, h - 1) && Forest(kids[i..], h - 1) && Below(kept) !! Below(kids[i..])
        invariant Below(kept) + Below(kids[i..]) <= Repr - {this}
        invariant Shapes(kids[i..]) == ks[i..] && AllFull(ks[i..], h - 1, f)
        invariant Shapes(kept) + CutKids(ks[i..], index, end, base, h - 1, f) == CutKids(ks, index, end, 0, h - 1, f)
      {
        var c := kids[i];
        ghost var rest := kids[i..];
        RestOf(kids, i);
        ForestAt(rest, 0, h - 1);
        RestOf(ks, i);
        CutUnfold(ks[i..], index, end, base, h - 1, f);
        c.CachedFacts();
        var childEnd := base + c.count;
        var keep := c.CutOne(index, end, base, f);
        if keep {
          ForestOne(c);
          ForestJoin(kept, [c], h - 1);
          kept := kept + [c];
        }
        i, base := i + 1, childEnd;
      }
      CutNothing(index, end, base, h - 1, f);
      kids := kept;
      Close();
    }

    static lemma {:induction false} RestOf<T>(s: seq<T>, i: nat)
      requires i < |s|
      ensures |s[i..]| == |s| - i && s[i..][0] == s[i] && s[i..][..0] == [] && s[i..][1..] == s[i + 1..]
    {
    }

    lemma {:induction false} CachedFacts()
      requires Valid()
      ensures count == shape.count
    {
      hide Linked;
    }

    static lemma {:induction false} ForestNone(height: int)
      ensures Forest([], height) && Shapes([]) == []
    {
    }
  }
}
