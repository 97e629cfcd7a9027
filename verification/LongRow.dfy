/**
 Checkpoints of one long row: what makes a table of them right, and how it survives an edit of the row.
 Everything is compared with decoding the whole row at once.
 */
module LongRow {
  import opened Rows
  import opened Utf8
  import opened TextWidth

  /** Three columns of checkpoints: characters, display columns, bytes. */
  datatype Points = Points(chars: seq<nat>, disp: seq<int>, byte: seq<nat>) {
    predicate Even() { |chars| == |disp| == |byte| }

    function Add(c: nat, d: int, b: nat): Points { Points(chars + [c], disp + [d], byte + [b]) }

    function Take(n: nat): Points
      requires Even() && n <= |chars|
    {
      Points(chars[..n], disp[..n], byte[..n])
    }

    function Drop(n: nat): Points
      requires Even() && n <= |chars|
    {
      Points(chars[n..], disp[n..], byte[n..])
    }

    function Join(t: Points): Points { Points(chars + t.chars, disp + t.disp, byte + t.byte) }

    function LastChars(): nat
      requires Even() && chars != []
    {
      chars[|chars| - 1]
    }

    function LastDisp(): int
      requires Even() && chars != []
    {
      disp[|chars| - 1]
    }

    function LastByte(): nat
      requires Even() && chars != []
    {
      byte[|chars| - 1]
    }
  }

  /** How a row is measured: tab width, checkpoint step and the width of a character. */
  datatype Ruler = Ruler(tab: nat, step: nat, w: Width) {
    ghost predicate Valid() { tab > 0 && step > 0 && OneCell(w) }
  }

  // ----- places in a row -------------------------------------------------------------------------------

  function CharsAt(row: Bytes, p: nat): nat
    requires p <= |row|
  {
    |Decode(row[..p])|
  }

  function DispAt(row: Bytes, p: nat, r: Ruler): int
    requires p <= |row| && r.tab > 0
  {
    Columns(Decode(row[..p]), 0, r.tab, r.w)
  }

  /** A boundary of a prefix that ends at a boundary is a boundary of the whole. */
  lemma {:induction false} BoundaryExtend(s: Bytes, n: nat, q: nat)
    requires Boundary(s, n) && n <= |s| && q <= n && Boundary(s[..n], q)
    ensures Boundary(s, q)
  {
    hide *;
    BoundaryZero(s);
    if q > 0 {
      BoundaryCons(s, n);
      BoundaryCons(s[..n], q);
      StepPrefix(s, n);
      var k := Step(s);
      assert s[..n][k..] == s[k..][..n - k];
      BoundaryExtend(s[k..], n - k, q - k);
      BoundaryStep(s, q);
    }
  }

  lemma {:induction false} BoundaryZero(s: Bytes)
    ensures Boundary(s, 0)
  {
  }

  lemma {:induction false} BoundaryStep(s: Bytes, q: nat)
    requires s != [] && Step(s) <= q <= |s| && Boundary(s[Step(s)..], q - Step(s))
    ensures Boundary(s, q)
  {
    hide Step;
  }

  /** Between two boundaries the characters are those decoded from the bytes in between. */
  lemma {:induction false} TextBetween(row: Bytes, p: nat, q: nat)
    requires p <= q <= |row| && Boundary(row, p)
    ensures Decode(row[..q]) == Decode(row[..p]) + Decode(row[p..q])
  {
    hide *;
    BoundaryPrefix(row, p, q);
    DecodeAt(row[..q], p);
    assert row[..q][..p] == row[..p] && row[..q][p..] == row[p..q];
  }

  /** A run of characters from a boundary ends at a boundary. */
  lemma {:induction false} PrefixPlace(row: Bytes, p: nat, q: nat, m: nat)
    requires p <= q <= |row| && Boundary(row, p) && Boundary(row, q) && m <= |Decode(row[p..q])|
    ensures var at := p + EncodedLength(Decode(row[p..q])[..m]);
            at <= q && Boundary(row, at) && Decode(row[..at]) == Decode(row[..p]) + Decode(row[p..q])[..m]
            && m <= at - p <= 4 * m
  {
    hide *;
    var s := row[p..q];
    ByteOfFacts(s, m);
    ByteOfIs(s, m);
    var k := ByteOf(s, m);
    BoundaryShift(row, p, q);
    assert row[p..][..q - p] == s;
    BoundaryExtend(row[p..], q - p, k);
    BoundaryShift(row, p, p + k);
    TextBetween(row, p, p + k);
    assert row[p..p + k] == s[..k];
  }

  lemma {:induction false} ByteOfIs(s: Bytes, k: nat)
    requires k <= |Decode(s)|
    ensures ByteOf(s, k) == EncodedLength(Decode(s)[..k])
  {
  }

  /** The bytes of all characters are the bytes. */
  lemma {:induction false} WholeLength(s: Bytes)
    ensures EncodedLength(Decode(s)) == |s|
  {
    hide Decode;
    hide Encode;
    DecodeEncode(s);
  }

  // ----- right tables ---------------------------------------------------------------------------------------

  /** `c` characters lie in front of byte `b`, which is a character boundary. */
  ghost predicate Mark(row: Bytes, c: nat, b: nat) {
    b <= |row| && Boundary(row, b) && c == CharsAt(row, b)
  }

  ghost predicate Marks(p: Points, row: Bytes)
    requires p.Even()
  {
    forall i :: 0 <= i < |p.chars| ==> Mark(row, p.chars[i], p.byte[i])
  }

  /** Display columns are those of the whole row. */
  ghost predicate Columned(p: Points, row: Bytes, r: Ruler)
    requires p.Even() && r.tab > 0
  {
    forall i :: 0 <= i < |p.chars| && p.byte[i] <= |row| ==> p.disp[i] == DispAt(row, p.byte[i], r)
  }

  ghost predicate Rising(xs: seq<nat>) {
    forall i, j :: 0 <= i < j < |xs| ==> xs[i] < xs[j]
  }

  /** Neighbours are at most one step apart. */
  ghost predicate Near(xs: seq<nat>, step: nat) {
    forall i :: 0 < i < |xs| ==> xs[i] - xs[i - 1] <= step
  }

  /**
   The table of a row: characters and bytes are exact, both ascend, it begins at the row start; with `exact` the
   display columns are those of the row, with `dense` neighbours are at most one step apart.
   */
  ghost predicate Sound(p: Points, row: Bytes, r: Ruler, exact: bool, dense: bool)
    requires r.tab > 0
  {
    && p.Even() && p.chars != [] && p.chars[0] == 0 && p.disp[0] == 0 && p.byte[0] == 0
    && Marks(p, row) && Rising(p.chars) && Rising(p.byte)
    && (exact ==> Columned(p, row, r))
    && (dense ==> Near(p.chars, r.step))
  }

  /** Checkpoints that can follow the checkpoint `(c, b)`. */
  ghost predicate SoundTail(t: Points, c: nat, b: nat, row: Bytes, r: Ruler, exact: bool, dense: bool)
    requires r.tab > 0
  {
    && t.Even() && Marks(t, row) && Rising(t.chars) && Rising(t.byte)
    && (t.chars != [] ==> c < t.chars[0] && b < t.byte[0])
    && (exact ==> Columned(t, row, r))
    && (dense ==> Near(t.chars, r.step) && (t.chars != [] ==> t.chars[0] - c <= r.step))
  }

  lemma {:induction false} SoundIs(p: Points, row: Bytes, r: Ruler, exact: bool, dense: bool)
    requires r.tab > 0 && Sound(p, row, r, exact, dense)
    ensures p.Even() && p.chars != [] && p.chars[0] == 0 && p.disp[0] == 0 && p.byte[0] == 0
    ensures p.LastByte() <= |row| && Mark(row, p.LastChars(), p.LastByte()) && Boundary(row, p.LastByte())
    ensures p.LastChars() == CharsAt(row, p.LastByte())
    ensures exact ==> p.LastDisp() == DispAt(row, p.LastByte(), r)
  {
    hide CharsAt;
    hide DispAt;
    assert Mark(row, p.chars[|p.chars| - 1], p.byte[|p.chars| - 1]);
  }

  lemma {:induction false} SoundAt(p: Points, row: Bytes, r: Ruler, exact: bool, dense: bool, i: nat)
    requires r.tab > 0 && Sound(p, row, r, exact, dense) && i < |p.chars|
    ensures p.Even() && p.byte[i] <= |row| && Boundary(row, p.byte[i]) && p.chars[i] == CharsAt(row, p.byte[i])
    ensures exact ==> p.disp[i] == DispAt(row, p.byte[i], r)
  {
    hide CharsAt;
    hide DispAt;
    assert Mark(row, p.chars[i], p.byte[i]);
  }

  /** The table of a row before anything is scanned. */
  lemma {:induction false} StartSound(row: Bytes, r: Ruler)
    requires r.tab > 0
    ensures Sound(Points([0], [0], [0]), row, r, true, true)
  {
    assert row[..0] == [];
  }

  lemma {:induction false} SoundSnoc(p: Points, c: nat, d: int, b: nat, row: Bytes, r: Ruler, exact: bool, dense: bool)
    requires r.tab > 0 && Sound(p, row, r, exact, dense) && p.Even() && p.chars != []
    requires Mark(row, c, b) && p.LastByte() < b && p.LastChars() < c
    requires exact && b <= |row| ==> d == DispAt(row, b, r)
    requires dense ==> c - p.LastChars() <= r.step
    ensures Sound(p.Add(c, d, b), row, r, exact, dense)
  {
    hide Mark;
    hide DispAt;
  }

  lemma {:induction false} SoundTake(p: Points, n: nat, row: Bytes, r: Ruler, exact: bool, dense: bool)
    requires r.tab > 0 && Sound(p, row, r, exact, dense) && p.Even() && 0 < n <= |p.chars|
    ensures Sound(p.Take(n), row, r, exact, dense)
  {
    hide Mark;
    hide DispAt;
  }

  lemma {:induction false} SoundJoin(p: Points, t: Points, row: Bytes, r: Ruler, exact: bool, dense: bool)
    requires r.tab > 0 && Sound(p, row, r, exact, dense) && p.Even() && p.chars != []
    requires SoundTail(t, p.LastChars(), p.LastByte(), row, r, exact, dense)
    ensures Sound(p.Join(t), row, r, exact, dense)
  {
    hide Mark;
    hide DispAt;
    SoundJoinMarks(p, t, row, r, exact);
    var q := p.Join(t);
    RisingJoin(p.chars, t.chars);
    RisingJoin(p.byte, t.byte);
    if dense {
      NearJoin(p.chars, t.chars, r.step);
    }
  }

  lemma {:induction false} SoundJoinMarks(p: Points, t: Points, row: Bytes, r: Ruler, exact: bool)
    requires r.tab > 0 && p.Even() && t.Even() && Marks(p, row) && Marks(t, row)
    requires exact ==> Columned(p, row, r) && Columned(t, row, r)
    ensures p.Join(t).Even() && Marks(p.Join(t), row) && (exact ==> Columned(p.Join(t), row, r))
  {
    hide Mark;
    hide DispAt;
    var q := p.Join(t);
    forall i | 0 <= i < |q.chars|
      ensures Mark(row, q.chars[i], q.byte[i])
      ensures exact && q.byte[i] <= |row| ==> q.disp[i] == DispAt(row, q.byte[i], r)
    {
      if i >= |p.chars| {
        assert Mark(row, t.chars[i - |p.chars|], t.byte[i - |p.chars|]);
      } else {
        assert Mark(row, p.chars[i], p.byte[i]);
      }
    }
  }

  lemma {:induction false} RisingJoin(a: seq<nat>, b: seq<nat>)
    requires Rising(a) && Rising(b) && a != [] && (b != [] ==> a[|a| - 1] < b[0])
    ensures Rising(a + b)
  {
    forall i, j | 0 <= i < j < |a + b|
      ensures (a + b)[i] < (a + b)[j]
    {
      if i < |a| <= j {
        assert a[i] <= a[|a| - 1] && b[0] <= b[j - |a|];
      }
    }
  }

  lemma {:induction false} NearJoin(a: seq<nat>, b: seq<nat>, step: nat)
    requires Near(a, step) && Near(b, step) && a != [] && (b != [] ==> b[0] - a[|a| - 1] <= step)
    ensures Near(a + b, step)
  {
    var s := a + b;
    forall i | 0 < i < |s|
      ensures s[i] - s[i - 1] <= step
    {
      if i > |a| {
        assert b[i - |a|] - b[i - |a| - 1] <= step;
      } else if i < |a| {
        assert a[i] - a[i - 1] <= step;
      }
    }
  }

  // ----- the order of the columns ---------------------------------------------------------------------------

  ghost predicate Ascending(xs: seq<int>) {
    forall i, j :: 0 <= i < j < |xs| ==> xs[i] <= xs[j]
  }

  predicate NonNegative(xs: seq<int>) {
    forall i :: 0 <= i < |xs| ==> xs[i] >= 0
  }

  /** `q` has the checkpoints of `p` and perhaps more behind them, none to the left of the last one. */
  ghost predicate Grown(p: Points, q: Points) {
    && p.Even() && q.Even() && p.chars <= q.chars && p.disp <= q.disp && p.byte <= q.byte
    && (Ascending(p.disp) ==> Ascending(q.disp)) && (NonNegative(p.disp) ==> NonNegative(q.disp))
  }

  lemma {:induction false} GrownSame(p: Points)
    requires p.Even()
    ensures Grown(p, p)
  {
  }

  lemma {:induction false} GrownTrans(p: Points, q: Points, s: Points)
    requires Grown(p, q) && Grown(q, s)
    ensures Grown(p, s)
  {
    hide Ascending;
    hide NonNegative;
    Prefixes(p.chars, q.chars, s.chars);
    Prefixes(p.disp, q.disp, s.disp);
    Prefixes(p.byte, q.byte, s.byte);
  }

  lemma {:induction false} Prefixes<T>(a: seq<T>, b: seq<T>, c: seq<T>)
    requires a <= b <= c
    ensures a <= c
  {
  }

  lemma {:induction false} GrownAdd(p: Points, c: nat, d: int, b: nat)
    requires p.Even() && p.chars != [] && p.LastDisp() <= d
    ensures Grown(p, p.Add(c, d, b))
  {
  }

  lemma {:induction false} GrownIs(p: Points, q: Points)
    requires Grown(p, q)
    ensures p.Even() && q.Even() && p.chars <= q.chars && p.disp <= q.disp && p.byte <= q.byte
    ensures (Ascending(p.disp) ==> Ascending(q.disp)) && (NonNegative(p.disp) ==> NonNegative(q.disp))
  {
    hide Ascending;
    hide NonNegative;
  }

  /** A table and a tail ascend together exactly when both do and the tail does not begin to the left of the table's end. */
  lemma {:induction false} AscendingJoin(a: seq<int>, b: seq<int>)
    requires a != []
    ensures Ascending(a + b) <==> Ascending(a) && Ascending(b) && (b != [] ==> a[|a| - 1] <= b[0])
  {
    var s := a + b;
    if Ascending(s) {
      forall i, j | 0 <= i < j < |a|
        ensures a[i] <= a[j]
      {
        assert s[i] <= s[j];
      }
      forall i, j | 0 <= i < j < |b|
        ensures b[i] <= b[j]
      {
        assert s[|a| + i] <= s[|a| + j];
      }
      if b != [] {
        assert s[|a| - 1] <= s[|a|];
      }
    }
    if Ascending(a) && Ascending(b) && (b != [] ==> a[|a| - 1] <= b[0]) {
      forall i, j | 0 <= i < j < |s|
        ensures s[i] <= s[j]
      {
        if i < |a| <= j {
          assert a[i] <= a[|a| - 1] && b[0] <= b[j - |a|];
        }
      }
    }
  }

  // ----- moving a table to an edited row -----------------------------------------------------------------------

  /** In front of a clean place the rows agree. */
  lemma {:induction false} SamePlace(row: Bytes, next: Bytes, x: nat, b: nat)
    requires x <= |row| && x <= |next| && row[..x] == next[..x] && b <= x
    requires Boundary(row, x) && Boundary(next, x) && Boundary(row, b)
    ensures Boundary(next, b) && row[..b] == next[..b]
  {
    hide *;
    assert row[..b] == row[..x][..b] && next[..b] == next[..x][..b];
    BoundaryRestrict(row, x, b);
    BoundaryExtend(next, x, b);
  }

  lemma {:induction false} BoundaryRestrict(s: Bytes, n: nat, q: nat)
    requires q <= n <= |s| && Boundary(s, q)
    ensures Boundary(s[..n], q)
  {
    BoundaryPrefix(s, q, n);
  }

  lemma {:induction false} SoundMove(p: Points, row: Bytes, next: Bytes, x: nat, r: Ruler, exact: bool, dense: bool)
    requires r.tab > 0 && Sound(p, row, r, exact, dense) && p.Even() && p.chars != [] && p.LastByte() <= x
    requires x <= |row| && x <= |next| && row[..x] == next[..x] && Boundary(row, x) && Boundary(next, x)
    ensures Sound(p, next, r, exact, dense)
  {
    hide Boundary;
    hide Decode;
    hide Columns;
    forall i | 0 <= i < |p.chars|
      ensures Mark(next, p.chars[i], p.byte[i]) && (exact ==> p.disp[i] == DispAt(next, p.byte[i], r))
    {
      assert Mark(row, p.chars[i], p.byte[i]);
      assert p.byte[i] <= p.LastByte();
      SamePlace(row, next, x, p.byte[i]);
    }
  }

  /** One replacement: `[x, e)` of `row` became `ins`, with a clean decode at both junctions. */
  ghost predicate Edited(row: Bytes, x: nat, e: nat, ins: Bytes, next: Bytes) {
    && x <= e <= |row| && next == row[..x] + ins + row[e..]
    && Boundary(row, x) && Boundary(row, e) && Boundary(next, x) && Boundary(next, x + |ins|)
  }

  lemma {:induction false} EditedParts(row: Bytes, x: nat, e: nat, ins: Bytes, next: Bytes)
    requires Edited(row, x, e, ins, next)
    ensures x <= e <= |row| && |next| == |row| + |ins| - (e - x) && next[..x] == row[..x] && next[x..x + |ins|] == ins
    ensures next[x + |ins|..] == row[e..]
  {
  }

  /** A place behind the edit, in both rows. */
  lemma {:induction false} PlaceBehind(row: Bytes, x: nat, e: nat, ins: Bytes, next: Bytes, b: nat)
    requires Edited(row, x, e, ins, next) && e <= b <= |row| && Boundary(row, b)
    ensures var n := b + |ins| - (e - x);
            && n <= |next| && Boundary(next, n)
            && Decode(next[..n]) == Decode(row[..x]) + Decode(ins) + Decode(row[e..b])
            && Decode(row[..b]) == Decode(row[..x]) + Decode(row[x..e]) + Decode(row[e..b])
  {
    hide *;
    EditedParts(row, x, e, ins, next);
    EditedClean(row, x, e, ins, next);
    var m := x + |ins|;
    var n := b + |ins| - (e - x);
    BoundaryShift(row, e, b);
    BoundaryShift(next, m, n);
    TextBetween(row, x, e);
    TextBetween(row, e, b);
    TextBetween(next, x, m);
    TextBetween(next, m, n);
    assert next[m..n] == next[m..][..n - m] == row[e..][..b - e] == row[e..b];
    assert next[x..m] == ins;
  }

  lemma {:induction false} EditedClean(row: Bytes, x: nat, e: nat, ins: Bytes, next: Bytes)
    requires Edited(row, x, e, ins, next)
    ensures Boundary(row, x) && Boundary(row, e) && Boundary(next, x) && Boundary(next, x + |ins|)
  {
  }

  /** No tab lies behind the edit. */
  ghost predicate NoTabBehind(row: Bytes, e: nat)
    requires e <= |row|
  {
    TAB !in Decode(row[e..])
  }

  /**
   Display columns behind an edit, moved by its change of width, are exact precisely when no tab lies between the
   edit and the place, or the change is a multiple of the tab width.
   */
  lemma {:induction false} ColumnsBehind(row: Bytes, x: nat, e: nat, ins: Bytes, next: Bytes, b: nat, r: Ruler)
    requires r.tab > 0 && Edited(row, x, e, ins, next) && e <= b <= |row| && Boundary(row, b)
    ensures var n := b + |ins| - (e - x); n <= |next|
    ensures var n := b + |ins| - (e - x);
            var delta := DispAt(next, x + |ins|, r) - DispAt(row, e, r);
            DispAt(next, n, r) == DispAt(row, b, r) + delta <==> TAB !in Decode(row[e..b]) || Aligned(delta, r.tab)
  {
    hide *;
    EditedParts(row, x, e, ins, next);
    EditedClean(row, x, e, ins, next);
    PlaceBehind(row, x, e, ins, next, b);
    PlaceBehind(row, x, e, ins, next, e);
    assert row[e..e] == [];
    DecodeNone();
    var n, m := b + |ins| - (e - x), x + |ins|;
    var front, old_, fresh_ := Decode(row[..x]), Decode(row[x..e]), Decode(ins);
    var delta := DispAt(next, m, r) - DispAt(row, e, r);
    DispIs(row, b, r);
    DispIs(row, e, r);
    DispIs(next, n, r);
    DispIs(next, m, r);
    assert front + fresh_ + [] == front + fresh_ && front + old_ + [] == front + old_;
    ColumnsConcat(front + old_, Decode(row[e..b]), 0, r.tab, r.w);
    ColumnsConcat(front + fresh_, Decode(row[e..b]), 0, r.tab, r.w);
    ShiftColumns(Decode(row[e..b]), DispAt(row, e, r), delta, r.tab, r.w);
  }

  lemma {:induction false} DispIs(row: Bytes, p: nat, r: Ruler)
    requires p <= |row| && r.tab > 0
    ensures DispAt(row, p, r) == Columns(Decode(row[..p]), 0, r.tab, r.w)
  {
  }

  // ----- the shifted tail -------------------------------------------------------------------------------------

  function ShiftNats(xs: seq<nat>, d: int): seq<nat>
    requires forall i :: 0 <= i < |xs| ==> xs[i] + d >= 0
  {
    seq(|xs|, i requires 0 <= i < |xs| => xs[i] + d)
  }

  function ShiftInts(xs: seq<int>, d: int): seq<int> {
    seq(|xs|, i requires 0 <= i < |xs| => xs[i] + d)
  }

  /** The part of a table behind `e`, moved by the deltas of an edit. */
  ghost predicate Behind(p: Points, far: nat, e: nat)
    requires p.Even()
  {
    && far <= |p.chars|
    && (forall i :: 0 <= i < far ==> p.byte[i] <= e)
    && (forall i :: far <= i < |p.chars| ==> p.byte[i] > e)
  }

  /** Characters in front of a place behind the edit change by the characters of the edit. */
  lemma {:induction false} MarkBehind(row: Bytes, x: nat, e: nat, ins: Bytes, next: Bytes, c: nat, b: nat)
    requires Edited(row, x, e, ins, next) && e < b && Mark(row, c, b)
    ensures x <= e <= |row| && x + |ins| <= |next|
    ensures var n, d := b + |ins| - (e - x), |Decode(ins)| - |Decode(row[x..e])|;
            c + d >= 0 && Mark(next, c + d, n) && n > x + |ins| && c + d > CharsAt(next, x + |ins|)
            && c - CharsAt(row, e) == c + d - CharsAt(next, x + |ins|)
  {
    hide *;
    EditedParts(row, x, e, ins, next);
    EditedClean(row, x, e, ins, next);
    MarkIs(row, c, b);
    PlaceBehind(row, x, e, ins, next, b);
    PlaceBehind(row, x, e, ins, next, e);
    assert row[e..e] == [];
    DecodeNone();
    CharsIs(row, b);
    CharsIs(row, e);
    var n := b + |ins| - (e - x);
    CharsIs(next, n);
    CharsIs(next, x + |ins|);
    NonEmptyText(row[e..b]);
    MarkIs(next, c + |Decode(ins)| - |Decode(row[x..e])|, n);
  }

  lemma {:induction false} MarkIs(row: Bytes, c: nat, b: nat)
    ensures Mark(row, c, b) <==> b <= |row| && Boundary(row, b) && c == |Decode(row[..b])|
  {
    hide Boundary;
    hide Decode;
  }

  lemma {:induction false} CharsIs(row: Bytes, p: nat)
    requires p <= |row|
    ensures CharsAt(row, p) == |Decode(row[..p])|
  {
    hide Decode;
  }

  lemma {:induction false} NonEmptyText(s: Bytes)
    requires s != []
    ensures Decode(s) != []
  {
  }

  /** Without tabs behind the edit there is none in front of a later place. */
  lemma {:induction false} NoTabBefore(row: Bytes, e: nat, b: nat)
    requires e <= b <= |row| && Boundary(row, e) && Boundary(row, b) && NoTabBehind(row, e)
    ensures TAB !in Decode(row[e..b])
  {
    hide Boundary;
    hide Decode;
    BoundaryShift(row, e, b);
    DecodeAt(row[e..], b - e);
    assert row[e..][..b - e] == row[e..b];
  }

  /** The shifted tail continues a table of the edited row; its columns are exact under the tab condition. */
  lemma {:induction false} ShiftedTail(p: Points, far: nat, row: Bytes, x: nat, e: nat, ins: Bytes, next: Bytes, dDisp: int, r: Ruler,
                                       exact: bool, dense: bool)
    requires r.tab > 0 && Sound(p, row, r, exact, dense) && p.Even() && Behind(p, far, e) && Edited(row, x, e, ins, next)
    ensures x <= e <= |row| && x + |ins| <= |next|
    ensures var dc, db := |Decode(ins)| - |Decode(row[x..e])|, |ins| - (e - x);
            && (forall i :: far <= i < |p.chars| ==> p.chars[i] + dc >= 0 && p.byte[i] + db >= 0)
            && (forall i :: 0 <= i < |p.chars[far..]| ==> p.chars[far..][i] + dc >= 0 && p.byte[far..][i] + db >= 0)
            && var t := Points(ShiftNats(p.chars[far..], dc), ShiftInts(p.disp[far..], dDisp), ShiftNats(p.byte[far..], db));
               var stays := exact && dDisp == DispAt(next, x + |ins|, r) - DispAt(row, e, r)
                            && (NoTabBehind(row, e) || Aligned(dDisp, r.tab));
               SoundTail(t, CharsAt(next, x + |ins|), x + |ins|, next, r, stays, dense)
  {
    hide *;
    EditedParts(row, x, e, ins, next);
    EditedClean(row, x, e, ins, next);
    var dc, db, m := |Decode(ins)| - |Decode(row[x..e])|, |ins| - (e - x), x + |ins|;
    BehindIs(p, far, e);
    TailMarks(p, far, row, x, e, ins, next, dDisp, r, exact, dense);
    var t := Points(ShiftNats(p.chars[far..], dc), ShiftInts(p.disp[far..], dDisp), ShiftNats(p.byte[far..], db));
    TailRises(p, far, row, dc, dDisp, db, r, exact, dense);
    if far < |p.chars| {
      TailBegins(p, far, row, x, e, ins, next, r, exact, dense);
    }
    var stays := exact && dDisp == DispAt(next, m, r) - DispAt(row, e, r) && (NoTabBehind(row, e) || Aligned(dDisp, r.tab));
    if stays {
      TailColumns(p, far, row, x, e, ins, next, dDisp, r, dense);
    }
    IsTail(t, CharsAt(next, m), m, next, r, stays, dense);
  }

  lemma {:induction false} BehindIs(p: Points, far: nat, e: nat)
    requires p.Even() && Behind(p, far, e)
    ensures far <= |p.chars| == |p.disp| == |p.byte|
  {
  }

  lemma {:induction false} IsTail(t: Points, c: nat, b: nat, row: Bytes, r: Ruler, exact: bool, dense: bool)
    requires r.tab > 0 && t.Even() && Marks(t, row) && Rising(t.chars) && Rising(t.byte)
    requires t.chars != [] ==> c < t.chars[0] && b < t.byte[0]
    requires exact ==> Columned(t, row, r)
    requires dense ==> Near(t.chars, r.step) && (t.chars != [] ==> t.chars[0] - c <= r.step)
    ensures SoundTail(t, c, b, row, r, exact, dense)
  {
    hide Marks;
    hide Rising;
    hide Columned;
    hide Near;
  }

  lemma {:induction false} TailMarks(p: Points, far: nat, row: Bytes, x: nat, e: nat, ins: Bytes, next: Bytes, dDisp: int, r: Ruler,
                                     exact: bool, dense: bool)
    requires r.tab > 0 && Sound(p, row, r, exact, dense) && p.Even() && Behind(p, far, e) && Edited(row, x, e, ins, next)
    ensures x <= e <= |row|
    ensures var dc, db := |Decode(ins)| - |Decode(row[x..e])|, |ins| - (e - x);
            && (forall i :: far <= i < |p.chars| ==> p.chars[i] + dc >= 0 && p.byte[i] + db >= 0)
            && (forall i :: 0 <= i < |p.chars[far..]| ==> p.chars[far..][i] + dc >= 0 && p.byte[far..][i] + db >= 0)
            && var t := Points(ShiftNats(p.chars[far..], dc), ShiftInts(p.disp[far..], dDisp), ShiftNats(p.byte[far..], db));
               t.Even() && Marks(t, next)
  {
    hide Mark;
    hide Edited;
    hide Decode;
    hide CharsAt;
    EditedParts(row, x, e, ins, next);
    forall i | far <= i < |p.chars|
      ensures var dc, db := |Decode(ins)| - |Decode(row[x..e])|, |ins| - (e - x);
              p.chars[i] + dc >= 0 && p.byte[i] + db >= 0 && Mark(next, p.chars[i] + dc, p.byte[i] + db)
    {
      MarkBehind(row, x, e, ins, next, p.chars[i], p.byte[i]);
    }
  }

  lemma {:induction false} TailRises(p: Points, far: nat, row: Bytes, dc: int, dd: int, db: int, r: Ruler, exact: bool, dense: bool)
    requires r.tab > 0 && Sound(p, row, r, exact, dense) && p.Even() && far <= |p.chars|
    requires forall i :: 0 <= i < |p.chars[far..]| ==> p.chars[far..][i] + dc >= 0 && p.byte[far..][i] + db >= 0
    ensures var t := Points(ShiftNats(p.chars[far..], dc), ShiftInts(p.disp[far..], dd), ShiftNats(p.byte[far..], db));
            && t.Even() && |t.chars| == |p.chars| - far && Rising(t.chars) && Rising(t.byte)
            && (dense ==> Near(t.chars, r.step))
            && (far < |p.chars| ==> t.chars[0] == p.chars[far] + dc && t.byte[0] == p.byte[far] + db)
  {
    hide Marks;
    hide Columned;
    var t := ShiftNats(p.chars[far..], dc);
    if dense {
      forall i | 0 < i < |t|
        ensures t[i] - t[i - 1] <= r.step
      {
        assert p.chars[far + i] - p.chars[far + i - 1] <= r.step;
      }
    }
  }

  /** The first shifted checkpoint lies behind the inserted text and at most one step from its end. */
  lemma {:induction false} TailBegins(p: Points, far: nat, row: Bytes, x: nat, e: nat, ins: Bytes, next: Bytes, r: Ruler, exact: bool, dense: bool)
    requires r.tab > 0 && Sound(p, row, r, exact, dense) && p.Even() && Behind(p, far, e) && far < |p.chars| && Edited(row, x, e, ins, next)
    ensures x <= e <= |row| && x + |ins| <= |next|
    ensures var dc, db, m := |Decode(ins)| - |Decode(row[x..e])|, |ins| - (e - x), x + |ins|;
            && p.byte[far] + db > m && p.chars[far] + dc > CharsAt(next, m)
            && (dense ==> p.chars[far] + dc - CharsAt(next, m) <= r.step)
  {
    hide Mark;
    hide Edited;
    hide Decode;
    hide CharsAt;
    hide Columned;
    EditedParts(row, x, e, ins, next);
    EditedClean(row, x, e, ins, next);
    assert Mark(row, p.chars[far], p.byte[far]);
    MarkBehind(row, x, e, ins, next, p.chars[far], p.byte[far]);
    assert far > 0;
    SoundAt(p, row, r, exact, dense, far - 1);
    CharsGrow(row, p.byte[far - 1], e);
  }

  lemma {:induction false} CharsGrow(row: Bytes, p: nat, q: nat)
    requires p <= q <= |row| && Boundary(row, p)
    ensures CharsAt(row, p) <= CharsAt(row, q)
  {
    hide *;
    TextBetween(row, p, q);
    CharsIs(row, p);
    CharsIs(row, q);
  }

  lemma {:induction false} TailColumns(p: Points, far: nat, row: Bytes, x: nat, e: nat, ins: Bytes, next: Bytes, dDisp: int, r: Ruler, dense: bool)
    requires r.tab > 0 && Sound(p, row, r, true, dense) && p.Even() && Behind(p, far, e) && Edited(row, x, e, ins, next)
    requires x <= e <= |row| && x + |ins| <= |next| && dDisp == DispAt(next, x + |ins|, r) - DispAt(row, e, r)
    requires NoTabBehind(row, e) || Aligned(dDisp, r.tab)
    requires var dc, db := |Decode(ins)| - |Decode(row[x..e])|, |ins| - (e - x);
             forall i :: 0 <= i < |p.chars[far..]| ==> p.chars[far..][i] + dc >= 0 && p.byte[far..][i] + db >= 0
    ensures var dc, db := |Decode(ins)| - |Decode(row[x..e])|, |ins| - (e - x);
            var t := Points(ShiftNats(p.chars[far..], dc), ShiftInts(p.disp[far..], dDisp), ShiftNats(p.byte[far..], db));
            t.Even() && Columned(t, next, r)
  {
    hide *;
    EditedParts(row, x, e, ins, next);
    EditedClean(row, x, e, ins, next);
    BehindIs(p, far, e);
    BehindAre(p, far, e);
    forall i | far <= i < |p.chars|
      ensures 0 <= p.byte[i] + |ins| - (e - x) <= |next| && p.disp[i] + dDisp == DispAt(next, p.byte[i] + |ins| - (e - x), r)
    {
      SoundAt(p, row, r, true, dense, i);
      ColumnsBehind(row, x, e, ins, next, p.byte[i], r);
      if NoTabBehind(row, e) {
        NoTabBefore(row, e, p.byte[i]);
      }
    }
    ColumnedShift(p, far, |Decode(ins)| - |Decode(row[x..e])|, dDisp, |ins| - (e - x), next, r);
  }

  lemma {:induction false} BehindAre(p: Points, far: nat, e: nat)
    requires p.Even() && Behind(p, far, e) && far <= |p.chars| == |p.byte|
    ensures forall i :: far <= i < |p.chars| ==> p.byte[i] > e
  {
  }

  lemma {:induction false} ColumnedShift(p: Points, far: nat, dc: int, dd: int, db: int, next: Bytes, r: Ruler)
    requires r.tab > 0 && p.Even() && far <= |p.chars| == |p.disp| == |p.byte|
    requires forall i :: far <= i < |p.chars| ==>
               0 <= p.byte[i] + db <= |next| && p.disp[i] + dd == DispAt(next, p.byte[i] + db, r)
    requires forall i :: 0 <= i < |p.chars[far..]| ==> p.chars[far..][i] + dc >= 0 && p.byte[far..][i] + db >= 0
    ensures var t := Points(ShiftNats(p.chars[far..], dc), ShiftInts(p.disp[far..], dd), ShiftNats(p.byte[far..], db));
            t.Even() && Columned(t, next, r)
  {
    hide DispAt;
  }
}
