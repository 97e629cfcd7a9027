/** Two short edits after each other for which the columns of a long-row index go wrong, step by step. */
module LongRowRuns {
  import opened Rows
  import opened Utf8
  import opened TextWidth
  import opened LongRow
  import Long = LongLineIndex

  /** The text `abc`, a tab, `de`. */
  const ABC_TAB_DE: Bytes := [97, 98, 99, 9, 100, 101]
  const TAB_DE: Bytes := [9, 100, 101]
  const A_TAB_DE: Bytes := [97, 9, 100, 101]

  function OneWide(c: Char): nat { 1 }

  function FourTab(): Ruler {
    Ruler(4, 8, OneWide)
  }

  /** One character per byte. */
  function Letters(s: Bytes): seq<Char> {
    seq(|s|, i requires 0 <= i < |s| => [s[i]])
  }

  lemma {:induction false} Ascii(s: Bytes, p: nat)
    requires p <= |s| && forall i :: 0 <= i < |s| ==> s[i] < 0x80
    ensures Decode(s) == Letters(s) && Boundary(s, p)
    decreases |s|
  {
    if s != [] {
      assert Step(s) == 1;
      Ascii(s[1..], if p > 0 then p - 1 else 0);
      assert Letters(s) == [[s[0]]] + Letters(s[1..]);
      assert s[..1] == [s[0]];
    }
  }

  function Move(b: Byte, d: int): int {
    if b == 9 then d + (4 - d % 4) else d + 1
  }

  /** The column behind ASCII text, byte by byte. */
  function Fold(s: Bytes, d: int): int {
    if s == [] then d else Fold(s[1..], Move(s[0], d))
  }

  lemma {:induction false} FoldIs(s: Bytes, d: int)
    requires forall i :: 0 <= i < |s| ==> s[i] < 0x80
    ensures Columns(Decode(s), d, 4, OneWide) == Fold(s, d)
    decreases |s|
  {
    hide Columns;
    Ascii(s, 0);
    if s == [] {
      ColumnsNone(d, 4, OneWide);
    } else {
      var next := Move(s[0], d);
      Ascii(s[1..], 0);
      FoldIs(s[1..], next);
      assert Letters(s) == [[s[0]]] + Letters(s[1..]);
      ColumnsConcat([[s[0]]], Letters(s[1..]), d, 4, OneWide);
      assert [[s[0]]] == [] + [[s[0]]];
      ColumnsSnoc([], [s[0]], d, 4, OneWide);
      ColumnsNone(d, 4, OneWide);
    }
  }

  lemma {:induction false} RulerFits()
    ensures FourTab().Valid() && FourTab().tab == 4 && FourTab().step == 8 && FourTab().w == OneWide
  {
  }

  /** A place in an ASCII row. */
  lemma {:induction false} PlaceIn(row: Bytes, p: nat)
    requires p <= |row| && forall i :: 0 <= i < |row| ==> row[i] < 0x80
    ensures Boundary(row, p) && Mark(row, p, p) && DispAt(row, p, FourTab()) == Fold(row[..p], 0)
    ensures |Decode(row[p..])| == |row| - p && |Decode(row[..p])| == p
  {
    hide *;
    RulerFits();
    Ascii(row, p);
    AsciiSlice(row, 0, p);
    AsciiSlice(row, p, |row|);
    Ascii(row[..p], 0);
    Ascii(row[p..], 0);
    LettersLength(row[..p]);
    LettersLength(row[p..]);
    FoldIs(row[..p], 0);
    DispIs(row, p, FourTab());
    MarkIs(row, p, p);
  }

  lemma {:induction false} AsciiSlice(row: Bytes, a: nat, b: nat)
    requires a <= b <= |row| && forall i :: 0 <= i < |row| ==> row[i] < 0x80
    ensures forall i :: 0 <= i < |row[a..b]| ==> row[a..b][i] < 0x80
    ensures row[..b] == row[0..b] && row[a..] == row[a..|row|]
  {
  }

  lemma {:induction false} LettersLength(s: Bytes)
    ensures |Letters(s)| == |s|
  {
  }

  /** A cut `[x, e)` of an ASCII row. */
  lemma {:induction false} CutRow(row: Bytes, x: nat, e: nat)
    requires x <= e <= |row| && forall i :: 0 <= i < |row| ==> row[i] < 0x80
    ensures Edited(row, x, e, [], row[..x] + row[e..]) && |Decode(row[x..e])| == e - x
    ensures forall d: int :: Columns(Decode(row[x..e]), d, 4, OneWide) == Fold(row[x..e], d)
  {
    var next := row[..x] + row[e..];
    assert row[..x] + [] + row[e..] == next;
    Ascii(row, x);
    Ascii(row, e);
    Ascii(next, x);
    var none: Bytes := [];
    assert x + |none| == x;
    Ascii(row[x..e], 0);
    forall d: int
      ensures Columns(Decode(row[x..e]), d, 4, OneWide) == Fold(row[x..e], d)
    {
      FoldIs(row[x..e], d);
    }
  }

  /** A complete, exact index of `abc`, tab, `de`. */
  method Whole() returns (index: Long.LongLineIndex)
    ensures fresh(index) && index.Valid() && index.exact && !index.failed && index.complete && index.gap.None? && index.Row() == ABC_TAB_DE
    ensures index.r == FourTab() && index.chars == [0, 6] && index.disp == [0, 6] && index.byte == [0, 6]
  {
    hide *;
    RulerFits();
    Text();
    PlaceIn(ABC_TAB_DE, 6);
    DispIs(ABC_TAB_DE, 6, FourTab());
    index := new Long.LongLineIndex(ABC_TAB_DE, 0, 6, FourTab(), 16, Some(Long.Totals(6, 6, 6)));
    index.RowIs();
    index.Parts();
    index.TableFields();
    var done := index.Scan(None);
    index.Parts();
    index.TableFields();
  }

  lemma {:induction false} Text()
    ensures |ABC_TAB_DE| == 6 && (forall i :: 0 <= i < 6 ==> ABC_TAB_DE[i] < 0x80) && ABC_TAB_DE[0..6] == ABC_TAB_DE == ABC_TAB_DE[..6]
    ensures Fold(ABC_TAB_DE[..6], 0) == 6
  {
    assert ABC_TAB_DE[..6] == [97, 98, 99, 9, 100, 101];
    assert [97, 98, 99, 9, 100, 101][1..] == [98, 99, 9, 100, 101] && [98, 99, 9, 100, 101][1..] == [99, 9, 100, 101];
    assert [99, 9, 100, 101][1..] == [9, 100, 101];
    FoldThree(9, 100, 101, 3);
  }

  /** Deleting `[x, x + n)` of an ASCII row is described by an edit that removes `n` bytes and characters. */
  lemma {:induction false} DescribesCut(index: Long.LongLineIndex, x: nat, n: nat, width: int, next: Bytes)
    requires index.Valid() && index.r == FourTab() && x + n <= |index.Row()| && next == index.Row()[..x] + index.Row()[x + n..]
    requires forall i :: 0 <= i < |index.Row()| ==> index.Row()[i] < 0x80
    ensures index.Truthful(Long.Edit(x, n, n, width, 0, 0, 0), [], next) && index.r.tab > 0
    ensures index.Measured(Long.Edit(x, n, n, width, 0, 0, 0))
            <==> width == Fold(index.Row()[x..x + n], index.ColumnAt(x)) - index.ColumnAt(x)
  {
    hide *;
    RulerFits();
    index.Parts();
    CutRow(index.Row(), x, x + n);
    DecodeNone();
    ColumnsNone(index.ColumnAt(x), index.r.tab, index.r.w);
    index.IsTruthful(Long.Edit(x, n, n, width, 0, 0, 0), [], next);
    index.MeasuredIs(Long.Edit(x, n, n, width, 0, 0, 0));
  }

  /** Cutting an index: what is known of the one before and of the one behind. */
  lemma {:induction false} CutFacts(index: Long.LongLineIndex, x: nat, n: nat, width: int)
    requires index.Valid() && index.r == FourTab() && x + n < |index.Row()| && index.complete
    ensures |index.byte| == |index.disp| > 0 && index.byte[|index.byte| - 1] == |index.Row()|
    ensures var edit := Long.Edit(x, n, n, width, 0, 0, 0);
            && !index.PrefixOnly(edit) && !index.Defers(0, 0, 1048576)
            && index.EndAfter(edit) == |index.Row()| - n && index.ColumnAfter(edit) == index.disp[|index.disp| - 1] - width
            && (index.disp[|index.disp| - 1] - width < 0 ==> index.GoesNegative(edit))
            && (index.disp[|index.disp| - 1] < index.ColumnAt(x) + width ==> !index.KeepsAscending(edit))
  {
    hide *;
    RulerFits();
    var edit := Long.Edit(x, n, n, width, 0, 0, 0);
    index.Parts();
    index.TableFields();
    index.PrefixOnlyIs(edit);
    index.DefersIs(0, 0, 1048576);
    index.EndAfterIs(edit);
    index.FitIs(edit);
    Long.LongLineIndex.NegativeAt(index.Table(), |index.byte| - 1, x + n, -width, index.ColumnAt(x) + width);
  }

  /**
   Deleting `abc` leaves the stored end column 3, although the row now ends at column 6: a tab lies behind the edit. When
   then the tab and the `d` are deleted, five columns as the index measures them, the stored column would be -2.
   */
  method OverflowRun() returns (second: Long.LongLineIndex, third: Option<Long.LongLineIndex>)
    ensures second.Row() == TAB_DE && second.Valid() && second.complete && second.byte != [] && second.disp[|second.disp| - 1] == 3
    ensures DispAt(TAB_DE, 3, FourTab()) == 6
    ensures second.Truthful(Long.Edit(0, 2, 2, 5, 0, 0, 0), [], [101]) && second.Measured(Long.Edit(0, 2, 2, 5, 0, 0, 0))
    ensures third.None?
  {
    hide *;
    RulerFits();
    Pieces();
    var first := Whole();
    first.ColumnAtExact(0);
    PlaceIn(ABC_TAB_DE, 0);
    DescribesCut(first, 0, 3, 3, TAB_DE);
    CutFacts(first, 0, 3, 3);
    first.ExactEditsFit(Long.Edit(0, 3, 3, 3, 0, 0, 0), [], TAB_DE);
    var made := Long.LongLineIndex.Spliced(first, TAB_DE, Long.Edit(0, 3, 3, 3, 0, 0, 0), 16, 1048576, []);
    second := made.value;
    second.EndsAsIs(first, Long.Edit(0, 3, 3, 3, 0, 0, 0));
    second.ColumnAtFront(0);
    PlaceIn(TAB_DE, 0);
    PlaceIn(TAB_DE, 3);
    DescribesCut(second, 0, 2, 5, [101]);
    CutFacts(second, 0, 2, 5);
    third := Long.LongLineIndex.Spliced(second, [101], Long.Edit(0, 2, 2, 5, 0, 0, 0), 16, 1048576, []);
  }

  /** The index of `abc`, tab, `de` after `bc` was deleted: four bytes, the end column 4. */
  method WithoutBc() returns (second: Long.LongLineIndex)
    ensures second.Valid() && !second.failed && second.complete && second.Row() == A_TAB_DE && second.r == FourTab()
    ensures second.byte != [] && |second.disp| > 0 && second.disp[|second.disp| - 1] == 4 && Ascending(second.disp)
    ensures second.ColumnAt(1) == 1
  {
    hide *;
    RulerFits();
    Pieces();
    var first := Whole();
    first.ColumnAtExact(1);
    first.ExactAscends();
    PlaceIn(ABC_TAB_DE, 1);
    DescribesCut(first, 1, 2, 2, A_TAB_DE);
    CutFacts(first, 1, 2, 2);
    first.ExactEditsFit(Long.Edit(1, 2, 2, 2, 0, 0, 0), [], A_TAB_DE);
    var made := Long.LongLineIndex.Spliced(first, A_TAB_DE, Long.Edit(1, 2, 2, 2, 0, 0, 0), 16, 1048576, []);
    second := made.value;
    second.EndsAsIs(first, Long.Edit(1, 2, 2, 2, 0, 0, 0));
    second.OrderIs(first, Long.Edit(1, 2, 2, 2, 0, 0, 0), false);
    second.ColumnAtFront(1);
    PlaceIn(A_TAB_DE, 1);
  }

  /**
   Deleting `bc` leaves the stored end column 4. Then the tab and the `d` are deleted, four columns from column 1; no
   tab lies behind. The checkpoint of the row end moves to column 0, to the left of the edit.
   */
  method DescendingRun() returns (second: Long.LongLineIndex, third: Option<Long.LongLineIndex>)
    ensures second.Row() == A_TAB_DE && second.Valid() && Ascending(second.disp)
    ensures second.Truthful(Long.Edit(1, 2, 2, 4, 0, 0, 0), [], [97, 101]) && second.Measured(Long.Edit(1, 2, 2, 4, 0, 0, 0))
    ensures NoTabBehind(A_TAB_DE, 3)
    ensures third.Some? && third.value.Valid() && third.value.complete && !Ascending(third.value.disp)
  {
    hide *;
    RulerFits();
    Pieces();
    second := WithoutBc();
    PlaceIn(A_TAB_DE, 1);
    DescribesCut(second, 1, 2, 4, [97, 101]);
    CutFacts(second, 1, 2, 4);
    NoTabHere();
    OnlyLast(second, 4);
    third := Long.LongLineIndex.Spliced(second, [97, 101], Long.Edit(1, 2, 2, 4, 0, 0, 0), 16, 1048576, []);
    third.value.OrderIs(second, Long.Edit(1, 2, 2, 4, 0, 0, 0), false);
  }

  /** Only the last checkpoint of this index lies behind byte 3, so none goes negative. */
  lemma {:induction false} OnlyLast(index: Long.LongLineIndex, width: nat)
    requires index.Valid() && index.complete && |index.Row()| == 4 && index.byte != [] && index.disp != []
    requires index.disp[|index.disp| - 1] >= width
    ensures !index.GoesNegative(Long.Edit(1, 2, 2, width, 0, 0, 0))
  {
    index.Parts();
    index.TableFields();
    index.ByteOrder();
  }

  lemma {:induction false} NoTabHere()
    ensures NoTabBehind(A_TAB_DE, 3)
  {
    assert A_TAB_DE[3..] == [101];
    Ascii([101], 0);
  }

  lemma {:induction false} Pieces()
    ensures ABC_TAB_DE[..0] + ABC_TAB_DE[3..] == TAB_DE && ABC_TAB_DE[..1] + ABC_TAB_DE[3..] == A_TAB_DE
    ensures TAB_DE[..0] + TAB_DE[2..] == [101] && A_TAB_DE[..1] + A_TAB_DE[3..] == [97, 101]
    ensures |ABC_TAB_DE| == 6 && |TAB_DE| == 3 && |A_TAB_DE| == 4
    ensures forall i :: 0 <= i < 6 ==> ABC_TAB_DE[i] < 0x80
    ensures forall i :: 0 <= i < 3 ==> TAB_DE[i] < 0x80
    ensures forall i :: 0 <= i < 4 ==> A_TAB_DE[i] < 0x80
    ensures Fold(ABC_TAB_DE[0..3], 0) == 3 && Fold(ABC_TAB_DE[1..3], 1) == 3 && Fold(TAB_DE[0..2], 0) == 5 && Fold(A_TAB_DE[1..3], 1) == 5
    ensures Fold(TAB_DE[..3], 0) == 6 && Fold(TAB_DE[..0], 0) == 0 && Fold(ABC_TAB_DE[..0], 0) == 0
    ensures Fold(ABC_TAB_DE[..1], 0) == 1 && Fold(A_TAB_DE[..1], 0) == 1
  {
    assert ABC_TAB_DE[0..3] == [97, 98, 99] && ABC_TAB_DE[1..3] == [98, 99] && TAB_DE[0..2] == [9, 100] && A_TAB_DE[1..3] == [9, 100];
    assert TAB_DE[..3] == [9, 100, 101] && ABC_TAB_DE[..1] == [97] && A_TAB_DE[..1] == [97];
    FoldThree(97, 98, 99, 0);
    FoldThree(9, 100, 101, 0);
    FoldTwo(98, 99, 1);
    FoldTwo(9, 100, 0);
    FoldTwo(9, 100, 1);
  }

  lemma {:induction false} FoldTwo(a: Byte, b: Byte, d: int)
    ensures Fold([a, b], d) == Move(b, Move(a, d)) && Fold([a], d) == Move(a, d) && Fold([], d) == d
  {
    assert [a, b][1..] == [b] && [a][1..] == [] && [b][1..] == [];
    assert Fold([b], Move(a, d)) == Move(b, Move(a, d));
  }

  lemma {:induction false} FoldThree(a: Byte, b: Byte, c: Byte, d: int)
    ensures Fold([a, b, c], d) == Move(c, Move(b, Move(a, d)))
  {
    assert [a, b, c][1..] == [b, c];
    FoldTwo(b, c, Move(a, d));
  }
}
