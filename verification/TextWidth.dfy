/**
 Display columns of decoded text (`text_width.py`). The width of one character is a parameter: nothing is
 assumed about it except that a printable ASCII character takes one cell. A tab runs to the next tab stop.
 */
module TextWidth {
  import opened Rows
  import opened SparseRows
  import opened Utf8

  const TAB: Char := [9]
  const CHUNK: nat := 1024
  const GROUP: nat := 64
  const SPLIT_MIN: nat := 512

  type Width = Char -> nat

  predicate Printable(c: Char) {
    |c| == 1 && 0x20 <= c[0] < 0x7F
  }

  predicate IsAscii(c: Char) {
    |c| == 1 && c[0] < 0x80
  }

  /** Printable ASCII takes one cell per character. */
  ghost predicate OneCell(w: Width) {
    forall c: Char :: Printable(c) ==> w(c) == 1
  }

  /** The column behind one character that starts at `disp`. */
  function After(c: Char, disp: int, tab: nat, w: Width): int
    requires tab > 0
  {
    if c == TAB then disp + (tab - disp % tab) else disp + w(c)
  }

  /** The column behind `text` when it starts at `disp`, character by character. */
  function Columns(text: seq<Char>, disp: int, tab: nat, w: Width): int
    requires tab > 0
  {
    if text == [] then disp
    else After(text[|text| - 1], Columns(text[..|text| - 1], disp, tab, w), tab, w)
  }

  lemma {:induction false} ColumnsNone(disp: int, tab: nat, w: Width)
    requires tab > 0
    ensures Columns([], disp, tab, w) == disp
  {
  }

  lemma {:induction false} ColumnsSnoc(text: seq<Char>, c: Char, disp: int, tab: nat, w: Width)
    requires tab > 0
    ensures Columns(text + [c], disp, tab, w) == After(c, Columns(text, disp, tab, w), tab, w)
  {
    assert (text + [c])[..|text|] == text;
  }

  lemma {:induction false} ColumnsConcat(a: seq<Char>, b: seq<Char>, disp: int, tab: nat, w: Width)
    requires tab > 0
    ensures Columns(a + b, disp, tab, w) == Columns(b, Columns(a, disp, tab, w), tab, w)
  {
    hide *;
    if b == [] {
      assert a + b == a;
      ColumnsNone(Columns(a, disp, tab, w), tab, w);
    } else {
      var n := |b| - 1;
      ColumnsConcat(a, b[..n], disp, tab, w);
      assert a + b == (a + b[..n]) + [b[n]];
      assert b == b[..n] + [b[n]];
      ColumnsSnoc(a + b[..n], b[n], disp, tab, w);
      ColumnsSnoc(b[..n], b[n], Columns(a, disp, tab, w), tab, w);
    }
  }

  /** Columns never go back. */
  lemma {:induction false} ColumnsRise(text: seq<Char>, i: nat, j: nat, disp: int, tab: nat, w: Width)
    requires tab > 0 && i <= j <= |text|
    ensures disp <= Columns(text[..i], disp, tab, w) <= Columns(text[..j], disp, tab, w)
    decreases j
  {
    if j > 0 {
      assert text[..j][..j - 1] == text[..j - 1];
      assert text[..j][j - 1] == text[j - 1];
      ColumnsRise(text, if i < j then i else j - 1, j - 1, disp, tab, w);
    }
  }

  // ----- widths without tabs ----------------------------------------------------------------------------

  function Sum(text: seq<Char>, w: Width): nat {
    if text == [] then 0 else Sum(text[..|text| - 1], w) + w(text[|text| - 1])
  }

  /** Without tabs the column is the start plus the widths. */
  lemma {:induction false} NoTabs(text: seq<Char>, disp: int, tab: nat, w: Width)
    requires tab > 0 && TAB !in text
    ensures Columns(text, disp, tab, w) == disp + Sum(text, w)
  {
    if text != [] {
      NoTabs(text[..|text| - 1], disp, tab, w);
    }
  }

  /** Printable ASCII text is as wide as it is long. */
  lemma {:induction false} PlainSum(text: seq<Char>, w: Width)
    requires OneCell(w) && forall i :: 0 <= i < |text| ==> Printable(text[i])
    ensures Sum(text, w) == |text|
  {
    if text != [] {
      PlainSum(text[..|text| - 1], w);
      assert Printable(text[|text| - 1]);
    }
  }

  function AsciiPart(text: seq<Char>): seq<Char> {
    if text == [] then []
    else AsciiPart(text[..|text| - 1]) + if IsAscii(text[|text| - 1]) then [text[|text| - 1]] else []
  }

  function OtherPart(text: seq<Char>): seq<Char> {
    if text == [] then []
    else OtherPart(text[..|text| - 1]) + if IsAscii(text[|text| - 1]) then [] else [text[|text| - 1]]
  }

  /** Widths add up over the ASCII and the other characters, in whatever order they stand. */
  lemma {:induction false} SplitSum(text: seq<Char>, w: Width)
    ensures Sum(text, w) == Sum(AsciiPart(text), w) + Sum(OtherPart(text), w)
  {
    if text != [] {
      var n := |text| - 1;
      var c := text[n];
      SplitSum(text[..n], w);
      SumSnoc(AsciiPart(text[..n]), c, w);
      SumSnoc(OtherPart(text[..n]), c, w);
      assert AsciiPart(text[..n]) + [] == AsciiPart(text[..n]) && OtherPart(text[..n]) + [] == OtherPart(text[..n]);
    }
  }

  lemma {:induction false} SumSnoc(text: seq<Char>, c: Char, w: Width)
    ensures Sum(text + [c], w) == Sum(text, w) + w(c)
  {
    assert (text + [c])[..|text|] == text;
  }

  predicate AllAscii(text: seq<Char>) {
    forall i :: 0 <= i < |text| ==> IsAscii(text[i])
  }

  /** `_plain`. */
  predicate Plain(text: seq<Char>) {
    forall i :: 0 <= i < |text| ==> Printable(text[i])
  }

  /** `_cells`: the shortcuts give the sum of the character widths. */
  function Cells(text: seq<Char>, w: Width): (n: nat)
    requires OneCell(w)
    ensures n == Sum(text, w)
  {
    if |text| < SPLIT_MIN || AllAscii(text) then
      if Plain(text) then PlainSum(text, w); |text| else Sum(text, w)
    else
      SplitSum(text, w);
      var ascii := AsciiPart(text);
      (if Plain(ascii) then PlainSum(ascii, w); |ascii| else Sum(ascii, w)) + Sum(OtherPart(text), w)
  }

  /** Index of the first tab at or after `from`, the length when there is none. */
  function FindTab(text: seq<Char>, from: nat): (i: nat)
    requires from <= |text|
    ensures from <= i <= |text| && TAB !in text[from..i] && (i < |text| ==> text[i] == TAB)
    decreases |text| - from
  {
    if from == |text| then from
    else if text[from] == TAB then from
    else
      assert text[from..FindTab(text, from + 1)] == [text[from]] + text[from + 1..FindTab(text, from + 1)];
      FindTab(text, from + 1)
  }

  /** `advance_disp`: part by part between the tabs. */
  method AdvanceDisp(text: seq<Char>, disp: int, tab: nat, w: Width) returns (r: int)
    requires tab > 0 && OneCell(w)
    ensures r == Columns(text, disp, tab, w)
  {
    hide *;
    r := disp;
    var from := 0;
    ColumnsNone(disp, tab, w);
    assert text[..0] == [];
    while true
      invariant from <= |text| && r == Columns(text[..from], disp, tab, w)
      decreases |text| - from
    {
      var at := FindTab(text, from);
      var part := text[from..at];
      if part != [] {
        r := r + Cells(part, w);
      }
      NoTabs(part, Columns(text[..from], disp, tab, w), tab, w);
      EmptySum(w);
      assert text[..at] == text[..from] + part;
      ColumnsConcat(text[..from], part, disp, tab, w);
      if at == |text| {
        assert text[..at] == text;
        return;
      }
      assert text[..at + 1] == text[..at] + [text[at]];
      ColumnsSnoc(text[..at], text[at], disp, tab, w);
      AfterTab(r, tab, w);
      r := r + (tab - r % tab);
      from := at + 1;
    }
  }

  lemma {:induction false} EmptySum(w: Width)
    ensures Sum([], w) == 0
  {
  }

  lemma {:induction false} AfterTab(disp: int, tab: nat, w: Width)
    requires tab > 0
    ensures After(TAB, disp, tab, w) == disp + (tab - disp % tab)
  {
  }

  lemma {:induction false} AfterChar(c: Char, disp: int, tab: nat, w: Width)
    requires tab > 0
    ensures After(c, disp, tab, w) == if c == TAB then disp + (tab - disp % tab) else disp + w(c)
  {
  }

  // ----- which character covers a column -------------------------------------------------------------------

  /** The column behind character `i`. */
  function EndColumn(text: seq<Char>, i: nat, disp: int, tab: nat, w: Width): int
    requires tab > 0 && i < |text|
  {
    Columns(text[..i + 1], disp, tab, w)
  }

  /** `i` is the first character whose end column exceeds `target`; the length when there is none. */
  ghost predicate Covers(text: seq<Char>, i: nat, disp: int, target: int, tab: nat, w: Width)
    requires tab > 0
  {
    && i <= |text|
    && (forall j :: 0 <= j < i ==> EndColumn(text, j, disp, tab, w) <= target)
    && (i < |text| ==> EndColumn(text, i, disp, tab, w) > target)
  }

  /** When the column behind a prefix does not exceed the target, no character of it does. */
  lemma {:induction false} SkipPrefix(text: seq<Char>, n: nat, disp: int, target: int, tab: nat, w: Width)
    requires tab > 0 && n <= |text| && Columns(text[..n], disp, tab, w) <= target
    ensures forall j :: 0 <= j < n ==> EndColumn(text, j, disp, tab, w) <= target
  {
    forall j | 0 <= j < n
      ensures EndColumn(text, j, disp, tab, w) <= target
    {
      ColumnsRise(text, j + 1, n, disp, tab, w);
    }
  }

  /** `_cover_in_chunk`: groups are skipped whole, only one is searched character by character. */
  method CoverInChunk(chunk: seq<Char>, disp: int, target: int, tab: nat, w: Width) returns (index: nat)
    requires tab > 0 && OneCell(w) && Columns(chunk, disp, tab, w) > target && disp <= target
    ensures index < |chunk| && Covers(chunk, index, disp, target, tab, w)
  {
    hide *;
    GroupIs();
    var start, column := 0, disp;
    ColumnsNone(disp, tab, w);
    assert chunk[..0] == [];
    while start + GROUP < |chunk|
      invariant start <= |chunk| && column == Columns(chunk[..start], disp, tab, w) <= target
      decreases |chunk| - start
    {
      var after := AdvanceDisp(chunk[start..start + GROUP], column, tab, w);
      assert chunk[..start + GROUP] == chunk[..start] + chunk[start..start + GROUP];
      ColumnsConcat(chunk[..start], chunk[start..start + GROUP], disp, tab, w);
      if after > target {
        break;
      }
      column := after;
      start := start + GROUP;
    }
    index := start;
    var stop := if start + GROUP < |chunk| then start + GROUP else |chunk|;
    assert chunk[..|chunk|] == chunk;
    while index < stop
      invariant start <= index <= stop <= |chunk| && column == Columns(chunk[..index], disp, tab, w) <= target
      invariant Columns(chunk[..stop], disp, tab, w) > target
    {
      var c := chunk[index];
      assert chunk[..index + 1] == chunk[..index] + [c];
      ColumnsSnoc(chunk[..index], c, disp, tab, w);
      AfterChar(c, column, tab, w);
      SkipPrefix(chunk, index, disp, target, tab, w);
      column := if c == TAB then column + (tab - column % tab) else column + w(c);
      if column > target {
        IsCover(chunk, index, disp, target, tab, w);
        return;
      }
      index := index + 1;
    }
    // Unreachable: the chunk ends behind the target.
    assert false;
  }

  lemma {:induction false} GroupIs()
    ensures GROUP > 0 && CHUNK > 0
  {
  }

  lemma {:induction false} IsCover(text: seq<Char>, i: nat, disp: int, target: int, tab: nat, w: Width)
    requires tab > 0 && i < |text| && Columns(text[..i + 1], disp, tab, w) > target
    requires forall j :: 0 <= j < i ==> EndColumn(text, j, disp, tab, w) <= target
    ensures Covers(text, i, disp, target, tab, w)
  {
  }

  /** Index and whether a character covers the column. */
  datatype Cover = Cover(index: nat, hit: bool)

  /** `locate_cover`: the first character whose end column exceeds the target. */
  method LocateCover(text: seq<Char>, disp0: int, target: int, tab: nat, w: Width) returns (r: Cover)
    requires tab > 0 && OneCell(w)
    ensures Covers(text, r.index, disp0, target, tab, w) && (r.hit <==> r.index < |text|)
  {
    hide *;
    GroupIs();
    var size := |text|;
    if target < disp0 {
      BeforeStart(text, disp0, target, tab, w);
      return Cover(0, size > 0);
    }
    if Plain(text) && TAB !in text {
      PlainCover(text, disp0, target, tab, w);
      var offset := target - disp0;
      return if offset < size then Cover(offset, true) else Cover(size, false);
    }
    var disp, pos := disp0, 0;
    ColumnsNone(disp0, tab, w);
    assert text[..0] == [];
    while pos < size
      invariant pos <= size == |text| && disp == Columns(text[..pos], disp0, tab, w) <= target
    {
      var stop := if pos + CHUNK < size then pos + CHUNK else size;
      var chunk := text[pos..stop];
      var end := AdvanceDisp(chunk, disp, tab, w);
      assert text[..stop] == text[..pos] + chunk;
      ColumnsConcat(text[..pos], chunk, disp0, tab, w);
      if end > target {
        var index := CoverInChunk(chunk, disp, target, tab, w);
        ShiftCover(text, pos, stop, index, disp0, target, tab, w);
        return Cover(pos + index, true);
      }
      disp := end;
      pos := stop;
    }
    assert text[..pos] == text;
    SkipPrefix(text, size, disp0, target, tab, w);
    NoCover(text, disp0, target, tab, w);
    r := Cover(size, false);
  }

  lemma {:induction false} NoCover(text: seq<Char>, disp: int, target: int, tab: nat, w: Width)
    requires tab > 0 && forall j :: 0 <= j < |text| ==> EndColumn(text, j, disp, tab, w) <= target
    ensures Covers(text, |text|, disp, target, tab, w)
  {
  }

  lemma {:induction false} BeforeStart(text: seq<Char>, disp: int, target: int, tab: nat, w: Width)
    requires tab > 0 && target < disp
    ensures Covers(text, 0, disp, target, tab, w)
  {
    if text != [] {
      ColumnsRise(text, 0, 1, disp, tab, w);
    }
  }

  /** In plain text every character is one cell wide. */
  lemma {:induction false} PlainCover(text: seq<Char>, disp: int, target: int, tab: nat, w: Width)
    requires tab > 0 && OneCell(w) && Plain(text) && TAB !in text && disp <= target
    ensures Covers(text, if target - disp < |text| then target - disp else |text|, disp, target, tab, w)
  {
    forall j | 0 <= j < |text|
      ensures EndColumn(text, j, disp, tab, w) == disp + j + 1
    {
      NoTabs(text[..j + 1], disp, tab, w);
      PlainSum(text[..j + 1], w);
    }
  }

  /** The cover inside a chunk is the cover of the whole when everything before is skipped. */
  lemma {:induction false} ShiftCover(text: seq<Char>, pos: nat, stop: nat, index: nat, disp0: int, target: int, tab: nat, w: Width)
    requires tab > 0 && pos <= stop <= |text| && Columns(text[..pos], disp0, tab, w) <= target
    requires index < stop - pos && Covers(text[pos..stop], index, Columns(text[..pos], disp0, tab, w), target, tab, w)
    ensures Covers(text, pos + index, disp0, target, tab, w)
  {
    SkipPrefix(text, pos, disp0, target, tab, w);
    var chunk := text[pos..stop];
    forall j | pos <= j < stop
      ensures EndColumn(text, j, disp0, tab, w) == EndColumn(chunk, j - pos, Columns(text[..pos], disp0, tab, w), tab, w)
    {
      assert text[..j + 1] == text[..pos] + chunk[..j - pos + 1];
      ColumnsConcat(text[..pos], chunk[..j - pos + 1], disp0, tab, w);
    }
    forall j | pos <= j < pos + index
      ensures EndColumn(text, j, disp0, tab, w) <= target
    {
      assert EndColumn(chunk, j - pos, Columns(text[..pos], disp0, tab, w), tab, w) <= target;
    }
  }

  // ----- shifting text by columns ----------------------------------------------------------------------------

  /** A change of width that keeps every tab stop. */
  predicate Aligned(delta: int, tab: nat)
    requires tab > 0
  {
    delta % tab == 0
  }

  lemma {:induction false} AlignedIs(delta: int, tab: nat)
    requires tab > 0
    ensures Aligned(delta, tab) <==> delta % tab == 0
  {
  }

  /**
   Text moved sideways by `delta` columns keeps its relative columns exactly when no tab is in it or the move is
   a multiple of the tab width.
   */
  lemma {:induction false} ShiftColumns(text: seq<Char>, disp: int, delta: int, tab: nat, w: Width)
    requires tab > 0
    ensures Columns(text, disp + delta, tab, w) == Columns(text, disp, tab, w) + delta <==> TAB !in text || Aligned(delta, tab)
  {
    hide *;
    AlignedIs(delta, tab);
    if TAB !in text {
      NoTabs(text, disp, tab, w);
      NoTabs(text, disp + delta, tab, w);
    } else if delta % tab == 0 {
      ShiftByTabs(text, disp, delta, tab, w);
    } else {
      TabBreaksShift(text, disp, delta, tab, w);
    }
  }

  lemma {:induction false} ShiftByTabs(text: seq<Char>, disp: int, delta: int, tab: nat, w: Width)
    requires tab > 0 && delta % tab == 0
    ensures Columns(text, disp + delta, tab, w) == Columns(text, disp, tab, w) + delta
  {
    hide *;
    if text == [] {
      ColumnsNone(disp, tab, w);
      ColumnsNone(disp + delta, tab, w);
    } else {
      var n := |text| - 1;
      assert text == text[..n] + [text[n]];
      ShiftByTabs(text[..n], disp, delta, tab, w);
      ColumnsSnoc(text[..n], text[n], disp, tab, w);
      ColumnsSnoc(text[..n], text[n], disp + delta, tab, w);
      ColumnsRise(text, 0, n, disp, tab, w);
      var d := Columns(text[..n], disp, tab, w);
      AfterChar(text[n], d, tab, w);
      AfterChar(text[n], d + delta, tab, w);
      SameRemainder(d, delta, tab);
    }
  }

  lemma {:induction false} SameRemainder(d: int, delta: int, tab: int)
    requires tab > 0 && delta % tab == 0
    ensures (d + delta) % tab == d % tab
  {
    var k := delta / tab;
    assert delta == k * tab;
    RemainderUnique(d, k, tab);
  }

  lemma {:induction false} RemainderUnique(d: int, k: int, tab: int)
    requires tab > 0
    ensures (d + k * tab) % tab == d % tab
  {
    var q, r := d / tab, d % tab;
    var a, b := (d + k * tab) / tab, (d + k * tab) % tab;
    assert d + k * tab == (q + k) * tab + r;
    assert (a - q - k) * tab == r - b;
    Within(a - q - k, r - b, tab);
  }

  lemma {:induction false} Within(m: int, x: int, tab: int)
    requires tab > 0 && m * tab == x && -tab < x < tab
    ensures x == 0
  {
    AtLeast(m, tab);
    AtLeast(-m, tab);
    assert (-m) * tab == -x;
  }

  /** Behind a tab both columns are tab stops, so they differ by a multiple of the tab width and never by `delta`. */
  lemma {:induction false} TabBreaksShift(text: seq<Char>, disp: int, delta: int, tab: nat, w: Width)
    requires tab > 0 && delta % tab != 0 && TAB in text
    ensures Columns(text, disp + delta, tab, w) != Columns(text, disp, tab, w) + delta
  {
    hide *;
    var at := FindTab(text, 0);
    FoundTab(text, at);
    var front, back := text[..at], text[at + 1..];
    assert text == (front + [TAB]) + back;
    StopShift(front, disp, delta, tab, w);
    var a, b := Columns(front + [TAB], disp, tab, w), Columns(front + [TAB], disp + delta, tab, w);
    ColumnsConcat(front + [TAB], back, disp, tab, w);
    ColumnsConcat(front + [TAB], back, disp + delta, tab, w);
    ShiftByTabs(back, a, b - a, tab, w);
  }

  lemma {:induction false} StopShift(front: seq<Char>, disp: int, delta: int, tab: nat, w: Width)
    requires tab > 0
    ensures (Columns(front + [TAB], disp + delta, tab, w) - Columns(front + [TAB], disp, tab, w)) % tab == 0
  {
    hide *;
    var x, y := Columns(front, disp, tab, w), Columns(front, disp + delta, tab, w);
    ColumnsSnoc(front, TAB, disp, tab, w);
    ColumnsSnoc(front, TAB, disp + delta, tab, w);
    AfterTab(x, tab, w);
    AfterTab(y, tab, w);
    StopsApart(x, y, tab);
  }

  lemma {:induction false} FoundTab(text: seq<Char>, at: nat)
    requires at <= |text| && TAB in text && TAB !in text[0..at] && (at < |text| ==> text[at] == TAB)
    ensures at < |text| && text[..at] == text[0..at]
  {
    assert text[0..|text|] == text;
  }

  lemma {:induction false} StopsApart(x: int, y: int, tab: int)
    requires tab > 0
    ensures ((y + (tab - y % tab)) - (x + (tab - x % tab))) % tab == 0
  {
    var p, q := x / tab, y / tab;
    assert x == p * tab + x % tab && y == q * tab + y % tab;
    var m := q - p;
    assert (y + (tab - y % tab)) - (x + (tab - x % tab)) == m * tab;
    RemainderUnique(0, m, tab);
  }
}
