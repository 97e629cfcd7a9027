/**
 The checkpoint index of one very long row (`long_line_index.py`): a scan that decodes block by block, an edit
 that reuses the checkpoints on both sides, and queries that decode from the nearest checkpoint.
 */
module LongLineIndex {
  import opened Rows
  import opened SparseRows
  import opened Utf8
  import opened TextWidth
  import opened LongRow

  const MAX_SEQUENCE: nat := 4

  /**
   Work the scan does first after a splice: scan the inserted text up to `endByte`, where it must reach `endChars`
   and `endDisp`, then attach the shifted tail.
   */
  datatype Gap = Gap(endByte: nat, endChars: nat, endDisp: int, tail: Points, complete: bool)

  /**
   One replacement inside a row: `[xRel, xRel + removedBytes)` goes, the added text comes. The display measures are
   widths of the text when it starts at the column of `xRel`.
   */
  datatype Edit = Edit(xRel: nat, removedBytes: nat, removedChars: nat, removedDisp: int,
                       addedBytes: nat, addedChars: nat, addedDisp: int)

  /** How appending a tail ends: joined, not at the announced checkpoint, or broken off at a negative column. */
  datatype Attached = Joined | Mismatched | Overflowed

  /** How a scan ends: finished, stopped by a cancel, or with a recorded error. */
  datatype ScanEnd = Finished | Stopped | Broken

  /** Running totals of a scan. */
  datatype Totals = Totals(chars: nat, disp: int, rel: nat)

  // ----- one block -------------------------------------------------------------------------------------

  /** The next characters of a text lead from one exact checkpoint to the next. */
  lemma {:induction false} NextPoint(row: Bytes, p: nat, q: nat, m: nat, n: nat, r: Ruler)
    requires p <= q <= |row| && Boundary(row, p) && Boundary(row, q) && m < n <= |Decode(row[p..q])| && r.tab > 0
    ensures var text := Decode(row[p..q]);
            var a, b := p + EncodedLength(text[..m]), p + EncodedLength(text[..n]);
            && a < b <= q && b == a + EncodedLength(text[m..n])
            && Mark(row, CharsAt(row, p) + n, b) && CharsAt(row, a) == CharsAt(row, p) + m
            && DispAt(row, b, r) == Columns(text[m..n], DispAt(row, a, r), r.tab, r.w)
  {
    hide *;
    var text := Decode(row[p..q]);
    PrefixPlace(row, p, q, m);
    PrefixPlace(row, p, q, n);
    var a, b := p + EncodedLength(text[..m]), p + EncodedLength(text[..n]);
    assert text[..n] == text[..m] + text[m..n];
    LengthJoin(text[..m], text[m..n]);
    CharsIs(row, p);
    CharsIs(row, a);
    CharsIs(row, b);
    MarkIs(row, CharsAt(row, p) + n, b);
    DispIs(row, a, r);
    DispIs(row, b, r);
    var front := Decode(row[..p]);
    assert front + text[..n] == (front + text[..m]) + text[m..n];
    ColumnsConcat(front + text[..m], text[m..n], 0, r.tab, r.w);
  }

  lemma {:induction false} LengthJoin(a: seq<Char>, b: seq<Char>)
    ensures EncodedLength(a + b) == EncodedLength(a) + EncodedLength(b)
  {
    hide Encode;
    EncodeConcat(a, b);
  }

  lemma {:induction false} LengthNone()
    ensures EncodedLength([]) == 0
  {
  }

  /** A new checkpoint behind those added before. */
  lemma {:induction false} JoinAdd(t: Points, f: Points, c: nat, d: int, b: nat)
    ensures t.Join(f).Add(c, d, b) == t.Join(f.Add(c, d, b))
  {
  }

  lemma {:induction false} JoinLast(t: Points, f: Points, c: nat, d: int, b: nat)
    requires t.Even() && f.Even()
    ensures var p := t.Join(f.Add(c, d, b)); p.Even() && p.chars != [] && p.LastChars() == c && p.LastDisp() == d && p.LastByte() == b
    ensures f.Add(c, d, b).Even()
  {
  }

  lemma {:induction false} JoinNone(t: Points)
    ensures t.Join(Points([], [], [])) == t && Points([], [], []).Even()
  {
  }

  /** The shape of a table, without what its entries mean. */
  lemma {:induction false} Shape(p: Points, row: Bytes, r: Ruler, exact: bool, dense: bool)
    requires r.tab > 0 && Sound(p, row, r, exact, dense)
    ensures p.Even() && |p.chars| == |p.disp| == |p.byte| > 0
    ensures p.LastChars() == p.chars[|p.chars| - 1] && p.LastDisp() == p.disp[|p.chars| - 1] && p.LastByte() == p.byte[|p.chars| - 1]
    ensures p.byte[0] == 0 && p.chars[0] == 0 && p.disp[0] == 0
    ensures Rising(p.chars) && Rising(p.byte) && (dense ==> Near(p.chars, r.step))
  {
    hide Marks;
    hide Columned;
    hide Rising;
    hide Near;
  }

  /** `_publish`: one checkpoint per step of characters, each exact for the whole row. */
  method Publish(table: Points, text: seq<Char>, t: Totals, r: Ruler, ghost row: Bytes, ghost q: nat, ghost exact: bool, ghost dense: bool)
      returns (next: Points, out: Totals)
    requires r.Valid() && Sound(table, row, r, exact, dense)
    requires table.Even() && table.chars != [] && t == Totals(table.LastChars(), table.LastDisp(), table.LastByte())
    requires t.rel <= q <= |row| && Boundary(row, q) && text == Decode(row[t.rel..q])
    ensures Sound(next, row, r, exact, dense) && next.Even() && next.chars != []
    ensures out == Totals(next.LastChars(), next.LastDisp(), next.LastByte())
    ensures out.rel == q && out.chars == t.chars + |text| && out.disp == Columns(text, t.disp, r.tab, r.w)
    ensures Grown(table, next)
  {
    hide *;
    RulerIs(r);
    SoundIs(table, row, r, exact, dense);
    var fresh_ := Points([], [], []);
    JoinNone(table);
    GrownSame(table);
    var chars: nat, disp: int, rel: nat := t.chars, t.disp, t.rel;
    var k := 0;
    assert text[..0] == [];
    LengthNone();
    ColumnsNone(t.disp, r.tab, r.w);
    while k < |text|
      invariant 0 <= k <= |text| && fresh_.Even() && table.Join(fresh_).Even() && table.Join(fresh_).chars != []
      invariant Sound(table.Join(fresh_), row, r, exact, dense) && Grown(table, table.Join(fresh_))
      invariant Totals(chars, disp, rel) == Totals(table.Join(fresh_).LastChars(), table.Join(fresh_).LastDisp(), table.Join(fresh_).LastByte())
      invariant chars == t.chars + k && rel == t.rel + EncodedLength(text[..k]) && disp == Columns(text[..k], t.disp, r.tab, r.w)
      decreases |text| - k
    {
      var n := if k + r.step < |text| then k + r.step else |text|;
      var piece := text[k..n];
      NextPoint(row, t.rel, q, k, n, r);
      ghost var before := table.Join(fresh_);
      SoundIs(before, row, r, exact, dense);
      assert text[..n] == text[..k] + piece;
      ColumnsConcat(text[..k], piece, t.disp, r.tab, r.w);
      var column := AdvanceDisp(piece, disp, r.tab, r.w);
      WholeRise(piece, disp, r);
      GrownAdd(before, chars + |piece|, column, rel + EncodedLength(piece));
      GrownTrans(table, before, before.Add(chars + |piece|, column, rel + EncodedLength(piece)));
      chars, disp, rel := chars + |piece|, column, rel + EncodedLength(piece);
      SoundSnoc(before, chars, disp, rel, row, r, exact, dense);
      JoinAdd(table, fresh_, chars, disp, rel);
      EvenOf(table, row, r, exact, dense);
      JoinLast(table, fresh_, chars, disp, rel);
      fresh_ := fresh_.Add(chars, disp, rel);
      k := n;
    }
    assert text[..k] == text;
    WholeLength(row[t.rel..q]);
    next, out := table.Join(fresh_), Totals(chars, disp, rel);
  }

  lemma {:induction false} WholeRise(text: seq<Char>, d: int, r: Ruler)
    requires r.tab > 0
    ensures d <= Columns(text, d, r.tab, r.w)
  {
    hide *;
    ColumnsRise(text, 0, |text|, d, r.tab, r.w);
    assert text[..|text|] == text;
  }

  lemma {:induction false} EvenOf(p: Points, row: Bytes, r: Ruler, exact: bool, dense: bool)
    requires r.tab > 0 && Sound(p, row, r, exact, dense)
    ensures p.Even()
  {
    hide Marks;
    hide Columned;
    hide Rising;
    hide Near;
  }

  lemma {:induction false} RulerIs(r: Ruler)
    requires r.Valid()
    ensures r.tab > 0 && r.step > 0 && OneCell(r.w)
  {
    hide OneCell;
  }

  // ----- the index -----------------------------------------------------------------------------------------

  class LongLineIndex {
    const data: Bytes
    const start: nat
    const end: nat
    const r: Ruler
    const scanBlock: nat
    var chars: seq<nat>
    var disp: seq<nat>
    var byte: seq<nat>
    var gap: Option<Gap>
    var complete: bool
    var failed: bool
    /** Whether the display columns are known to be exact, and whether neighbours are within one step. */
    ghost var exact: bool
    ghost var dense: bool

    function Row(): Bytes {
      if start <= end <= |data| then data[start..end] else []
    }

    function Table(): Points
      reads this
    {
      Points(chars, disp, byte)
    }

    ghost predicate Settings() {
      r.Valid() && scanBlock > 0 && end <= |data|
    }

    /** The checkpoints are those of the row; complete means that the last one is the row end. */
    ghost predicate Valid()
      reads this
    {
      && Settings() && r.tab > 0
      && Sound(Table(), Row(), r, exact, dense) && Table().Even() && Table().chars != []
      && (complete ==> gap.None? && Table().LastByte() == |Row()|)
      && (gap.Some? ==> TrueGap(gap.value, Table(), Row(), r, exact, dense))
    }

    /** The gap can be closed: its end is reached from the last checkpoint, and its tail continues from there. */
    static ghost predicate TrueGap(g: Gap, p: Points, row: Bytes, r: Ruler, exact: bool, dense: bool)
      requires r.tab > 0 && p.Even() && p.chars != []
    {
      && p.LastByte() <= g.endByte <= |row| && Boundary(row, g.endByte)
      && g.endChars == CharsAt(row, g.endByte)
      && g.endDisp == Columns(Decode(row[p.LastByte()..g.endByte]), p.LastDisp(), r.tab, r.w)
      && SoundTail(g.tail, g.endChars, g.endByte, row, r, exact, dense)
      && (g.complete ==> if g.tail.chars == [] then g.endByte == |row| else g.tail.Even() && g.tail.LastByte() == |row|)
    }

    /** A fresh index; `resume` is a known state at a character boundary to scan on from. */
    constructor (data: Bytes, start: nat, end: nat, r: Ruler, scanBlock: nat, resume: Option<Totals>)
      requires r.Valid() && scanBlock > 0 && end <= |data|
      requires resume.Some? ==>
                 var row := if start <= end <= |data| then data[start..end] else [];
                 var t := resume.value;
                 && Mark(row, t.chars, t.rel) && (t.rel > 0 ==> t.chars > 0)
                 && t.disp == Columns(Decode(row[..t.rel]), 0, r.tab, r.w)
      ensures Valid() && exact && gap.None? && !failed && (complete <==> end <= start)
      ensures dense <==> resume.None? || resume.value.rel == 0
      ensures this.data == data && this.start == start && this.end == end && this.r == r && this.scanBlock == scanBlock
      ensures resume.Some? && resume.value.rel > 0 ==>
                chars == [0, resume.value.chars] && disp == [0, resume.value.disp] && byte == [0, resume.value.rel]
    {
      hide *;
      if resume.Some? {
        var row := if start <= end <= |data| then data[start..end] else [];
        RulerIs(r);
        MarkIs(row, resume.value.chars, resume.value.rel);
        WholeRise(Decode(row[..resume.value.rel]), 0, r);
      }
      this.data, this.start, this.end, this.r, this.scanBlock := data, start, end, r, scanBlock;
      var resumed := resume.Some? && resume.value.rel > 0;
      chars := if resumed then [0, resume.value.chars] else [0];
      disp := if resumed then [0, resume.value.disp] else [0];
      byte := if resumed then [0, resume.value.rel] else [0];
      gap, complete, failed, exact, dense := None, end <= start, false, true, !resumed;
      new;
      RulerIs(r);
      RowIs();
      StartSound(Row(), r);
      FirstPoint();
      if resumed {
        var t := resume.value;
        Loosen(Points([0], [0], [0]), Row(), r);
        MarkIs(Row(), t.chars, t.rel);
        DispIs(Row(), t.rel, r);
        SoundSnoc(Points([0], [0], [0]), t.chars, t.disp, t.rel, Row(), r, true, false);
        SecondPoint(t);
      }
      TableIs();
      SettingsAre();
      if complete {
        EmptyRow();
      }
      IsValid();
    }

    static lemma {:induction false} Loosen(p: Points, row: Bytes, r: Ruler)
      requires r.tab > 0 && Sound(p, row, r, true, true)
      ensures Sound(p, row, r, true, false)
    {
      hide Marks;
      hide Columned;
      hide Rising;
      hide Near;
    }

    static lemma {:induction false} FirstPoint()
      ensures var p := Points([0], [0], [0]); p.Even() && p.chars != [] && p.LastChars() == 0 && p.LastByte() == 0 && p.LastDisp() == 0
    {
    }

    static lemma {:induction false} SecondPoint(t: Totals)
      ensures Points([0], [0], [0]).Add(t.chars, t.disp, t.rel) == Points([0, t.chars], [0, t.disp], [0, t.rel])
      ensures var p := Points([0, t.chars], [0, t.disp], [0, t.rel]); p.Even() && p.chars != []
    {
    }

    lemma {:induction false} RowIs()
      ensures Row() == if start <= end <= |data| then data[start..end] else []
    {
    }

    lemma {:induction false} TableIs()
      ensures Table() == Points(chars, disp, byte)
    {
    }

    lemma {:induction false} SettingsAre()
      ensures Settings() <==> r.Valid() && scanBlock > 0 && end <= |data|
    {
      hide Ruler.Valid;
    }

    lemma {:induction false} EmptyRow()
      requires end <= start && end <= |data| && Table() == Points([0], [0], [0])
      ensures |Row()| == 0 && Table().Even() && Table().chars != [] && Table().LastByte() == |Row()|
    {
    }

    lemma {:induction false} IsValid()
      requires Settings() && r.tab > 0 && Sound(Table(), Row(), r, exact, dense) && Table().Even() && Table().chars != []
      requires complete ==> gap.None? && Table().LastByte() == |Row()|
      requires gap.Some? ==> TrueGap(gap.value, Table(), Row(), r, exact, dense)
      ensures Valid()
    {
      hide Sound;
      hide TrueGap;
      hide Settings;
    }

    lemma {:induction false} Parts()
      requires Valid()
      ensures Settings() && r.Valid() && r.tab > 0 && r.step > 0 && OneCell(r.w) && scanBlock > 0 && end <= |data|
      ensures Sound(Table(), Row(), r, exact, dense) && Table().Even() && Table().chars != [] && Table() == Points(chars, disp, byte)
      ensures |chars| == |disp| == |byte| && Table().LastByte() == byte[|byte| - 1] <= |Row()|
      ensures Table().LastChars() == chars[|chars| - 1] && Table().LastDisp() == disp[|disp| - 1]
      ensures complete ==> gap.None? && Table().LastByte() == |Row()|
      ensures gap.Some? ==> TrueGap(gap.value, Table(), Row(), r, exact, dense)
      ensures start < end ==> |Row()| == end - start && Row() == data[start..end]
      ensures end <= start ==> |Row()| == 0
    {
      hide Sound;
      hide TrueGap;
      SoundIs(Table(), Row(), r, exact, dense);
    }

    // ----- scanning ------------------------------------------------------------------------------------------

    /**
     `_scan_span`: scan `[from, limit)` block by block, however the blocks come. The checkpoints gained are those of
     the whole row, and the totals at the limit are those of decoding the span at once. `cancel` is the look at the event
     from which on a cancel is requested, `None` for never; there is one look before each block, which has at most
     `scanBlock` bytes, and one at the end. The scan gives up exactly when a look finds the request.
     */
    method ScanSpan(t: Totals, limit: nat, cancel: Option<nat>) returns (out: Option<Totals>, looks: nat)
      requires Settings() && Sound(Table(), Row(), r, exact, dense) && r.tab > 0 && Table().Even() && Table().chars != []
      requires t == Totals(Table().LastChars(), Table().LastDisp(), Table().LastByte())
      requires t.rel <= limit <= |Row()| && Boundary(Row(), limit)
      modifies this`chars, this`disp, this`byte
      ensures Sound(Table(), Row(), r, exact, dense) && Table().Even() && Table().chars != []
      ensures t.rel <= Table().LastByte() <= limit
      ensures Columns(Decode(Row()[Table().LastByte()..limit]), Table().LastDisp(), r.tab, r.w)
              == Columns(Decode(Row()[t.rel..limit]), t.disp, r.tab, r.w)
      ensures out.Some? ==> out.value == Totals(Table().LastChars(), Table().LastDisp(), Table().LastByte()) && out.value.rel == limit
      ensures 1 <= looks <= limit - t.rel + 1 && (out.Some? ==> limit - t.rel <= Blocks(looks - 1, scanBlock))
      ensures out.None? <==> cancel.Some? && cancel.value < looks
      ensures cancel == Some(0) ==> Table() == old(Table())
      ensures Grown(old(Table()), Table()) && (t.rel == limit ==> Table() == old(Table()))
    {
      hide *;
      SettingsAre();
      RulerIs(r);
      TableIs();
      SoundIs(Table(), Row(), r, exact, dense);
      ghost var row := Row();
      ghost var goal := Columns(Decode(row[t.rel..limit]), t.disp, r.tab, r.w);
      var pos := t.rel;
      var pending: Bytes := [];
      var now := t;
      assert row[pos..pos] == [];
      GrownSame(Table());
      looks := 0;
      NoBlocks(scanBlock);
      while pos < limit
        invariant Sound(Table(), row, r, exact, dense) && Table().Even() && Table().chars != []
        invariant looks <= pos - t.rel <= Blocks(looks, scanBlock) && (cancel.Some? ==> looks <= cancel.value)
        invariant looks == 0 ==> Table() == old(Table())
        invariant now == Totals(Table().LastChars(), Table().LastDisp(), Table().LastByte())
        invariant t.rel <= now.rel <= pos <= limit && pending == row[now.rel..pos] && (pos == limit ==> now.rel == limit)
        invariant Columns(Decode(row[now.rel..limit]), now.disp, r.tab, r.w) == goal
        invariant Grown(old(Table()), Table()) && (t.rel == limit ==> Table() == old(Table()))
        decreases limit - pos
      {
        looks := looks + 1;
        if cancel.Some? && cancel.value < looks {
          return None, looks;
        }
        ghost var before := Table();
        OneBlock(looks - 1, scanBlock);
        pos, now, pending := ScanBlock(now, pos, pending, limit);
        GrownTrans(old(Table()), before, Table());
      }
      looks := looks + 1;
      out := if cancel.Some? && cancel.value < looks then None else Some(now);
    }

    /** How many bytes that many blocks hold at most. */
    static function Blocks(n: nat, size: nat): nat {
      n * size
    }

    static lemma {:induction false} NoBlocks(size: nat)
      ensures Blocks(0, size) == 0
    {
    }

    static lemma {:induction false} OneBlock(n: nat, size: nat)
      ensures Blocks(n + 1, size) == Blocks(n, size) + size
    {
    }

    /** One round of the scan: read a block, decode up to a safe cut, publish, keep the rest for later. */
    method ScanBlock(t: Totals, from: nat, pending: Bytes, limit: nat) returns (pos: nat, now: Totals, rest: Bytes)
      requires Settings() && Sound(Table(), Row(), r, exact, dense) && r.tab > 0 && Table().Even() && Table().chars != []
      requires t == Totals(Table().LastChars(), Table().LastDisp(), Table().LastByte())
      requires t.rel <= from < limit <= |Row()| && pending == Row()[t.rel..from] && Boundary(Row(), limit)
      modifies this`chars, this`disp, this`byte
      ensures Sound(Table(), Row(), r, exact, dense) && Table().Even() && Table().chars != []
      ensures now == Totals(Table().LastChars(), Table().LastDisp(), Table().LastByte())
      ensures from < pos <= limit && pos - from <= scanBlock && t.rel <= now.rel <= pos && rest == Row()[now.rel..pos] && (pos == limit ==> now.rel == limit)
      ensures Columns(Decode(Row()[now.rel..limit]), now.disp, r.tab, r.w) == Columns(Decode(Row()[t.rel..limit]), t.disp, r.tab, r.w)
      ensures Grown(old(Table()), Table())
    {
      hide *;
      SettingsAre();
      RulerIs(r);
      TableIs();
      ghost var row := Row();
      SoundIs(Table(), row, r, exact, dense);
      var fresh_ := NextBlock(from, limit);
      pos := from + |fresh_|;
      var block := pending + fresh_;
      BlockJoin(row, t.rel, from, pos);
      var cut := |block|;
      if pos < limit {
        cut := SafeCut(block);
        CutIsBoundary(row, t.rel, pos, cut);
      }
      BlockCut(row, t.rel, pos, cut);
      var text := Decode(block[..cut]);
      var next: Points;
      next, now := Publish(Table(), text, t, r, row, t.rel + cut, exact, dense);
      TableFields();
      GrownIs(Table(), next);
      Allowed(next.disp);
      chars, disp, byte := next.chars, next.disp, next.byte;
      TableIs();
      PointsIs(next);
      rest := block[cut..];
      GoalKept(row, t.rel, t.rel + cut, limit, t.disp, r);
    }

    /** The next bytes of the source: at least one, at most a block, none behind the limit. */
    method NextBlock(from: nat, limit: nat) returns (fresh_: Bytes)
      requires Settings() && r.tab > 0 && from < limit <= |Row()|
      ensures 0 < |fresh_| <= scanBlock && from + |fresh_| <= limit && fresh_ == Row()[from..from + |fresh_|]
    {
      hide *;
      SettingsAre();
      RulerIs(r);
      RowIs();
      var want := if scanBlock < limit - from then scanBlock else limit - from;
      var got: int := *;
      got := if 1 <= got <= want then got else want;
      FreshBytes(from, got);
      fresh_ := data[start + from..start + from + got];
    }

    lemma {:induction false} FreshBytes(pos: nat, got: nat)
      requires end <= |data| && got > 0 && pos + got <= |Row()|
      ensures start + pos + got <= |data| && data[start + pos..start + pos + got] == Row()[pos..pos + got]
    {
      SubSlice(data, start, end, pos, pos + got);
    }

    static lemma {:induction false} BlockJoin(row: Bytes, from: nat, mid: nat, pos: nat)
      requires from <= mid <= pos <= |row|
      ensures row[from..mid] + row[mid..pos] == row[from..pos] && |row[from..pos]| == pos - from
    {
    }

    static lemma {:induction false} BlockCut(row: Bytes, from: nat, pos: nat, cut: nat)
      requires from <= pos <= |row| && cut <= pos - from
      ensures row[from..pos][..cut] == row[from..from + cut] && row[from..pos][cut..] == row[from + cut..pos]
    {
    }

    /** Columns that are not negative can be stored. */
    static lemma {:induction false} Allowed(xs: seq<int>)
      requires NonNegative(xs)
      ensures forall i :: 0 <= i < |xs| ==> xs[i] >= 0
    {
    }

    static lemma {:induction false} PointsIs(p: Points)
      ensures Points(p.chars, p.disp, p.byte) == p
    {
    }

    /** A cut that is a boundary whatever follows is one of the row. */
    static lemma {:induction false} CutIsBoundary(row: Bytes, from: nat, pos: nat, cut: nat)
      requires from <= pos <= |row| && Boundary(row, from) && cut <= pos - from
      requires forall rest: Bytes :: Boundary(row[from..pos] + rest, cut)
      ensures Boundary(row, from + cut)
    {
      hide *;
      assert row[from..pos] + row[pos..] == row[from..];
      assert Boundary(row[from..pos] + row[pos..], cut);
      BoundaryShift(row, from, from + cut);
    }

    /** The totals still to be reached do not change when a block is done. */
    static lemma {:induction false} GoalKept(row: Bytes, from: nat, mid: nat, limit: nat, d: int, r: Ruler)
      requires from <= mid <= limit <= |row| && Boundary(row, from) && Boundary(row, mid) && r.tab > 0
      ensures Columns(Decode(row[mid..limit]), Columns(Decode(row[from..mid]), d, r.tab, r.w), r.tab, r.w)
              == Columns(Decode(row[from..limit]), d, r.tab, r.w)
    {
      hide *;
      SplitText(row, from, mid, limit);
      ColumnsConcat(Decode(row[from..mid]), Decode(row[mid..limit]), d, r.tab, r.w);
    }

    static lemma {:induction false} SplitText(row: Bytes, from: nat, mid: nat, limit: nat)
      requires from <= mid <= limit <= |row| && Boundary(row, from) && Boundary(row, mid)
      ensures Decode(row[from..limit]) == Decode(row[from..mid]) + Decode(row[mid..limit])
    {
      hide *;
      var s := row[from..limit];
      BoundaryShift(row, from, mid);
      assert row[from..][..limit - from] == s;
      BoundaryPrefix(row[from..], mid - from, limit - from);
      DecodeAt(s, mid - from);
      assert s[..mid - from] == row[from..mid] && s[mid - from..] == row[mid..limit];
    }

    /** The last checkpoint is the one announced for the end of the inserted text. */
    static ghost predicate Reached(g: Gap, p: Points)
      requires p.Even() && p.chars != []
    {
      p.LastChars() == g.endChars && p.LastDisp() == g.endDisp && p.LastByte() == g.endByte
    }

    static lemma {:induction false} ReachedIs(g: Gap, p: Points)
      requires p.Even() && p.chars != []
      ensures Reached(g, p) <==> p.LastChars() == g.endChars && p.LastDisp() == g.endDisp && p.LastByte() == g.endByte
    {
    }

    /**
     `_attach`: append the shifted tail when the checkpoint at the end of the inserted text is as announced; otherwise
     the edit did not describe the bytes, and that is recorded. A true gap always matches. The stored columns are
     unsigned: at the first negative one the append breaks off, with the characters already extended.
     */
    method Attach(g: Gap) returns (a: Attached)
      requires Settings() && r.tab > 0 && Sound(Table(), Row(), r, exact, dense) && Table().Even() && Table().chars != []
      requires Reached(g, Table()) ==> TrueGap(g, Table(), Row(), r, exact, dense)
      modifies this`chars, this`disp, this`byte, this`complete, this`failed
      ensures a.Mismatched? <==> !Reached(g, old(Table()))
      ensures a.Overflowed? <==> Reached(g, old(Table())) && !NonNegative(g.tail.disp)
      ensures a.Joined? ==> failed == old(failed) && complete == g.complete && Table() == old(Table()).Join(g.tail)
      ensures a.Joined? && complete ==> Table().LastByte() == |Row()|
      ensures a.Mismatched? ==> failed && complete == old(complete) && Table() == old(Table())
      ensures !a.Overflowed? ==> Sound(Table(), Row(), r, exact, dense) && Table().Even() && Table().chars != []
      ensures a.Overflowed? ==>
                && failed == old(failed) && complete == old(complete) && byte == old(byte) && chars == old(chars) + g.tail.chars
                && old(disp) <= disp && |disp| < |old(disp)| + |g.tail.disp|
      ensures TrueGap(g, old(Table()), Row(), r, exact, dense) && old(Table()).LastByte() == g.endByte ==> !a.Mismatched?
    {
      hide *;
      TableIs();
      SoundIs(Table(), Row(), r, exact, dense);
      Shape(Table(), Row(), r, exact, dense);
      GapIs(g, Table(), Row(), r, exact, dense);
      ReachedIs(g, Table());
      TableFields();
      var matches := chars[|chars| - 1] == g.endChars && disp[|disp| - 1] == g.endDisp && byte[|byte| - 1] == g.endByte;
      if !matches {
        failed := true;
        TableFields();
        return Mismatched;
      }
      SoundJoin(Table(), g.tail, Row(), r, exact, dense);
      JoinEnds(Table(), g.tail);
      var fits := FirstNegative(g.tail.disp);
      chars := chars + g.tail.chars;
      disp := disp + g.tail.disp[..fits];
      if fits < |g.tail.disp| {
        return Overflowed;
      }
      assert g.tail.disp[..fits] == g.tail.disp;
      byte := byte + g.tail.byte;
      complete := g.complete;
      TableIs();
      a := Joined;
    }

    /** How many columns an unsigned array takes before one that is negative. */
    static method FirstNegative(xs: seq<int>) returns (k: nat)
      ensures k <= |xs| && (forall i :: 0 <= i < k ==> xs[i] >= 0) && (forall i :: 0 <= i < |xs[..k]| ==> xs[..k][i] >= 0)
      ensures k == |xs| <==> NonNegative(xs)
    {
      k := 0;
      while k < |xs| && xs[k] >= 0
        invariant 0 <= k <= |xs| && forall i :: 0 <= i < k ==> xs[i] >= 0
      {
        k := k + 1;
      }
    }

    /** A gap whose end is reached: the totals agree, and the tail continues the table. */
    static lemma {:induction false} GapIs(g: Gap, p: Points, row: Bytes, r: Ruler, exact: bool, dense: bool)
      requires r.tab > 0 && p.Even() && p.chars != []
      requires p.LastByte() <= |row| && p.LastChars() == CharsAt(row, p.LastByte())
      ensures TrueGap(g, p, row, r, exact, dense) && p.LastByte() == g.endByte ==>
                && p.LastChars() == g.endChars && p.LastDisp() == g.endDisp
                && SoundTail(g.tail, p.LastChars(), p.LastByte(), row, r, exact, dense) && g.tail.Even()
                && (g.complete ==> if g.tail.chars == [] then g.endByte == |row| else g.tail.LastByte() == |row|)
    {
      hide Marks;
      hide Rising;
      hide Near;
      hide Columned;
      hide CharsAt;
      hide Boundary;
      if p.LastByte() == g.endByte {
        assert row[p.LastByte()..g.endByte] == [];
      }
    }

    static lemma {:induction false} JoinEnds(p: Points, t: Points)
      requires p.Even() && t.Even() && p.chars != []
      ensures p.Join(t) == Points(p.chars + t.chars, p.disp + t.disp, p.byte + t.byte)
      ensures p.Join(t).Even() && p.Join(t).chars != []
      ensures p.Join(t).LastByte() == if t.chars == [] then p.LastByte() else t.LastByte()
      ensures p.Join(t).LastDisp() == if t.chars == [] then p.LastDisp() else t.LastDisp()
    {
    }

    /**
     `_scan` on the scan thread: close the gap first, then scan on to the end of the row. It breaks exactly at a gap
     whose tail has a negative column, and then the error is recorded. Columns that ascend go on ascending unless the
     tail of the gap begins to the left of the inserted text's end. It stops only for a cancel, which `cancel` requests
     as in `ScanSpan`: without one it finishes, or breaks at a negative column.
     */
    method Scan(cancel: Option<nat>) returns (end_: ScanEnd)
      requires Valid()
      modifies this`chars, this`disp, this`byte, this`complete, this`failed, this`gap
      ensures !end_.Broken? ==> Valid() && failed == old(failed)
      ensures end_.Broken? ==> failed && old(gap).Some? && !NonNegative(old(gap).value.tail.disp)
      ensures end_.Finished? ==> complete && (old(gap).Some? ==> NonNegative(old(gap).value.tail.disp))
      ensures end_.Finished? && old(Ascending(disp)) ==> (Ascending(disp) <==> old(gap).None? || TailFits(old(gap).value))
      ensures old(complete) ==> complete
      ensures end_.Stopped? ==> cancel.Some? && cancel.value <= 2 * |Row()| + 1
      ensures cancel.None? ==> if old(gap).Some? && !NonNegative(old(gap).value.tail.disp) then end_.Broken? else end_.Finished?
      ensures cancel == Some(0) && old(gap).None? && !old(complete) ==> end_.Stopped? && Table() == old(Table())
      ensures cancel == Some(0) && old(gap).Some? && old(byte) != [] && old(byte)[|old(byte)| - 1] < old(gap).value.endByte ==>
                end_.Stopped? && Table() == old(Table())
      ensures old(gap).None? && old(byte) != [] && old(byte)[|old(byte)| - 1] == |Row()| ==> Table() == old(Table())
    {
      hide *;
      Parts();
      TableFields();
      GrownSame(Table());
      var left := cancel;
      if gap.Some? {
        var looks;
        end_, looks := ScanGap(cancel);
        left := if cancel.Some? then Some(if cancel.value < looks then 0 else cancel.value - looks) else None;
        if !end_.Finished? {
          return;
        }
        Parts();
      }
      ghost var before := Table();
      GrownSame(before);
      if !complete {
        var out := ScanRest(left);
        TableFields();
        OnlyGrown(before, Table());
        return if out then Finished else Stopped;
      }
      end_ := Finished;
    }

    /** What is appended by a scan does not change whether the columns ascend. */
    static lemma {:induction false} OnlyGrown(p: Points, q: Points)
      requires Grown(p, q)
      ensures Ascending(q.disp) <==> Ascending(p.disp)
    {
    }

    /** The tail of a gap ascends and does not begin to the left of the inserted text's end. */
    static ghost predicate TailFits(g: Gap) {
      Ascending(g.tail.disp) && (g.tail.disp != [] ==> g.endDisp <= g.tail.disp[0])
    }

    static lemma {:induction false} JoinFits(p: Points, g: Gap)
      requires p.Even() && p.chars != [] && p.LastDisp() == g.endDisp && Ascending(p.disp)
      ensures Ascending(p.Join(g.tail).disp) <==> TailFits(g)
    {
      hide Ascending;
      AscendingJoin(p.disp, g.tail.disp);
    }

    /** `_scan_gap`: scan the inserted text, then attach the shifted tail; `Stopped` when cancelled on the way. */
    method ScanGap(cancel: Option<nat>) returns (end_: ScanEnd, looks: nat)
      requires Valid() && gap.Some?
      modifies this`chars, this`disp, this`byte, this`complete, this`failed, this`gap
      ensures !end_.Broken? ==> Valid() && failed == old(failed)
      ensures end_.Finished? ==> gap.None? && complete == old(gap).value.complete && NonNegative(old(gap).value.tail.disp)
      ensures end_.Finished? && old(Ascending(disp)) ==> (Ascending(disp) <==> TailFits(old(gap).value))
      ensures !end_.Finished? ==> gap == old(gap)
      ensures end_.Broken? ==> failed && !NonNegative(old(gap).value.tail.disp)
      ensures old(complete) ==> complete
      ensures end_.Stopped? <==> cancel.Some? && cancel.value < looks
      ensures cancel.None? ==> (end_.Broken? <==> !NonNegative(old(gap).value.tail.disp))
      ensures cancel == Some(0) && old(byte) != [] && old(byte)[|old(byte)| - 1] < old(gap).value.endByte ==>
                end_.Stopped? && Table() == old(Table())
      ensures looks <= |Row()| + 1
    {
      hide *;
      looks := 0;
      Parts();
      var g := gap.value;
      GapParts(g, Table(), Row(), r, exact, dense);
      var t := Totals(chars[|chars| - 1], disp[|disp| - 1], byte[|byte| - 1]);
      TableFields();
      GrownSame(Table());
      GrownIs(Table(), Table());
      if t.rel < g.endByte {
        var done;
        done, looks := FillGap(g, t, cancel);
        if !done {
          return Stopped, looks;
        }
        GrownIs(old(Table()), Table());
        TableFields();
      }
      end_ := CloseGap(g);
    }

    /** Attaches the tail of a gap whose text has been scanned. */
    method CloseGap(g: Gap) returns (end_: ScanEnd)
      requires Valid() && gap == Some(g) && Table().LastByte() == g.endByte
      modifies this`chars, this`disp, this`byte, this`complete, this`failed, this`gap
      ensures end_.Finished? || end_.Broken?
      ensures end_.Finished? ==> Valid() && failed == old(failed) && gap.None? && complete == g.complete
      ensures end_.Finished? && old(Ascending(disp)) ==> (Ascending(disp) <==> TailFits(g))
      ensures end_.Broken? ==> gap == old(gap) && failed && complete == old(complete)
      ensures end_.Broken? <==> !NonNegative(g.tail.disp)
    {
      hide *;
      Parts();
      ghost var p := Table();
      SoundIs(p, Row(), r, exact, dense);
      GapIs(g, p, Row(), r, exact, dense);
      JoinFits2(p, g);
      TableFields();
      var a := Attach(g);
      if a.Overflowed? {
        failed := true;
        return Broken;
      }
      TableFields();
      gap := None;
      TableFields();
      IsValid();
      end_ := Finished;
    }

    /** Scans the inserted text of an open gap. */
    method FillGap(g: Gap, t: Totals, cancel: Option<nat>) returns (done: bool, looks: nat)
      requires Valid() && gap == Some(g) && t == Totals(Table().LastChars(), Table().LastDisp(), Table().LastByte()) && t.rel < g.endByte
      modifies this`chars, this`disp, this`byte
      ensures Valid() && Grown(old(Table()), Table()) && (done ==> Table().LastByte() == g.endByte)
      ensures done <==> !(cancel.Some? && cancel.value < looks)
      ensures 1 <= looks <= |Row()| + 1 && (cancel == Some(0) ==> !done && Table() == old(Table()))
    {
      hide *;
      Parts();
      SoundIs(Table(), Row(), r, exact, dense);
      GapParts(g, Table(), Row(), r, exact, dense);
      var out;
      out, looks := ScanSpan(t, g.endByte, cancel);
      TableFields();
      GapAhead(g, old(Table()), Table(), Row(), r, exact, dense);
      IsValid();
      done := out.Some?;
    }

    static lemma {:induction false} JoinFits2(p: Points, g: Gap)
      requires p.Even() && p.chars != [] && p.LastDisp() == g.endDisp
      ensures Ascending(p.disp) ==> (Ascending(p.Join(g.tail).disp) <==> TailFits(g))
    {
      hide Ascending;
      hide TailFits;
      if Ascending(p.disp) {
        JoinFits(p, g);
      }
    }

    /** The rest of the row behind the last checkpoint. */
    method ScanRest(cancel: Option<nat>) returns (done: bool)
      requires Valid() && gap.None? && !complete
      modifies this`chars, this`disp, this`byte, this`complete
      ensures Valid() && complete == done && Grown(old(Table()), Table())
      ensures !done ==> cancel.Some? && old(byte) != [] && cancel.value + old(byte)[|old(byte)| - 1] <= |Row()|
      ensures cancel == Some(0) ==> !done && Table() == old(Table())
      ensures old(byte) != [] && old(byte)[|old(byte)| - 1] == |Row()| ==> Table() == old(Table())
    {
      hide *;
      Parts();
      TableFields();
      EndIsBoundary(Row());
      var out, looks := ScanSpan(Totals(chars[|chars| - 1], disp[|disp| - 1], byte[|byte| - 1]), |Row()|, cancel);
      TableFields();
      if out.None? {
        IsValid();
        return false;
      }
      complete := true;
      TableFields();
      IsValid();
      done := true;
    }

    lemma {:induction false} TableFields()
      ensures Table() == Points(chars, disp, byte)
      ensures Table().Even() <==> |chars| == |disp| == |byte|
      ensures Table().Even() && Table().chars != [] ==>
                && Table().LastChars() == chars[|chars| - 1] && Table().LastDisp() == disp[|disp| - 1]
                && Table().LastByte() == byte[|byte| - 1]
      ensures NonNegative(Table().disp)
    {
    }

    static lemma {:induction false} GapParts(g: Gap, p: Points, row: Bytes, r: Ruler, exact: bool, dense: bool)
      requires r.tab > 0 && p.Even() && p.chars != [] && TrueGap(g, p, row, r, exact, dense)
      ensures p.LastByte() <= g.endByte <= |row| && Boundary(row, g.endByte)
    {
      hide SoundTail;
      hide Boundary;
    }

    /** Scanning towards the end of a gap leaves the gap true. */
    static lemma {:induction false} GapAhead(g: Gap, p: Points, q: Points, row: Bytes, r: Ruler, exact: bool, dense: bool)
      requires r.tab > 0 && p.Even() && p.chars != [] && TrueGap(g, p, row, r, exact, dense)
      requires q.Even() && q.chars != [] && p.LastByte() <= q.LastByte() <= g.endByte <= |row|
      requires Columns(Decode(row[q.LastByte()..g.endByte]), q.LastDisp(), r.tab, r.w)
               == Columns(Decode(row[p.LastByte()..g.endByte]), p.LastDisp(), r.tab, r.w)
      ensures TrueGap(g, q, row, r, exact, dense)
    {
      hide SoundTail;
      hide Boundary;
      hide Columns;
      hide Decode;
      hide CharsAt;
    }

    // ----- queries ---------------------------------------------------------------------------------------------

    /** `_decode_from`: up to `n` characters from a known boundary. */
    method DecodeFrom(from: nat, n: nat) returns (text: seq<Char>)
      requires Valid() && from <= |Row()| && Boundary(Row(), from)
      ensures text == FirstChars(Decode(Row()[from..]), n)
    {
      hide *;
      Parts();
      MaxIs();
      var pos := start + from;
      var size := if n * MAX_SEQUENCE < end - pos then n * MAX_SEQUENCE else end - pos;
      if size <= 0 {
        NothingFrom(Row(), from, n);
        return [];
      }
      FreshBytes(from, size);
      PrefixDecode(Row()[from..], size, n);
      assert Row()[from..][..size] == Row()[from..from + size];
      text := FirstChars(Decode(data[pos..pos + size]), n);
    }

    static lemma {:induction false} MaxIs()
      ensures MAX_SEQUENCE == 4
    {
    }

    static lemma {:induction false} NothingFrom(row: Bytes, from: nat, n: nat)
      requires from <= |row|
      ensures from == |row| || n == 0 ==> FirstChars(Decode(row[from..]), n) == []
    {
    }

    /** Four bytes per character are enough to decode that many characters. */
    static lemma {:induction false} PrefixDecode(s: Bytes, size: nat, n: nat)
      requires size <= |s| && (size == |s| || size >= 4 * n)
      ensures FirstChars(Decode(s[..size]), n) == FirstChars(Decode(s), n)
    {
      hide Decode;
      hide Boundary;
      hide ByteOf;
      if size == |s| {
        assert s[..size] == s;
      } else {
        var k := if n < |Decode(s)| then n else |Decode(s)|;
        ByteOfFacts(s, k);
        var p := ByteOf(s, k);
        BoundaryPrefix(s, p, size);
        DecodeAt(s[..size], p);
        assert s[..size][..p] == s[..p];
        if k < n {
          ByteOfIs(s, k);
          assert Decode(s)[..k] == Decode(s);
          WholeLength(s);
        }
      }
    }

    /** The checkpoint at or before a character column. */
    method CharCheckpoint(col: nat) returns (i: nat)
      requires Valid() && col <= chars[|chars| - 1]
      ensures i < |chars| == |disp| == |byte| && chars[i] <= col && (i + 1 < |chars| ==> col < chars[i + 1])
    {
      hide *;
      Parts();
      Shape(Table(), Row(), r, exact, dense);
      RisingIs(chars);
      var slot := BisectRight(chars, col);
      i := slot - 1;
    }

    static lemma {:induction false} RisingIs(xs: seq<nat>)
      requires Rising(xs)
      ensures forall i, j :: 0 <= i < j < |xs| ==> xs[i] <= xs[j]
      ensures forall i, j :: 0 <= i < j < |xs| ==> xs[i] < xs[j]
    {
    }

    /** The column asked for, clamped to what the table covers. */
    ghost function Clamped(col: int): nat
      requires Valid()
      reads this
    {
      var c := if col > 0 then col else 0;
      if c < chars[|chars| - 1] then c else chars[|chars| - 1]
    }

    /** Whether a column is inside the scanned part, or the row is known to its end. */
    ghost predicate Known(col: int)
      requires Valid()
      reads this
    {
      complete || col <= chars[|chars| - 1]
    }

    lemma {:induction false} ClampedIs(col: int)
      requires Valid()
      ensures Clamped(col) == var c := if col > 0 then col else 0; if c < chars[|chars| - 1] then c else chars[|chars| - 1]
      ensures Known(col) <==> complete || col <= chars[|chars| - 1]
    {
      hide Sound;
      hide TrueGap;
    }

    /** All columns up to the last checkpoint are columns of the row; once complete these are all. */
    lemma {:induction false} ColumnsOfRow()
      requires Valid()
      ensures chars[|chars| - 1] <= |Decode(Row())|
      ensures complete ==> chars[|chars| - 1] == |Decode(Row())|
    {
      hide *;
      Parts();
      SoundIs(Table(), Row(), r, exact, dense);
      DecodeAt(Row(), Table().LastByte());
      CharsIs(Row(), Table().LastByte());
      assert Row()[..|Row()|] == Row();
    }

    /** A character behind a checkpoint: its place and column, from the checkpoint. */
    lemma {:induction false} FromCheckpoint(i: nat, col: nat)
      requires Valid() && i < |chars| && chars[i] <= col <= chars[|chars| - 1]
      ensures |chars| == |disp| == |byte| && byte[i] <= |Row()| && Boundary(Row(), byte[i])
      ensures col <= |Decode(Row())| && col - chars[i] <= |Decode(Row()[byte[i]..])|
      ensures var text := FirstChars(Decode(Row()[byte[i]..]), col - chars[i]);
              && text == Decode(Row()[byte[i]..])[..col - chars[i]]
              && ByteOf(Row(), col) == byte[i] + EncodedLength(text) <= |Row()|
              && Decode(Row()[..ByteOf(Row(), col)]) == Decode(Row()[..byte[i]]) + text
              && Decode(Row()[..ByteOf(Row(), col)]) == Decode(Row())[..col]
              && (exact ==> DispAt(Row(), ByteOf(Row(), col), r) == Columns(text, disp[i], r.tab, r.w))
    {
      hide *;
      Parts();
      ColumnsOfRow();
      SoundAt(Table(), Row(), r, exact, dense, i);
      FromPlace(Row(), byte[i], col, r);
    }

    /** A character behind a boundary: its place and column, from the boundary. */
    static lemma {:induction false} FromPlace(row: Bytes, b: nat, col: nat, r: Ruler)
      requires b <= |row| && Boundary(row, b) && CharsAt(row, b) <= col <= |Decode(row)| && r.tab > 0
      ensures col - CharsAt(row, b) <= |Decode(row[b..])| && ByteOf(row, col) <= |row|
      ensures var text := FirstChars(Decode(row[b..]), col - CharsAt(row, b));
              && text == Decode(row[b..])[..col - CharsAt(row, b)]
              && ByteOf(row, col) == b + EncodedLength(text)
              && Decode(row[..ByteOf(row, col)]) == Decode(row[..b]) + text
              && Decode(row[..ByteOf(row, col)]) == Decode(row)[..col]
              && DispAt(row, ByteOf(row, col), r) == Columns(text, DispAt(row, b, r), r.tab, r.w)
    {
      hide *;
      DecodeAt(row, b);
      CharsIs(row, b);
      var front, back := Decode(row[..b]), Decode(row[b..]);
      TakeThrough(front, back, col);
      var text := back[..col - |front|];
      FirstCharsIs(back, col - |front|);
      ByteOfIs(row, col);
      LengthJoin(front, text);
      WholeLength(row[..b]);
      LengthOfTake(row, b);
      ByteOfFacts(row, col);
      DispIs(row, b, r);
      DispIs(row, ByteOf(row, col), r);
      ColumnsConcat(front, text, 0, r.tab, r.w);
    }

    static lemma {:induction false} TakeThrough<T>(a: seq<T>, b: seq<T>, n: nat)
      requires |a| <= n <= |a + b|
      ensures n - |a| <= |b| && (a + b)[..n] == a + b[..n - |a|]
    {
    }

    static lemma {:induction false} LengthOfTake(row: Bytes, b: nat)
      requires b <= |row|
      ensures |row[..b]| == b
    {
    }

    static lemma {:induction false} FirstCharsIs(text: seq<Char>, n: nat)
      ensures FirstChars(text, n) == if n < |text| then text[..n] else text
      ensures n <= |text| ==> FirstChars(text, n) == text[..n]
    {
    }

    /** `try_char_to_byte`: the place of a character column, clamped to the row end. */
    method TryCharToByte(col: int) returns (b: Option<nat>)
      requires Valid() && !failed
      ensures b.Some? <==> Known(col)
      ensures b.Some? ==> Clamped(col) <= |Decode(Row())| && b.value == ByteOf(Row(), Clamped(col))
    {
      hide *;
      Parts();
      ClampedIs(col);
      var c := if col > 0 then col else 0;
      var last := chars[|chars| - 1];
      if c > last {
        if !complete {
          return None;
        }
        c := last;
      }
      var i := CharCheckpoint(c);
      FromCheckpoint(i, c);
      if c == chars[i] {
        NothingRead(Decode(Row()[byte[i]..]));
        return Some(byte[i]);
      }
      var text := DecodeFrom(byte[i], c - chars[i]);
      b := Some(byte[i] + EncodedLength(text));
    }

    static lemma {:induction false} NothingRead(text: seq<Char>)
      ensures FirstChars(text, 0) == [] && text[..0] == [] && EncodedLength([]) == 0
    {
    }

    /** `try_char_to_disp`: the display column of a character column. */
    method TryCharToDisp(col: int) returns (d: Option<int>, ghost from: nat)
      requires Valid() && !failed
      ensures d.Some? <==> Known(col)
      ensures Clamped(col) <= |Decode(Row())| && ByteOf(Row(), Clamped(col)) <= |Row()| && r.tab > 0
      ensures d.Some? && exact ==> d.value == DispAt(Row(), ByteOf(Row(), Clamped(col)), r)
      ensures from < |chars| == |disp| == |byte| && chars[from] <= Clamped(col)
              && (from + 1 < |chars| ==> Clamped(col) < chars[from + 1])
      ensures byte[from] <= ByteOf(Row(), Clamped(col)) <= |Row()|
      ensures d.Some? ==> d.value == Columns(Decode(Row()[byte[from]..ByteOf(Row(), Clamped(col))]), disp[from], r.tab, r.w)
    {
      hide *;
      Parts();
      ClampedIs(col);
      var c := if col > 0 then col else 0;
      var last := chars[|chars| - 1];
      var known := c <= last || complete;
      c := if c < last then c else last;
      var i := CharCheckpoint(c);
      from := i;
      FromCheckpoint(i, c);
      SpanText(Row(), byte[i], ByteOf(Row(), c));
      if !known {
        return None, from;
      }
      if c == chars[i] {
        NothingRead(Decode(Row()[byte[i]..]));
        ColumnsNone(disp[i], r.tab, r.w);
        return Some(disp[i]), from;
      }
      var text := DecodeFrom(byte[i], c - chars[i]);
      var column := AdvanceDisp(text, disp[i], r.tab, r.w);
      d := Some(column);
    }

    /** The characters between two boundaries, from the text in front of them. */
    static lemma {:induction false} SpanText(row: Bytes, p: nat, q: nat)
      requires p <= q <= |row| && Boundary(row, p)
      ensures forall text: seq<Char> :: Decode(row[..q]) == Decode(row[..p]) + text ==> text == Decode(row[p..q])
    {
      hide *;
      TextBetween(row, p, q);
      forall text: seq<Char> | Decode(row[..q]) == Decode(row[..p]) + text
        ensures text == Decode(row[p..q])
      {
        SameSuffix(Decode(row[..p]), text, Decode(row[p..q]));
      }
    }

    static lemma {:induction false} SameSuffix(a: seq<Char>, b: seq<Char>, c: seq<Char>)
      requires a + b == a + c
      ensures b == c
    {
      assert (a + b)[|a|..] == b && (a + c)[|a|..] == c;
    }

    /** `byte_to_char`: the characters decoded from the bytes in front of an offset, also inside a sequence. */
    method ByteToChar(rel: int) returns (c: Option<nat>)
      requires Valid() && !failed
      ensures c.Some? <==> complete || rel <= byte[|byte| - 1]
      ensures c.Some? ==>
                var p := if rel < 0 then 0 else if rel > |Row()| then |Row()| else rel;
                c.value == CharsAt(Row(), p)
    {
      hide *;
      Parts();
      Shape(Table(), Row(), r, exact, dense);
      RisingIs(byte);
      var p := if rel > 0 then rel else 0;
      var last := byte[|byte| - 1];
      if p > last {
        if !complete {
          return None;
        }
        p := last;
      }
      var slot := BisectRight(byte, p);
      var i := slot - 1;
      SoundAt(Table(), Row(), r, exact, dense, i);
      CharsIs(Row(), byte[i]);
      CharsIs(Row(), p);
      if p == byte[i] {
        return Some(chars[i]);
      }
      TextBetween(Row(), byte[i], p);
      FreshBytes(byte[i], p - byte[i]);
      c := Some(chars[i] + |Decode(data[start + byte[i]..start + p])|);
    }

    /** `try_get_slice`: characters `[a, b)`, at most one step of them and never behind the frontier. */
    method TryGetSlice(a: int, b: int) returns (s: Option<seq<Char>>)
      requires Valid() && !failed
      ensures s.Some? <==> Known(a)
      ensures Clamped(a) <= |Decode(Row())| && chars[|chars| - 1] <= |Decode(Row())|
      ensures s.Some? ==>
                var lo := Clamped(a);
                var hi := Least3(b, lo + r.step, chars[|chars| - 1]);
                s.value == if hi <= lo then [] else Decode(Row())[lo..hi]
    {
      hide *;
      Parts();
      ClampedIs(a);
      ColumnsOfRow();
      var c := if a > 0 then a else 0;
      var last := chars[|chars| - 1];
      if c > last {
        if !complete {
          return None;
        }
        c := last;
      }
      var text := SliceAt(c, b);
      s := Some(text);
    }

    /** The characters from a known column on. */
    method SliceAt(c: nat, b: int) returns (s: seq<Char>)
      requires Valid() && !failed && c <= chars[|chars| - 1]
      ensures chars[|chars| - 1] <= |Decode(Row())|
      ensures var hi := Least3(b, c + r.step, chars[|chars| - 1]);
              s == if hi <= c then [] else Decode(Row())[c..hi]
    {
      hide *;
      Parts();
      ColumnsOfRow();
      var last := chars[|chars| - 1];
      var i := CharCheckpoint(c);
      var hi := if b < c + r.step then b else c + r.step;
      if !complete {
        hi := if hi < last then hi else last;
      }
      LeastIs(b, c + r.step, last);
      if hi <= c {
        return [];
      }
      var text := DecodeFromCheckpoint(i, hi - chars[i]);
      SliceFrom(Decode(Row()), chars[i], c, hi, text);
      s := text[c - chars[i]..];
    }

    static function Least3(a: int, b: int, c: int): int {
      if a <= b && a <= c then a else if b <= c then b else c
    }

    static lemma {:induction false} LeastIs(a: int, b: int, c: int)
      ensures Least3(a, b, c) == var x := if a < b then a else b; if x < c then x else c
    {
    }

    /** Characters from a checkpoint on are those of the row behind its column. */
    method DecodeFromCheckpoint(i: nat, n: nat) returns (text: seq<Char>)
      requires Valid() && i < |chars|
      ensures chars[i] <= |Decode(Row())| && text == FirstChars(Decode(Row())[chars[i]..], n)
    {
      hide *;
      Parts();
      ColumnsOfRow();
      Shape(Table(), Row(), r, exact, dense);
      RisingIs(chars);
      SoundAt(Table(), Row(), r, exact, dense, i);
      CharsIs(Row(), byte[i]);
      DecodeAt(Row(), byte[i]);
      assert Decode(Row())[chars[i]..] == Decode(Row()[byte[i]..]);
      text := DecodeFrom(byte[i], n);
    }

    static lemma {:induction false} SliceFrom(all: seq<Char>, from: nat, lo: nat, hi: nat, text: seq<Char>)
      requires from <= lo < hi && from <= |all| && lo <= |all| && text == FirstChars(all[from..], hi - from)
      ensures lo - from <= |text| && text[lo - from..] == if hi <= |all| then all[lo..hi] else all[lo..]
    {
    }

    /** Checkpoint columns ascend when they are exact. */
    lemma {:induction false} ExactAscends()
      requires Valid() && exact
      ensures Ascending(disp)
    {
      hide *;
      Parts();
      Shape(Table(), Row(), r, exact, dense);
      RisingIs(byte);
      forall i, j | 0 <= i < j < |disp|
        ensures disp[i] <= disp[j]
      {
        SoundAt(Table(), Row(), r, exact, dense, i);
        SoundAt(Table(), Row(), r, exact, dense, j);
        DispGrows(Row(), byte[i], byte[j], r);
      }
      AreAscending(disp);
    }

    static lemma {:induction false} AreAscending(xs: seq<int>)
      requires forall i, j :: 0 <= i < j < |xs| ==> xs[i] <= xs[j]
      ensures Ascending(xs)
    {
    }

    static lemma {:induction false} DispGrows(row: Bytes, p: nat, q: nat, r: Ruler)
      requires p <= q <= |row| && Boundary(row, p) && r.tab > 0
      ensures DispAt(row, p, r) <= DispAt(row, q, r)
    {
      hide *;
      TextBetween(row, p, q);
      DispIs(row, p, r);
      DispIs(row, q, r);
      var text := Decode(row[..q]);
      assert text[..|Decode(row[..p])|] == Decode(row[..p]) && text[..|text|] == text;
      ColumnsRise(text, |Decode(row[..p])|, |text|, 0, r.tab, r.w);
    }

    /** The first column that starts at or behind `target`, the length when there is none. */
    static ghost predicate FirstStart(text: seq<Char>, c: nat, target: int, r: Ruler)
      requires r.tab > 0
    {
      && c <= |text|
      && (forall j :: 0 <= j < c ==> StartColumn(text, j, r) < target)
      && (c < |text| ==> StartColumn(text, c, r) >= target)
    }

    /** The column at which character `j` starts. */
    static function StartColumn(text: seq<Char>, j: nat, r: Ruler): int
      requires j <= |text| && r.tab > 0
    {
      Columns(text[..j], 0, r.tab, r.w)
    }

    /** A character starts where the one before it ends. */
    static lemma {:induction false} CoverIsStart(text: seq<Char>, i: nat, target: int, r: Ruler)
      requires r.tab > 0 && target > 0 && Covers(text, i, 0, target - 1, r.tab, r.w)
      ensures FirstStart(text, if i < |text| then i + 1 else i, target, r)
    {
      hide Columns;
      var c := if i < |text| then i + 1 else i;
      forall j | 0 <= j < c
        ensures StartColumn(text, j, r) < target
      {
        if j == 0 {
          ColumnsNone(0, r.tab, r.w);
          assert text[..0] == [];
        } else {
          assert EndColumn(text, j - 1, 0, r.tab, r.w) <= target - 1;
        }
      }
    }

    static lemma {:induction false} StartsAtOnce(text: seq<Char>, target: int, r: Ruler)
      requires r.tab > 0
      ensures target <= 0 ==> FirstStart(text, 0, target, r)
      ensures target < 0 ==> Covers(text, 0, 0, target, r.tab, r.w)
    {
      ColumnsNone(0, r.tab, r.w);
      assert text[..0] == [];
      if target < 0 {
        BeforeStart(text, 0, target, r.tab, r.w);
      }
    }

    /** A checkpoint at or to the left of a column, with none or one to the right of it next; what a bisection finds in any array. */
    ghost predicate Anchor(i: nat, target: int)
      reads this
    {
      i < |disp| && disp[i] <= target && (i + 1 < |disp| ==> target < disp[i + 1])
    }

    lemma {:induction false} AnchorIs(i: nat, target: int)
      ensures Anchor(i, target) <==> i < |disp| && disp[i] <= target && (i + 1 < |disp| ==> target < disp[i + 1])
    {
    }

    /** When the columns ascend there is one anchor: the last checkpoint at or to the left of the column. */
    lemma {:induction false} OneAnchor(i: nat, j: nat, target: int)
      requires Ascending(disp) && Anchor(i, target) && j < |disp|
      ensures disp[j] <= target ==> j <= i
      ensures disp[j] > target ==> j > i
    {
      var xs: seq<int> := disp;
      if j > i {
        assert xs[i + 1] <= xs[j];
      } else {
        assert xs[j] <= xs[i];
      }
    }

    /** Character `c` of the row is the first behind checkpoint `i` whose end column, measured from there, exceeds `target`. */
    ghost predicate FoundFrom(i: nat, c: int, target: int)
      requires Valid()
      reads this
    {
      && r.tab > 0 && i < |chars| && i < |disp| && chars[i] <= |Decode(Row())| && chars[i] <= c
      && Covers(Decode(Row())[chars[i]..], c - chars[i], disp[i], target, r.tab, r.w)
    }

    lemma {:induction false} FoundIs(i: nat, c: int, target: int)
      requires Valid()
      ensures FoundFrom(i, c, target) <==>
                && r.tab > 0 && i < |chars| && i < |disp| && chars[i] <= |Decode(Row())| && chars[i] <= c
                && Covers(Decode(Row())[chars[i]..], c - chars[i], disp[i], target, r.tab, r.w)
    {
      hide Sound;
      hide TrueGap;
      hide Covers;
      hide Decode;
    }

    /**
     `try_disp_to_char` for whatever columns the table holds: the first character behind the bisected checkpoint whose
     end column exceeds the target, with `ceil` the one behind it. With exact columns that is the character of the whole
     row that covers the column, or the first one that starts at or behind it.
     */
    method TryDispToChar(target: int, ceil: bool) returns (c: Option<nat>, ghost from: nat, ghost index: nat)
      requires Valid() && !failed
      ensures |disp| > 0
      ensures c.None? <==> !complete && (if ceil then target > 0 && target - 1 >= disp[|disp| - 1] else target >= 0 && target >= disp[|disp| - 1])
      ensures r.tab > 0
      ensures (if ceil then target <= 0 else target < 0) ==> c == Some(0)
      ensures c.Some? && !(if ceil then target <= 0 else target < 0) ==>
                && Anchor(from, if ceil then target - 1 else target) && FoundFrom(from, index, if ceil then target - 1 else target)
                && index <= |Decode(Row())| && c.value == (if ceil && index < |Decode(Row())| then index + 1 else index)
      ensures c.Some? && exact && !ceil ==> Covers(Decode(Row()), c.value, 0, target, r.tab, r.w)
      ensures c.Some? && exact && ceil ==> FirstStart(Decode(Row()), c.value, target, r)
    {
      hide *;
      Parts();
      Shape(Table(), Row(), r, exact, dense);
      from, index := 0, 0;
      StartsAtOnce(Decode(Row()), target, r);
      if (if ceil then target <= 0 else target < 0) {
        return Some(0), 0, 0;
      }
      var all := if ceil then target - 1 else target;
      if all >= disp[|disp| - 1] && !complete {
        return None, 0, 0;
      }
      var slot := BisectDisp(disp, all);
      var found := FindCover(slot - 1, all);
      AnchorIs(slot - 1, all);
      from, index := slot - 1, found;
      if exact {
        WholeCover(slot - 1, found, all);
        if ceil {
          CoverIsStart(Decode(Row()), found, target, r);
        }
      }
      c := Some(if ceil && found < |Decode(Row())| then found + 1 else found);
    }

    /** From an exact checkpoint the character found is that of the whole row. */
    lemma {:induction false} WholeCover(i: nat, c: nat, target: int)
      requires Valid() && exact && FoundFrom(i, c, target) && i < |disp| && disp[i] <= target && r.tab > 0
      ensures Covers(Decode(Row()), c, 0, target, r.tab, r.w)
    {
      hide *;
      Parts();
      FoundIs(i, c, target);
      SoundAt(Table(), Row(), r, exact, dense, i);
      DecodeAt(Row(), byte[i]);
      CharsIs(Row(), byte[i]);
      DispIs(Row(), byte[i], r);
      var text, n := Decode(Row()), chars[i];
      TakeFront(Decode(Row()[..byte[i]]), Decode(Row()[byte[i]..]));
      CoverParts(text[n..], c - n, disp[i], target, r.tab, r.w);
      CoverBehind(text, n, c, target, r);
    }

    static lemma {:induction false} CoverBehind(text: seq<Char>, n: nat, c: nat, target: int, r: Ruler)
      requires r.tab > 0 && n <= c <= |text| && Columns(text[..n], 0, r.tab, r.w) <= target
      requires Covers(text[n..], c - n, Columns(text[..n], 0, r.tab, r.w), target, r.tab, r.w)
      ensures Covers(text, c, 0, target, r.tab, r.w)
    {
      hide Columns;
      assert text[n..|text|] == text[n..];
      if c < |text| {
        ShiftCover(text, n, |text|, c - n, 0, target, r.tab, r.w);
      } else {
        assert text[..n] + text[n..] == text;
        if n < |text| {
          NotCovered(text[n..], c - n, Columns(text[..n], 0, r.tab, r.w), target, r.tab, r.w);
        } else {
          ColumnsNone(Columns(text[..n], 0, r.tab, r.w), r.tab, r.w);
          assert text[n..] == [];
        }
        ColumnsConcat(text[..n], text[n..], 0, r.tab, r.w);
        assert text[..|text|] == text;
        SkipPrefix(text, |text|, 0, target, r.tab, r.w);
        NoCover(text, 0, target, r.tab, r.w);
      }
    }

    static lemma {:induction false} CoverParts(text: seq<Char>, i: nat, d: int, target: int, tab: nat, w: Width)
      requires tab > 0 && Covers(text, i, d, target, tab, w)
      ensures i <= |text|
    {
    }

    /** `bisect_right` on the display columns, which need not ascend. */
    static method BisectDisp(xs: seq<nat>, v: int) returns (slot: nat)
      ensures slot <= |xs| && (slot > 0 ==> xs[slot - 1] <= v) && (slot < |xs| ==> v < xs[slot])
    {
      var lo, hi := 0, |xs|;
      while lo < hi
        invariant 0 <= lo <= hi <= |xs| && (lo > 0 ==> xs[lo - 1] <= v) && (hi < |xs| ==> v < xs[hi])
      {
        var mid := (lo + hi) / 2;
        if v < xs[mid] {
          hi := mid;
        } else {
          lo := mid + 1;
        }
      }
      slot := lo;
    }

    /** The walk of `try_disp_to_char` from checkpoint `i`, one step of characters at a time. */
    method FindCover(i: int, target: int) returns (c: nat)
      requires Valid() && 0 <= i < |disp| && disp[i] <= target
      ensures FoundFrom(i, c, target) && c <= |Decode(Row())|
    {
      hide *;
      WalkBegins(i);
      ghost var row, text0 := Row(), Decode(Row())[chars[i]..];
      var n0 := chars[i];
      var ch, d: int, b := chars[i], disp[i], byte[i];
      var found := Cover(0, false);
      while !found.hit
        invariant b <= |row| && Boundary(row, b) && n0 <= ch <= n0 + |text0|
        invariant d == Columns(text0[..ch - n0], disp[i], r.tab, r.w) <= target && text0[ch - n0..] == Decode(row[b..])
        invariant found.hit ==> n0 <= found.index && Covers(text0, found.index - n0, disp[i], target, r.tab, r.w)
        decreases |row| - b, !found.hit
      {
        found, ch, d, b := CoverStep(text0, n0, disp[i], ch, d, b, target);
      }
      CoverParts(text0, found.index - n0, disp[i], target, r.tab, r.w);
      FoundIs(i, found.index, target);
      c := found.index;
    }

    lemma {:induction false} WalkBegins(i: nat)
      requires Valid() && i < |disp|
      ensures |chars| == |disp| == |byte| && r.tab > 0 && byte[i] <= |Row()| && Boundary(Row(), byte[i]) && chars[i] <= |Decode(Row())|
      ensures var text := Decode(Row())[chars[i]..]; text[0..] == Decode(Row()[byte[i]..]) && Columns(text[..0], disp[i], r.tab, r.w) == disp[i]
    {
      hide *;
      Parts();
      SoundAt(Table(), Row(), r, exact, dense, i);
      DecodeAt(Row(), byte[i]);
      CharsIs(Row(), byte[i]);
      BackOfText(Decode(Row()[..byte[i]]), Decode(Row()[byte[i]..]));
      ColumnsNone(disp[i], r.tab, r.w);
      assert Decode(Row())[chars[i]..][..0] == [];
    }

    /** One step of the walk: the character found, or the state behind the step. */
    method CoverStep(ghost text0: seq<Char>, n0: nat, ghost d0: int, ch0: nat, at: int, from: nat, target: int)
        returns (found: Cover, ch: nat, d: int, b: nat)
      requires Valid() && from <= |Row()| && Boundary(Row(), from) && n0 <= ch0 <= n0 + |text0| && r.tab > 0
      requires at == Columns(text0[..ch0 - n0], d0, r.tab, r.w) <= target && text0[ch0 - n0..] == Decode(Row()[from..])
      ensures b <= |Row()| && Boundary(Row(), b) && n0 <= ch <= n0 + |text0| && (!found.hit ==> b > from) && b >= from
      ensures d == Columns(text0[..ch - n0], d0, r.tab, r.w) <= target && text0[ch - n0..] == Decode(Row()[b..])
      ensures found.hit ==> n0 <= found.index && Covers(text0, found.index - n0, d0, target, r.tab, r.w)
    {
      hide *;
      Parts();
      var text := DecodeFrom(from, r.step);
      ch, d, b := ch0, at, from;
      WalkStep(Row(), from, text0, ch - n0, text, d0, r);
      if text == [] {
        AllSkipped(text0, ch - n0, d0, target, r);
        return Cover(ch, true), ch, d, b;
      }
      found := LocateCover(text, d, target, r.tab, r.w);
      WalkHit(text0, ch - n0, text, found.hit, found.index, d0, target, r);
      if found.hit {
        return Cover(ch + found.index, true), ch, d, b;
      }
      d := AdvanceDisp(text, d, r.tab, r.w);
      ch := ch + |text|;
      b := b + EncodedLength(text);
      if |text| < r.step {
        AllSkipped(text0, ch - n0, d0, target, r);
        found := Cover(ch, true);
      }
    }

    /** A step of characters read at `b`, as part of the text that the walk began with. */
    static lemma {:induction false} WalkStep(row: Bytes, b: nat, text0: seq<Char>, n: nat, text: seq<Char>, d0: int, r: Ruler)
      requires b <= |row| && Boundary(row, b) && text == FirstChars(Decode(row[b..]), r.step) && r.tab > 0 && r.step > 0
      requires n <= |text0| && text0[n..] == Decode(row[b..])
      ensures n + |text| <= |text0| && text0[n..n + |text|] == text
      ensures Columns(text0[..n + |text|], d0, r.tab, r.w) == Columns(text, Columns(text0[..n], d0, r.tab, r.w), r.tab, r.w)
      ensures var m := b + EncodedLength(text);
              && m <= |row| && Boundary(row, m) && CharsAt(row, m) == CharsAt(row, b) + |text| && text0[n + |text|..] == Decode(row[m..])
              && (text != [] ==> m > b)
      ensures (text == [] ==> n == |text0|) && (|text| < r.step ==> n + |text| == |text0|)
    {
      hide *;
      StepText(row, b, r.step, text, r);
      StepInside(text0, n, Decode(row[b..]), text, row, b, r.step);
      assert text0[..n + |text|] == text0[..n] + text;
      ColumnsConcat(text0[..n], text, d0, r.tab, r.w);
    }

    /** What one step of characters tells about the whole walk: the place found in it, or that it ends at or before the target. */
    static lemma {:induction false} WalkHit(text0: seq<Char>, n: nat, text: seq<Char>, hit: bool, index: nat, d0: int, target: int, r: Ruler)
      requires r.tab > 0 && n + |text| <= |text0| && text0[n..n + |text|] == text && text != []
      requires Columns(text0[..n], d0, r.tab, r.w) <= target
      requires Covers(text, index, Columns(text0[..n], d0, r.tab, r.w), target, r.tab, r.w) && (hit <==> index < |text|)
      ensures hit ==> Covers(text0, n + index, d0, target, r.tab, r.w) && n + index <= |text0|
      ensures !hit ==> Columns(text, Columns(text0[..n], d0, r.tab, r.w), r.tab, r.w) <= target
    {
      hide *;
      if hit {
        ShiftCover(text0, n, n + |text|, index, d0, target, r.tab, r.w);
        CoverParts(text0, n + index, d0, target, r.tab, r.w);
      } else {
        CoverParts(text, index, Columns(text0[..n], d0, r.tab, r.w), target, r.tab, r.w);
        NotCovered(text, index, Columns(text0[..n], d0, r.tab, r.w), target, r.tab, r.w);
      }
    }

    static lemma {:induction false} BackOfText(a: seq<Char>, b: seq<Char>)
      ensures (a + b)[|a|..] == b
    {
    }

    /** One step of characters, as a part of the text behind the first checkpoint. */
    static lemma {:induction false} StepInside(text0: seq<Char>, n: nat, back: seq<Char>, text: seq<Char>, row: Bytes, b: nat, step: nat)
      requires n <= |text0| && text0[n..] == back && b <= |row| && Boundary(row, b) && back == Decode(row[b..]) && text == FirstChars(back, step)
      ensures n + |text| <= |text0| && text0[n..n + |text|] == text
      ensures b + EncodedLength(text) <= |row| && text0[n + |text|..] == Decode(row[b + EncodedLength(text)..])
      ensures (text == [] ==> step == 0 || n == |text0|) && (|text| < step ==> n + |text| == |text0|)
    {
      hide *;
      FirstCharsIs(back, step);
      EndIsBoundary(row);
      assert row[b..|row|] == row[b..];
      PrefixPlace(row, b, |row|, |text|);
      assert back[..|text|] == text;
      var m := b + EncodedLength(text);
      SplitText(row, b, m, |row|);
      assert row[m..|row|] == row[m..];
      TextBetween(row, b, m);
      SameSuffix(Decode(row[..b]), Decode(row[b..m]), text);
      assert back == text + Decode(row[m..]);
      assert back[|text|..] == Decode(row[m..]);
      assert text0[n..][..|text|] == text0[n..n + |text|] && text0[n..][|text|..] == text0[n + |text|..];
    }

    static lemma {:induction false} AllSkipped(text: seq<Char>, n: nat, d: int, target: int, r: Ruler)
      requires r.tab > 0 && n == |text| && Columns(text[..n], d, r.tab, r.w) <= target
      ensures Covers(text, n, d, target, r.tab, r.w)
    {
      hide *;
      SkipPrefix(text, n, d, target, r.tab, r.w);
      NoCover(text, d, target, r.tab, r.w);
    }

    /** One step of characters from a boundary. */
    static lemma {:induction false} StepText(row: Bytes, b: nat, step: nat, text: seq<Char>, r: Ruler)
      requires b <= |row| && Boundary(row, b) && text == FirstChars(Decode(row[b..]), step) && r.tab > 0 && step > 0
      ensures var n := b + EncodedLength(text);
              && n <= |row| && Boundary(row, n) && CharsAt(row, n) == CharsAt(row, b) + |text|
              && DispAt(row, n, r) == Columns(text, DispAt(row, b, r), r.tab, r.w)
              && CharsAt(row, b) + |text| <= |Decode(row)|
              && Decode(row)[CharsAt(row, b)..CharsAt(row, b) + |text|] == text
              && (text == [] ==> b == |row|) && (text != [] ==> n > b) && (|text| < step ==> n == |row|)
    {
      hide *;
      FirstCharsIs(Decode(row[b..]), step);
      EndIsBoundary(row);
      assert row[b..|row|] == row[b..];
      assert Decode(row[b..|row|])[..|text|] == text;
      PrefixPlace(row, b, |row|, |text|);
      DecodeAt(row, b);
      CharsIs(row, b);
      var n := b + EncodedLength(text);
      CharsIs(row, n);
      DispIs(row, b, r);
      DispIs(row, n, r);
      ColumnsConcat(Decode(row[..b]), text, 0, r.tab, r.w);
      WholeLength(row[b..]);
      Inside(Decode(row[..b]), Decode(row[b..]), |text|);
    }

    static lemma {:induction false} Inside<T>(a: seq<T>, b: seq<T>, n: nat)
      requires n <= |b|
      ensures (a + b)[|a|..|a| + n] == b[..n]
    {
    }

    static lemma {:induction false} NotCovered(text: seq<Char>, i: nat, d: int, target: int, tab: nat, w: Width)
      requires tab > 0 && Covers(text, i, d, target, tab, w) && i >= |text| && text != []
      ensures Columns(text, d, tab, w) <= target
    {
      hide Columns;
      assert EndColumn(text, |text| - 1, d, tab, w) <= target;
      assert text[..|text|] == text;
    }

    static lemma {:induction false} TakeFront<T>(a: seq<T>, b: seq<T>)
      ensures (a + b)[..|a|] == a
    {
    }

    /** At character boundaries the two directions invert each other. */
    lemma {:induction false} Inverse(k: nat, p: nat)
      requires Valid()
      ensures k <= |Decode(Row())| ==> ByteOf(Row(), k) <= |Row()| && CharsAt(Row(), ByteOf(Row(), k)) == k
      ensures p <= |Row()| && Boundary(Row(), p) ==> CharsAt(Row(), p) <= |Decode(Row())| && ByteOf(Row(), CharsAt(Row(), p)) == p
    {
      hide *;
      if k <= |Decode(Row())| {
        ByteOfFacts(Row(), k);
        CharsIs(Row(), ByteOf(Row(), k));
      }
      if p <= |Row()| && Boundary(Row(), p) {
        BoundaryIsByteOf(Row(), p);
        CharsIs(Row(), p);
      }
    }

    // ----- after an edit -------------------------------------------------------------------------------------------

    /** The display column this index gives for the place `x`: from the last checkpoint in front of it. */
    ghost function ColumnAt(x: nat): int
      requires Valid() && x <= |Row()|
      reads this
    {
      ColumnFrom(Table(), Row(), x, r)
    }

    static ghost function ColumnFrom(p: Points, row: Bytes, x: nat, r: Ruler): int
      requires p.Even() && p.chars != [] && x <= |row| && r.tab > 0
      decreases |p.chars|
    {
      var n := |p.chars| - 1;
      if n == 0 || p.byte[n] <= x then
        if p.byte[n] <= x then Columns(Decode(row[p.byte[n]..x]), p.disp[n], r.tab, r.w) else 0
      else ColumnFrom(p.Take(n), row, x, r)
    }

    static lemma {:induction false} ColumnFromAt(p: Points, row: Bytes, x: nat, r: Ruler, i: nat)
      requires p.Even() && p.chars != [] && x <= |row| && r.tab > 0 && i < |p.chars| && p.byte[i] <= x
      requires forall j :: i < j < |p.chars| ==> p.byte[j] > x
      ensures ColumnFrom(p, row, x, r) == Columns(Decode(row[p.byte[i]..x]), p.disp[i], r.tab, r.w)
      decreases |p.chars|
    {
      hide Columns;
      hide Decode;
      var n := |p.chars| - 1;
      if i < n {
        ColumnFromAt(p.Take(n), row, x, r, i);
      }
    }

    /** `edit` describes the replacement of `[x, e)` by `ins`; the added width is measured from the column of `x`. */
    ghost predicate Truthful(edit: Edit, ins: Bytes, next: Bytes)
      requires Valid()
      reads this
    {
      var x, e := edit.xRel, edit.xRel + edit.removedBytes;
      && Edited(Row(), x, e, ins, next)
      && edit.addedBytes == |ins| && edit.addedChars == |Decode(ins)| && edit.removedChars == |Decode(Row()[x..e])|
      && edit.addedDisp == Columns(Decode(ins), ColumnAt(x), r.tab, r.w) - ColumnAt(x)
    }

    /** The removed width, too, is that of the text when it starts at the column of `x`. */
    ghost predicate Measured(edit: Edit)
      requires Valid() && edit.xRel + edit.removedBytes <= |Row()| && r.tab > 0
      reads this
    {
      var x, e := edit.xRel, edit.xRel + edit.removedBytes;
      edit.removedDisp == Columns(Decode(Row()[x..e]), ColumnAt(x), r.tab, r.w) - ColumnAt(x)
    }

    lemma {:induction false} MeasuredIs(edit: Edit)
      requires Valid() && edit.xRel + edit.removedBytes <= |Row()| && r.tab > 0
      ensures Measured(edit) <==>
                edit.removedDisp == Columns(Decode(Row()[edit.xRel..edit.xRel + edit.removedBytes]), ColumnAt(edit.xRel), r.tab, r.w)
                                    - ColumnAt(edit.xRel)
    {
      hide Sound;
      hide TrueGap;
      hide Columns;
      hide Decode;
      hide ColumnAt;
    }

    lemma {:induction false} TruthfulIs(edit: Edit, ins: Bytes, next: Bytes)
      requires Valid() && Truthful(edit, ins, next)
      ensures var x, e := edit.xRel, edit.xRel + edit.removedBytes;
              && Edited(Row(), x, e, ins, next) && x <= e <= |Row()| && x + |ins| <= |next| && r.tab > 0
              && edit.addedBytes == |ins| && edit.addedChars == |Decode(ins)| && edit.removedChars == |Decode(Row()[x..e])|
              && edit.addedDisp == Columns(Decode(ins), ColumnAt(x), r.tab, r.w) - ColumnAt(x)
    {
      hide Sound;
      hide TrueGap;
      hide Columns;
      hide Decode;
      hide Boundary;
      hide ColumnAt;
      EditedParts(Row(), edit.xRel, edit.xRel + edit.removedBytes, ins, next);
    }

    /** Whether the display columns stay exact behind an edit: the tab condition. */
    ghost predicate StaysExact(edit: Edit)
      requires Valid() && edit.xRel + edit.removedBytes <= |Row()| && r.tab > 0
      reads this
    {
      && exact && Measured(edit)
      && (NoTabBehind(Row(), edit.xRel + edit.removedBytes) || Aligned(edit.addedDisp - edit.removedDisp, r.tab))
    }

    /** Some checkpoint behind the removed range would move to a negative column, which the arrays cannot hold. */
    ghost predicate GoesNegative(edit: Edit)
      reads this
    {
      Negative(Table(), edit.xRel + edit.removedBytes, edit.addedDisp - edit.removedDisp)
    }

    /** No checkpoint behind the removed range lies to the left of that range's end, as the edit measures it. */
    ghost predicate KeepsAscending(edit: Edit)
      requires Valid() && edit.xRel <= |Row()|
      reads this
    {
      KeepsUp(Table(), edit.xRel + edit.removedBytes, ColumnAt(edit.xRel) + edit.removedDisp)
    }

    static ghost predicate Negative(t: Points, e: nat, dd: int) {
      exists j :: 0 <= j < |t.byte| && j < |t.disp| && t.byte[j] > e && t.disp[j] + dd < 0
    }

    static ghost predicate KeepsUp(t: Points, e: nat, column: int) {
      forall j :: 0 <= j < |t.byte| && j < |t.disp| && t.byte[j] > e ==> column <= t.disp[j]
    }

    lemma {:induction false} FitIs(edit: Edit)
      requires Valid() && edit.xRel <= |Row()|
      ensures GoesNegative(edit) <==> Negative(Table(), edit.xRel + edit.removedBytes, edit.addedDisp - edit.removedDisp)
      ensures KeepsAscending(edit) <==> KeepsUp(Table(), edit.xRel + edit.removedBytes, ColumnAt(edit.xRel) + edit.removedDisp)
    {
      hide Sound;
      hide TrueGap;
      hide ColumnAt;
      hide Negative;
      hide KeepsUp;
    }

    /** When the columns ascend the first checkpoint behind the removed range decides both, before any call. */
    static lemma {:induction false} FirstDecides(t: Points, far: nat, e: nat, dd: int, column: int)
      requires t.Even() && Ascending(t.disp) && Behind(t, far, e)
      ensures far <= |t.disp|
      ensures Negative(t, e, dd) <==> far < |t.disp| && t.disp[far] + dd < 0
      ensures KeepsUp(t, e, column) <==> far < |t.disp| ==> column <= t.disp[far]
    {
      if far < |t.disp| {
        assert t.byte[far] > e;
        forall j | 0 <= j < |t.byte| && t.byte[j] > e
          ensures t.disp[far] <= t.disp[j]
        {
          assert far <= j;
        }
      }
    }

    /** The moved tail is not negative, and ascends behind the inserted text, just as the table and the edit say. */
    static lemma {:induction false} TailColumnsFit(t: Points, far: nat, e: nat, dc: int, dd: int, db: int, g: Gap)
      requires t.Even() && Behind(t, far, e) && far <= |t.chars|
      requires forall i :: 0 <= i < |t.chars[far..]| ==> t.chars[far..][i] + dc >= 0 && t.byte[far..][i] + db >= 0
      requires g.tail == Shifted(t, far, dc, dd, db)
      ensures NonNegative(g.tail.disp) <==> !Negative(t, e, dd)
      ensures Ascending(t.disp) ==> (TailFits(g) <==> KeepsUp(t, e, g.endDisp - dd))
    {
      var xs := g.tail.disp;
      assert |xs| == |t.disp| - far;
      assert forall i :: 0 <= i < |xs| ==> xs[i] == t.disp[far + i] + dd;
      if NonNegative(xs) {
        forall j | 0 <= j < |t.byte| && t.byte[j] > e
          ensures t.disp[j] + dd >= 0
        {
          assert xs[j - far] >= 0;
        }
      }
      if !Negative(t, e, dd) {
        forall i | 0 <= i < |xs|
          ensures xs[i] >= 0
        {
          assert t.byte[far + i] > e;
        }
      }
      if Ascending(t.disp) {
        FirstDecides(t, far, e, dd, g.endDisp - dd);
      }
    }

    /** An exact index never goes negative and always keeps its columns ascending, whatever tabs lie behind. */
    lemma {:induction false} ExactEditsFit(edit: Edit, ins: Bytes, next: Bytes)
      requires Valid() && exact && Truthful(edit, ins, next) && edit.xRel + edit.removedBytes <= |Row()| && r.tab > 0 && Measured(edit)
      ensures !GoesNegative(edit) && KeepsAscending(edit)
    {
      hide *;
      Parts();
      TableFields();
      TruthfulIs(edit, ins, next);
      MeasuredIs(edit);
      FitIs(edit);
      var x, e := edit.xRel, edit.xRel + edit.removedBytes;
      ColumnAtExact(x);
      DispIs(Row(), x, r);
      WholeRise(Decode(Row()[..x]), 0, r);
      WholeRise(Decode(ins), ColumnAt(x), r);
      EditedClean(Row(), x, e, ins, next);
      EditColumns(ColumnAt(x), Row(), x, e, ins, next, r);
      forall j | 0 <= j < |byte| && byte[j] > e
        ensures DispAt(Row(), e, r) <= disp[j]
      {
        SoundAt(Table(), Row(), r, exact, dense, j);
        DispGrows(Row(), e, byte[j], r);
      }
      FitsAll(Table(), e, edit.addedDisp - edit.removedDisp, DispAt(Row(), e, r));
    }

    static lemma {:induction false} FitsAll(t: Points, e: nat, dd: int, column: int)
      requires forall j :: 0 <= j < |t.byte| && j < |t.disp| && t.byte[j] > e ==> column <= t.disp[j]
      ensures KeepsUp(t, e, column) && (column + dd >= 0 ==> !Negative(t, e, dd))
    {
    }

    /** In an exact index the column of every place is that of the row. */
    lemma {:induction false} ColumnAtExact(x: nat)
      requires Valid() && exact && x <= |Row()| && r.tab > 0
      ensures ColumnAt(x) == DispAt(Row(), x, r)
    {
      hide *;
      Parts();
      ColumnAtIs(x);
      FrontFrom(Table(), Row(), x, r, exact, dense);
      AllBoundaries(Table(), Row(), r, exact, dense);
      ColumnFromExact(Table(), Row(), x, r);
    }

    /** With exact columns in front of it a place has its exact column, also in an index that is not exact behind. */
    lemma {:induction false} ColumnAtFront(x: nat)
      requires Valid() && x <= |Row()| && r.tab > 0 && FrontExact(Table(), Row(), x, r)
      ensures ColumnAt(x) == DispAt(Row(), x, r)
    {
      hide *;
      Parts();
      ColumnAtIs(x);
      FrontFrom(Table(), Row(), x, r, exact, dense);
      AllBoundaries(Table(), Row(), r, exact, dense);
      ColumnFromExact(Table(), Row(), x, r);
    }

    static lemma {:induction false} NegativeAt(t: Points, j: nat, e: nat, dd: int, column: int)
      requires j < |t.byte| && j < |t.disp| && t.byte[j] > e
      ensures t.disp[j] + dd < 0 ==> Negative(t, e, dd)
      ensures t.disp[j] < column ==> !KeepsUp(t, e, column)
    {
    }

    /** The checkpoints at or in front of `x` have exact columns. */
    static ghost predicate FrontExact(p: Points, row: Bytes, x: nat, r: Ruler)
      requires r.tab > 0
    {
      forall j :: 0 <= j < |p.byte| && j < |p.disp| && p.byte[j] <= x && p.byte[j] <= |row| ==> p.disp[j] == DispAt(row, p.byte[j], r)
    }

    static lemma {:induction false} FrontFrom(p: Points, row: Bytes, x: nat, r: Ruler, exact: bool, dense: bool)
      requires r.tab > 0 && Sound(p, row, r, exact, dense)
      ensures p.Even() && p.chars != [] && p.byte[0] == 0 && (exact ==> FrontExact(p, row, x, r))
    {
      hide DispAt;
      hide Marks;
      hide Rising;
      hide Near;
    }

    static lemma {:induction false} AllBoundaries(p: Points, row: Bytes, r: Ruler, exact: bool, dense: bool)
      requires r.tab > 0 && Sound(p, row, r, exact, dense)
      ensures forall j :: 0 <= j < |p.byte| && p.byte[j] <= |row| ==> Boundary(row, p.byte[j])
    {
      hide *;
      EvenOf(p, row, r, exact, dense);
      EvenIs(p);
      forall j | 0 <= j < |p.byte| && p.byte[j] <= |row|
        ensures Boundary(row, p.byte[j])
      {
        SoundAt(p, row, r, exact, dense, j);
      }
    }

    static lemma {:induction false} EvenIs(p: Points)
      ensures p.Even() <==> |p.chars| == |p.disp| == |p.byte|
    {
    }

    /** Appending behind `x` leaves the columns in front of it exact. */
    static lemma {:induction false} FrontKept(p: Points, q: Points, row: Bytes, x: nat, r: Ruler, exact: bool, dense: bool)
      requires r.tab > 0 && Sound(q, row, r, exact, dense) && Begins(p, q) && p.chars != [] && p.LastByte() == x && FrontExact(p, row, x, r)
      ensures FrontExact(q, row, x, r)
    {
      hide DispAt;
      hide Marks;
      hide Near;
      hide Columned;
      forall j | 0 <= j < |q.byte| && q.byte[j] <= x && q.byte[j] <= |row|
        ensures j < |p.byte|
      {
        assert q.byte[|p.byte| - 1] == x;
      }
    }

    /** The checkpoints of `p`, and perhaps more. */
    static ghost predicate Begins(p: Points, q: Points) {
      p.Even() && q.Even() && p.chars <= q.chars && p.disp <= q.disp && p.byte <= q.byte
    }

    static lemma {:induction false} BeginsJoin(p: Points, q: Points, t: Points)
      requires Begins(p, q) && t.Even()
      ensures Begins(p, q.Join(t)) && Begins(p, p)
    {
    }

    static lemma {:induction false} GrownBegins(p: Points, q: Points)
      requires Grown(p, q)
      ensures Begins(p, q) && (Ascending(p.disp) ==> Ascending(q.disp))
    {
    }

    /** With exact checkpoints in front of it a place has its exact column. */
    static lemma {:induction false} ColumnFromExact(p: Points, row: Bytes, x: nat, r: Ruler)
      requires r.tab > 0 && p.Even() && p.chars != [] && p.byte[0] == 0 && x <= |row| && FrontExact(p, row, x, r)
      requires forall j :: 0 <= j < |p.byte| && p.byte[j] <= |row| ==> Boundary(row, p.byte[j])
      ensures ColumnFrom(p, row, x, r) == DispAt(row, x, r)
      decreases |p.chars|
    {
      hide Columns;
      hide Decode;
      hide Boundary;
      var n := |p.chars| - 1;
      if p.byte[n] <= x {
        TextBetween(row, p.byte[n], x);
        ColumnsConcat(Decode(row[..p.byte[n]]), Decode(row[p.byte[n]..x]), 0, r.tab, r.w);
      } else {
        ColumnFromExact(p.Take(n), row, x, r);
      }
    }

    /** The checkpoints up to `x`, with an exact one at `x`. */
    method PrefixAt(x: nat) returns (p: Points)
      requires Valid() && !failed && x <= byte[|byte| - 1] && Boundary(Row(), x) && x <= |Row()|
      ensures r.tab > 0 && Sound(p, Row(), r, exact, dense) && p.Even() && p.chars != []
      ensures p.LastByte() == x && p.LastChars() == CharsAt(Row(), x) && p.LastDisp() == ColumnAt(x)
      ensures x == byte[|byte| - 1] ==> p == Table()
      ensures NonNegative(p.disp) && (Ascending(disp) ==> Ascending(p.disp))
    {
      hide *;
      Parts();
      Shape(Table(), Row(), r, exact, dense);
      RisingIs(byte);
      var keep := BisectRight(byte, x);
      SoundTake(Table(), keep, Row(), r, exact, dense);
      TakeIs(Table(), keep);
      p := Points(chars[..keep], disp[..keep], byte[..keep]);
      TakeColumns(disp, keep);
      TakeWhole(Table(), keep);
      SoundIs(p, Row(), r, exact, dense);
      ColumnAtIs(x);
      ColumnFromAt(Table(), Row(), x, r, keep - 1);
      if byte[keep - 1] < x {
        var at := ByteToChar(x);
        BoundaryIsByteOf(Row(), x);
        CharsIs(Row(), x);
        NextBehind(keep, x);
        ClampedIs(at.value);
        RisingIs(chars);
        var column, from := TryCharToDisp(at.value);
        SamePoint(chars, keep - 1, from, at.value);
        MarkIs(Row(), at.value, x);
        SoundSnoc(p, at.value, column.value, x, Row(), r, exact, dense);
        JoinLast2(p, at.value, column.value, x);
        WholeRise(Decode(Row()[byte[keep - 1]..x]), disp[keep - 1], r);
        GrownAdd(p, at.value, column.value, x);
        GrownIs(p, p.Add(at.value, column.value, x));
        p := p.Add(at.value, column.value, x);
      } else {
        assert Row()[x..x] == [];
        DecodeNone();
        ColumnsNone(disp[keep - 1], r.tab, r.w);
      }
    }

    static lemma {:induction false} TakeColumns(xs: seq<nat>, n: nat)
      requires n <= |xs|
      ensures NonNegative(xs[..n]) && (Ascending(xs) ==> Ascending(xs[..n]))
    {
    }

    lemma {:induction false} ColumnAtIs(x: nat)
      requires Valid() && x <= |Row()|
      ensures r.tab > 0 && Table().Even() && Table().chars != [] && ColumnAt(x) == ColumnFrom(Table(), Row(), x, r)
    {
      hide Sound;
      hide TrueGap;
    }

    static lemma {:induction false} TakeIs(p: Points, n: nat)
      requires p.Even() && 0 < n <= |p.chars|
      ensures p.Take(n) == Points(p.chars[..n], p.disp[..n], p.byte[..n])
      ensures p.Take(n).Even() && p.Take(n).chars != []
      ensures p.Take(n).LastChars() == p.chars[n - 1] && p.Take(n).LastDisp() == p.disp[n - 1] && p.Take(n).LastByte() == p.byte[n - 1]
    {
    }

    static lemma {:induction false} TakeWhole(p: Points, n: nat)
      requires p.Even() && n <= |p.chars|
      ensures n == |p.chars| ==> p.Take(n) == p
    {
    }

    static lemma {:induction false} JoinLast2(p: Points, c: nat, d: int, b: nat)
      requires p.Even()
      ensures var q := p.Add(c, d, b); q.Even() && q.chars != [] && q.LastChars() == c && q.LastDisp() == d && q.LastByte() == b
    {
    }

    /** A place between two checkpoints: its character column lies strictly between theirs. */
    lemma {:induction false} NextBehind(keep: nat, x: nat)
      requires Valid() && 0 < keep < |byte| && |chars| == |byte| && byte[keep - 1] < x < byte[keep] && x <= |Row()| && Boundary(Row(), x)
      ensures chars[keep - 1] < CharsAt(Row(), x) < chars[keep] <= chars[|chars| - 1]
      ensures dense ==> CharsAt(Row(), x) - chars[keep - 1] <= r.step
    {
      hide *;
      Parts();
      Shape(Table(), Row(), r, exact, dense);
      RisingIs(chars);
      SoundAt(Table(), Row(), r, exact, dense, keep - 1);
      SoundAt(Table(), Row(), r, exact, dense, keep);
      CharsGrowStrictly(Row(), byte[keep - 1], x);
      CharsGrowStrictly(Row(), x, byte[keep]);
      if dense {
        NearIs(chars, r.step);
      }
    }

    static lemma {:induction false} NearIs(xs: seq<nat>, step: nat)
      requires Near(xs, step)
      ensures forall i :: 0 < i < |xs| ==> xs[i] - xs[i - 1] <= step
    {
    }

    static lemma {:induction false} CharsGrowStrictly(row: Bytes, p: nat, q: nat)
      requires p < q <= |row| && Boundary(row, p)
      ensures CharsAt(row, p) < CharsAt(row, q)
    {
      hide *;
      TextBetween(row, p, q);
      CharsIs(row, p);
      CharsIs(row, q);
      NonEmptyText(row[p..q]);
    }

    static lemma {:induction false} SamePoint(xs: seq<nat>, i: nat, j: nat, v: nat)
      requires forall a, b :: 0 <= a < b < |xs| ==> xs[a] < xs[b]
      requires i + 1 < |xs| && xs[i] <= v < xs[i + 1]
      requires j < |xs| && xs[j] <= v && (j + 1 < |xs| ==> v < xs[j + 1])
      ensures i == j
    {
      assert xs[i] < xs[i + 1];
      assert j + 1 < |xs| ==> xs[j] < xs[j + 1];
    }

    /** Deltas and tail of an edit, seen from the checkpoints in front of it: a gap that can be closed. */
    static lemma {:induction false} GapTrue(t: Points, far: nat, p: Points, row: Bytes, x: nat, e: nat, ins: Bytes, next: Bytes, r: Ruler,
                                            exact: bool, stays: bool, dense: bool, complete: bool, add: int, rem: int)
      requires r.tab > 0 && Sound(t, row, r, exact, dense) && t.Even() && t.chars != [] && Behind(t, far, e) && Edited(row, x, e, ins, next)
      requires Sound(p, row, r, exact, dense) && p.Even() && p.chars != [] && p.LastByte() == x && x <= e <= |row|
      requires add == Columns(Decode(ins), p.LastDisp(), r.tab, r.w) - p.LastDisp()
      requires stays ==>
                 && exact && rem == Columns(Decode(row[x..e]), p.LastDisp(), r.tab, r.w) - p.LastDisp()
                 && (NoTabBehind(row, e) || Aligned(add - rem, r.tab))
      requires complete ==> t.LastByte() == |row|
      ensures Sound(p, next, r, stays, dense) && x + |ins| <= |next| && far <= |t.chars| == |t.disp| == |t.byte|
      ensures exact ==> FrontExact(p, next, x, r)
      ensures var dc, db := |Decode(ins)| - |Decode(row[x..e])|, |ins| - (e - x);
              && (forall i :: 0 <= i < |t.chars[far..]| ==> t.chars[far..][i] + dc >= 0 && t.byte[far..][i] + db >= 0)
              && var g := Gap(x + |ins|, p.LastChars() + |Decode(ins)|, p.LastDisp() + add, Shifted(t, far, dc, add - rem, db), complete);
                 && TrueGap(g, p, next, r, stays, dense)
                 && g.tail.Even() && GapEnd(g) == (if t.LastByte() > e then t.LastByte() + db else x + |ins|)
                 && GapColumn(g) == (if t.LastByte() > e then t.LastDisp() + add - rem else p.LastDisp() + add)
                 && (NonNegative(g.tail.disp) <==> !Negative(t, e, add - rem))
                 && (Ascending(t.disp) ==> (TailFits(g) <==> KeepsUp(t, e, p.LastDisp() + rem)))
    {
      hide *;
      EditedParts(row, x, e, ins, next);
      EditedClean(row, x, e, ins, next);
      BehindIs(t, far, e);
      SoundIs(p, row, r, exact, dense);
      ShiftedTail(t, far, row, x, e, ins, next, add - rem, r, exact, dense);
      PrefixStays(p, row, x, next, r, exact, stays, dense);
      PrefixStays(p, row, x, next, r, exact, exact, dense);
      FrontFrom(p, next, x, r, exact, dense);
      EditColumns(p.LastDisp(), row, x, e, ins, next, r);
      InsertedChars(row, x, e, ins, next);
      var dc, db := |Decode(ins)| - |Decode(row[x..e])|, |ins| - (e - x);
      ShiftedIs(t, far, dc, add - rem, db);
      var tail := Shifted(t, far, dc, add - rem, db);
      var exactTail := exact && add - rem == DispAt(next, x + |ins|, r) - DispAt(row, e, r)
                       && (NoTabBehind(row, e) || Aligned(add - rem, r.tab));
      TailWeaker(tail, CharsAt(next, x + |ins|), x + |ins|, next, r, exactTail, stays, dense);
      TailEnds(t, far, e, dc, add - rem, db);
      var g := Gap(x + |ins|, p.LastChars() + |Decode(ins)|, p.LastDisp() + add, tail, complete);
      assert next[x..x + |ins|] == ins;
      GapEndIs(g);
      TailColumnsFit(t, far, e, dc, add - rem, db, g);
      GapMade(g, p, next, r, stays, dense);
    }

    /** Where the checkpoints end once the gap is closed. */
    static function GapEnd(g: Gap): int
      requires g.tail.Even()
    {
      if g.tail.chars == [] then g.endByte else g.tail.LastByte()
    }

    /** The column of that end. */
    static function GapColumn(g: Gap): int
      requires g.tail.Even()
    {
      if g.tail.chars == [] then g.endDisp else g.tail.LastDisp()
    }

    static lemma {:induction false} GapEndIs(g: Gap)
      requires g.tail.Even()
      ensures GapEnd(g) == if g.tail.chars == [] then g.endByte else g.tail.LastByte()
      ensures GapColumn(g) == if g.tail.chars == [] then g.endDisp else g.tail.LastDisp()
    {
    }

    /** The checkpoints from `far` on, moved by the deltas. */
    static function Shifted(t: Points, far: nat, dc: int, dd: int, db: int): Points
      requires far <= |t.chars| == |t.disp| == |t.byte|
      requires forall i :: 0 <= i < |t.chars[far..]| ==> t.chars[far..][i] + dc >= 0 && t.byte[far..][i] + db >= 0
    {
      Points(ShiftNats(t.chars[far..], dc), ShiftInts(t.disp[far..], dd), ShiftNats(t.byte[far..], db))
    }

    static lemma {:induction false} ShiftedIs(t: Points, far: nat, dc: int, dd: int, db: int)
      requires far <= |t.chars| == |t.disp| == |t.byte|
      requires forall i :: 0 <= i < |t.chars[far..]| ==> t.chars[far..][i] + dc >= 0 && t.byte[far..][i] + db >= 0
      ensures Shifted(t, far, dc, dd, db) == Points(ShiftNats(t.chars[far..], dc), ShiftInts(t.disp[far..], dd), ShiftNats(t.byte[far..], db))
      ensures Shifted(t, far, dc, dd, db).Even() && |Shifted(t, far, dc, dd, db).chars| == |t.chars| - far
    {
    }

    /** The shifted tail ends where the table ended, moved; there is none when the table ended in front of it. */
    static lemma {:induction false} TailEnds(t: Points, far: nat, e: nat, dc: int, dd: int, db: int)
      requires t.Even() && t.chars != [] && Behind(t, far, e) && far <= |t.chars|
      requires forall i :: 0 <= i < |t.chars[far..]| ==> t.chars[far..][i] + dc >= 0 && t.byte[far..][i] + db >= 0
      ensures var tail := Shifted(t, far, dc, dd, db);
              && tail.Even()
              && (if tail.chars == [] then t.LastByte() <= e
                  else t.LastByte() > e && tail.LastByte() == t.LastByte() + db && tail.LastDisp() == t.LastDisp() + dd)
    {
      var tail := Shifted(t, far, dc, dd, db);
      assert |tail.chars| == |t.chars| - far;
    }

    static lemma {:induction false} PrefixStays(p: Points, row: Bytes, x: nat, next: Bytes, r: Ruler, exact: bool, stays: bool, dense: bool)
      requires r.tab > 0 && Sound(p, row, r, exact, dense) && p.Even() && p.chars != [] && p.LastByte() == x
      requires x <= |row| && x <= |next| && row[..x] == next[..x] && Boundary(row, x) && Boundary(next, x) && (stays ==> exact)
      ensures Sound(p, next, r, stays, dense) && p.LastChars() == CharsAt(next, x)
      ensures exact ==> p.LastDisp() == DispAt(next, x, r) == DispAt(row, x, r)
    {
      hide *;
      SoundMove(p, row, next, x, r, exact, dense);
      SoundIs(p, next, r, exact, dense);
      SoundIs(p, row, r, exact, dense);
      SoundWeaker(p, next, r, exact, stays, dense);
    }

    static lemma {:induction false} SoundWeaker(p: Points, row: Bytes, r: Ruler, exact: bool, stays: bool, dense: bool)
      requires r.tab > 0 && Sound(p, row, r, exact, dense) && (stays ==> exact)
      ensures Sound(p, row, r, stays, dense)
    {
      hide Marks;
      hide Columned;
      hide Rising;
      hide Near;
    }

    static lemma {:induction false} TailWeaker(t: Points, c: nat, b: nat, row: Bytes, r: Ruler, exact: bool, stays: bool, dense: bool)
      requires r.tab > 0 && SoundTail(t, c, b, row, r, exact, dense) && (stays ==> exact)
      ensures SoundTail(t, c, b, row, r, stays, dense)
    {
      hide Marks;
      hide Columned;
      hide Rising;
      hide Near;
    }

    /** Widths of the old and of the new text, when they start at the exact column of the edit. */
    static lemma {:induction false} EditColumns(d: int, row: Bytes, x: nat, e: nat, ins: Bytes, next: Bytes, r: Ruler)
      requires r.tab > 0 && Edited(row, x, e, ins, next) && x <= e <= |row| && x + |ins| <= |next|
      ensures d == DispAt(row, x, r) ==>
                && Columns(Decode(ins), d, r.tab, r.w) == DispAt(next, x + |ins|, r)
                && Columns(Decode(row[x..e]), d, r.tab, r.w) == DispAt(row, e, r)
    {
      hide *;
      EditedParts(row, x, e, ins, next);
      EditedClean(row, x, e, ins, next);
      TextBetween(row, x, e);
      TextBetween(next, x, x + |ins|);
      DispIs(row, x, r);
      DispIs(row, e, r);
      DispIs(next, x + |ins|, r);
      ColumnsConcat(Decode(row[..x]), Decode(row[x..e]), 0, r.tab, r.w);
      ColumnsConcat(Decode(row[..x]), Decode(ins), 0, r.tab, r.w);
    }

    static lemma {:induction false} InsertedChars(row: Bytes, x: nat, e: nat, ins: Bytes, next: Bytes)
      requires Edited(row, x, e, ins, next) && x <= e <= |row| && x + |ins| <= |next|
      ensures CharsAt(next, x + |ins|) == CharsAt(next, x) + |Decode(ins)|
    {
      hide *;
      EditedParts(row, x, e, ins, next);
      EditedClean(row, x, e, ins, next);
      TextBetween(next, x, x + |ins|);
      CharsIs(next, x);
      CharsIs(next, x + |ins|);
    }

    static lemma {:induction false} GapMade(g: Gap, p: Points, row: Bytes, r: Ruler, exact: bool, dense: bool)
      requires r.tab > 0 && p.Even() && p.chars != []
      requires p.LastByte() <= g.endByte <= |row| && Boundary(row, g.endByte) && g.endChars == CharsAt(row, g.endByte)
      requires g.endDisp == Columns(Decode(row[p.LastByte()..g.endByte]), p.LastDisp(), r.tab, r.w)
      requires SoundTail(g.tail, g.endChars, g.endByte, row, r, exact, dense)
      requires g.complete ==> if g.tail.chars == [] then g.endByte == |row| else g.tail.Even() && g.tail.LastByte() == |row|
      ensures TrueGap(g, p, row, r, exact, dense)
    {
      hide SoundTail;
      hide Boundary;
      hide Columns;
      hide Decode;
      hide CharsAt;
    }

    /** The end of the inserted text as one more checkpoint (`_extend_exact`). */
    static lemma {:induction false} EndPoint(g: Gap, p: Points, row: Bytes, r: Ruler, exact: bool, dense: bool, added: nat)
      requires r.tab > 0 && Sound(p, row, r, exact, dense) && p.Even() && p.chars != [] && TrueGap(g, p, row, r, exact, dense)
      requires p.LastByte() < g.endByte && added <= r.step && g.endChars == p.LastChars() + added
      ensures var q := p.Add(g.endChars, g.endDisp, g.endByte);
              && Sound(q, row, r, exact, dense) && q.Even() && q.chars != [] && q.LastByte() == g.endByte
              && TrueGap(g, q, row, r, exact, dense)
    {
      hide *;
      SoundIs(p, row, r, exact, dense);
      GapParts(g, p, row, r, exact, dense);
      GapColumns(g, p, row, r, exact, dense);
      CharsGrowStrictly(row, p.LastByte(), g.endByte);
      CharsIs(row, g.endByte);
      MarkIs(row, g.endChars, g.endByte);
      TextBetween(row, p.LastByte(), g.endByte);
      DispIs(row, p.LastByte(), r);
      DispIs(row, g.endByte, r);
      ColumnsConcat(Decode(row[..p.LastByte()]), Decode(row[p.LastByte()..g.endByte]), 0, r.tab, r.w);
      SoundSnoc(p, g.endChars, g.endDisp, g.endByte, row, r, exact, dense);
      JoinLast2(p, g.endChars, g.endDisp, g.endByte);
      var q := p.Add(g.endChars, g.endDisp, g.endByte);
      assert row[g.endByte..g.endByte] == [];
      DecodeNone();
      ColumnsNone(g.endDisp, r.tab, r.w);
      GapAhead(g, p, q, row, r, exact, dense);
    }

    static lemma {:induction false} GapColumns(g: Gap, p: Points, row: Bytes, r: Ruler, exact: bool, dense: bool)
      requires r.tab > 0 && p.Even() && p.chars != [] && TrueGap(g, p, row, r, exact, dense)
      requires p.LastByte() <= g.endByte <= |row|
      ensures g.endChars == CharsAt(row, g.endByte)
      ensures g.endDisp == Columns(Decode(row[p.LastByte()..g.endByte]), p.LastDisp(), r.tab, r.w)
    {
      hide SoundTail;
      hide Boundary;
      hide Columns;
      hide Decode;
      hide CharsAt;
    }

    static ghost predicate EndsWith(p: Points, t: Points) {
      p.Even() && t.Even() && |t.chars| <= |p.chars| && p.Drop(|p.chars| - |t.chars|) == t
    }

    static lemma {:induction false} JoinEndsWith(p: Points, t: Points)
      requires p.Even() && t.Even()
      ensures EndsWith(p.Join(t), t)
    {
    }

    static lemma {:induction false} TailIsEven(g: Gap, p: Points, row: Bytes, r: Ruler, exact: bool, dense: bool)
      requires r.tab > 0 && p.Even() && p.chars != [] && TrueGap(g, p, row, r, exact, dense)
      ensures g.tail.Even()
    {
      hide Marks;
      hide Columned;
      hide Rising;
      hide Near;
      hide Boundary;
      hide Columns;
      hide Decode;
      hide CharsAt;
    }

    /** Whether inserted text is left to the scan thread. */
    predicate Defers(addedChars: nat, addedBytes: nat, syncBytes: nat) {
      addedChars > r.step && addedBytes > syncBytes
    }

    lemma {:induction false} DefersIs(addedChars: nat, addedBytes: nat, syncBytes: nat)
      ensures Defers(addedChars, addedBytes, syncBytes) <==> addedChars > r.step && addedBytes > syncBytes
    {
    }

    /**
     The end of `_adopt`: short text at once, longer text by a scan, very long text left to the scan thread. False when
     the tail cannot be stored: the exception leaves no index behind.
     */
    method Insert(g: Gap, addedChars: nat, addedBytes: nat, syncBytes: nat) returns (ok: bool)
      requires Settings() && r.tab > 0 && Sound(Table(), Row(), r, exact, dense) && Table().Even() && Table().chars != []
      requires TrueGap(g, Table(), Row(), r, exact, dense) && !complete && !failed && gap.None?
      requires g.endChars == Table().LastChars() + addedChars && g.endByte == Table().LastByte() + addedBytes && g.tail.Even()
      modifies this`chars, this`disp, this`byte, this`complete, this`failed, this`gap
      ensures ok <==> Defers(addedChars, addedBytes, syncBytes) || NonNegative(g.tail.disp)
      ensures ok ==> Valid() && !failed && Begins(old(Table()), Table())
      ensures ok && Defers(addedChars, addedBytes, syncBytes) ==> gap == Some(g) && !complete && Table() == old(Table())
      ensures ok && !Defers(addedChars, addedBytes, syncBytes) ==>
                && gap.None? && complete == g.complete && EndsWith(Table(), g.tail)
                && Table().LastByte() == GapEnd(g) && Table().LastDisp() == GapColumn(g)
                && (old(Ascending(disp)) ==> (Ascending(disp) <==> TailFits(g)))
      ensures ok && addedBytes == 0 && addedChars == 0 ==> Table() == old(Table()).Join(g.tail)
    {
      hide *;
      TableFields();
      DefersIs(addedChars, addedBytes, syncBytes);
      SoundIs(Table(), Row(), r, exact, dense);
      GapParts(g, Table(), Row(), r, exact, dense);
      TailIsEven(g, Table(), Row(), r, exact, dense);
      NoPoints();
      GrownSame(Table());
      GrownBegins(Table(), Table());
      if Defers(addedChars, addedBytes, syncBytes) {
        gap := Some(g);
        TableFields();
        IsValid();
        return true;
      }
      Reach(g, addedChars);
      JoinEndsWith(Table(), g.tail);
      JoinEnds(Table(), g.tail);
      GapEndIs(g);
      GrownBegins(old(Table()), Table());
      BeginsJoin(old(Table()), Table(), g.tail);
      SoundIs(Table(), Row(), r, exact, dense);
      GapIs(g, Table(), Row(), r, exact, dense);
      JoinFits2(Table(), g);
      TableFields();
      var a := Attach(g);
      if a.Overflowed? {
        return false;
      }
      TableFields();
      IsValid();
      ok := true;
    }

    static lemma {:induction false} NoPoints()
      ensures forall p: Points :: p.Join(Points([], [], [])) == p
    {
    }

    /** The checkpoints of the inserted text, up to its end. */
    method Reach(g: Gap, addedChars: nat)
      requires Settings() && r.tab > 0 && Sound(Table(), Row(), r, exact, dense) && Table().Even() && Table().chars != []
      requires TrueGap(g, Table(), Row(), r, exact, dense) && g.endChars == Table().LastChars() + addedChars
      modifies this`chars, this`disp, this`byte
      ensures Sound(Table(), Row(), r, exact, dense) && Table().Even() && Table().chars != [] && Table().LastByte() == g.endByte
      ensures TrueGap(g, Table(), Row(), r, exact, dense) && Grown(old(Table()), Table())
      ensures g.endByte == old(Table()).LastByte() ==> Table() == old(Table())
    {
      hide *;
      TableFields();
      SoundIs(Table(), Row(), r, exact, dense);
      GapParts(g, Table(), Row(), r, exact, dense);
      GrownSame(Table());
      if addedChars <= r.step {
        if g.endByte > byte[|byte| - 1] {
          EndPoint(g, Table(), Row(), r, exact, dense, addedChars);
          EndAhead(g, Table(), Row(), r, exact, dense);
          GrownAdd(Table(), g.endChars, g.endDisp, g.endByte);
          GrownIs(Table(), Table().Add(g.endChars, g.endDisp, g.endByte));
          AddIs(Table(), g.endChars, g.endDisp, g.endByte);
          Allowed(Table().Add(g.endChars, g.endDisp, g.endByte).disp);
          chars, disp, byte := chars + [g.endChars], disp + [g.endDisp], byte + [g.endByte];
          TableFields();
        }
      } else {
        var out, looks := ScanSpan(Totals(chars[|chars| - 1], disp[|disp| - 1], byte[|byte| - 1]), g.endByte, None);
        GapAhead(g, old(Table()), Table(), Row(), r, exact, dense);
      }
    }

    static lemma {:induction false} EndAhead(g: Gap, p: Points, row: Bytes, r: Ruler, exact: bool, dense: bool)
      requires r.tab > 0 && p.Even() && p.chars != [] && TrueGap(g, p, row, r, exact, dense)
      ensures p.LastDisp() <= g.endDisp
    {
      hide *;
      GapParts(g, p, row, r, exact, dense);
      GapColumns(g, p, row, r, exact, dense);
      WholeRise(Decode(row[p.LastByte()..g.endByte]), p.LastDisp(), r);
    }

    static lemma {:induction false} AddIs(p: Points, c: nat, d: int, b: nat)
      ensures p.Add(c, d, b) == Points(p.chars + [c], p.disp + [d], p.byte + [b])
    {
    }

    /** Whether only checkpoints in front of the edit are known, so that the scan goes on from there. */
    ghost predicate PrefixOnly(edit: Edit)
      requires byte != []
      reads this
    {
      byte[|byte| - 1] < edit.xRel || (byte[|byte| - 1] == edit.xRel && !complete)
    }

    lemma {:induction false} PrefixOnlyIs(edit: Edit)
      requires byte != []
      ensures PrefixOnly(edit) <==> byte[|byte| - 1] < edit.xRel || (byte[|byte| - 1] == edit.xRel && !complete)
    {
    }

    lemma {:induction false} StaysExactIs(edit: Edit)
      requires Valid() && edit.xRel + edit.removedBytes <= |Row()| && r.tab > 0
      ensures StaysExact(edit) <==>
                && exact && Measured(edit)
                && (NoTabBehind(Row(), edit.xRel + edit.removedBytes) || Aligned(edit.addedDisp - edit.removedDisp, r.tab))
    {
      hide Measured;
      hide Sound;
      hide TrueGap;
      hide NoTabBehind;
    }

    static lemma {:induction false} IsBehind(p: Points, far: nat, e: nat)
      requires p.Even() && far <= |p.byte|
      requires forall i :: 0 <= i < far ==> p.byte[i] <= e
      requires forall i :: far <= i < |p.byte| ==> p.byte[i] > e
      ensures Behind(p, far, e)
    {
    }

    /**
     What an edit makes of the order of the columns. Of ascending columns it can be told before the call, from the
     first checkpoint behind the removed range, whether they go on ascending.
     */
    ghost predicate OrderAfter(before: LongLineIndex, edit: Edit, deferred: bool)
      requires before.Valid() && edit.xRel <= |before.Row()|
      reads this, before
    {
      && (deferred ==> gap.Some? && (NonNegative(gap.value.tail.disp) <==> !before.GoesNegative(edit)))
      && (Ascending(before.disp) ==>
            if deferred then Ascending(disp) && (TailFits(gap.value) <==> before.KeepsAscending(edit))
            else Ascending(disp) <==> before.KeepsAscending(edit))
    }

    lemma {:induction false} OrderIs(before: LongLineIndex, edit: Edit, deferred: bool)
      requires before.Valid() && edit.xRel <= |before.Row()|
      ensures OrderAfter(before, edit, deferred) <==>
                && (deferred ==> gap.Some? && (NonNegative(gap.value.tail.disp) <==> !before.GoesNegative(edit)))
                && (Ascending(before.disp) ==>
                      if deferred then Ascending(disp) && (TailFits(gap.value) <==> before.KeepsAscending(edit))
                      else Ascending(disp) <==> before.KeepsAscending(edit))
    {
      hide Valid;
      hide TailFits;
      hide Ascending;
      hide NonNegative;
      hide KeepsAscending;
      hide GoesNegative;
    }

    /**
     `_adopt`: take over the checkpoints of `before` around the edit. The new table is right for the edited row, with
     the checkpoints behind the edit moved by its deltas; columns in front of it stay exact, those behind it under the
     tab condition. False when a column behind the edit would be negative.
     */
    method Adopt(before: LongLineIndex, edit: Edit, syncBytes: nat, ghost ins: Bytes) returns (ok: bool)
      requires before != this && before.Valid() && !before.failed && before.byte != [] && edit.xRel + edit.removedBytes <= |before.Row()|
      requires Settings() && r == before.r && r.tab > 0 && !failed && gap.None? && before.Truthful(edit, ins, Row())
      modifies this
      ensures ok <==> before.PrefixOnly(edit) || Defers(edit.addedChars, edit.addedBytes, syncBytes) || !before.GoesNegative(edit)
      ensures ok ==> Valid() && !failed && dense == before.dense && Table().Even()
      ensures ok ==> exact == (if before.PrefixOnly(edit) then before.exact else before.StaysExact(edit))
      ensures ok && before.exact ==> FrontExact(Table(), Row(), edit.xRel, r)
      ensures ok && before.PrefixOnly(edit) ==> Table() == before.Table() && !complete && gap.None?
      ensures ok && !before.PrefixOnly(edit) ==> OrderAfter(before, edit, Defers(edit.addedChars, edit.addedBytes, syncBytes))
      ensures ok && !before.PrefixOnly(edit) ==>
                if Defers(edit.addedChars, edit.addedBytes, syncBytes) then !complete && gap.Some? && GapAs(before, edit)
                else gap.None? && complete == before.complete && EndsAs(before, edit)
      ensures edit.removedBytes == 0 && edit.removedDisp == 0 && edit.addedBytes == 0 && edit.xRel == |before.Row()| ==>
                ok && Table() == before.Table() && complete == before.complete && gap.None? && exact == before.exact
    {
      hide *;
      before.Parts();
      before.PrefixOnlyIs(edit);
      dense, complete := before.dense, false;
      var frontier := before.byte[|before.byte| - 1];
      if frontier < edit.xRel || (frontier == edit.xRel && !before.complete) {
        AdoptPrefix(before, edit, ins);
        ok := true;
      } else {
        ok := AdoptAround(before, edit, syncBytes, ins);
      }
    }

    /** The part of `_adopt` when the old scan has not come up to the edit: the scan goes on from its frontier. */
    method AdoptPrefix(before: LongLineIndex, edit: Edit, ghost ins: Bytes)
      requires before != this && before.Valid() && before.byte != [] && edit.xRel + edit.removedBytes <= |before.Row()|
      requires Settings() && r == before.r && r.tab > 0 && gap.None? && before.Truthful(edit, ins, Row())
      requires !complete && dense == before.dense && before.byte[|before.byte| - 1] <= edit.xRel
      modifies this`chars, this`disp, this`byte, this`exact
      ensures Valid() && exact == before.exact && Table() == before.Table() && Table().Even()
      ensures before.exact ==> FrontExact(Table(), Row(), edit.xRel, r)
    {
      hide *;
      before.Parts();
      before.TableFields();
      before.TruthfulIs(edit, ins, Row());
      var x, e := edit.xRel, edit.xRel + edit.removedBytes;
      EditedParts(before.Row(), x, e, ins, Row());
      EditedClean(before.Row(), x, e, ins, Row());
      SoundMove(before.Table(), before.Row(), Row(), x, r, before.exact, before.dense);
      FrontFrom(before.Table(), Row(), x, r, before.exact, before.dense);
      chars, disp, byte := before.chars, before.disp, before.byte;
      exact := before.exact;
      TableFields();
      IsValid();
    }

    /** The part of `_adopt` behind a known edit position: keep, cut, shift, attach. */
    method AdoptAround(before: LongLineIndex, edit: Edit, syncBytes: nat, ghost ins: Bytes) returns (ok: bool)
      requires before != this && before.Valid() && !before.failed && before.byte != [] && edit.xRel + edit.removedBytes <= |before.Row()|
      requires Settings() && r == before.r && r.tab > 0 && !failed && gap.None? && before.Truthful(edit, ins, Row())
      requires !complete && dense == before.dense && !before.PrefixOnly(edit)
      modifies this
      ensures ok <==> Defers(edit.addedChars, edit.addedBytes, syncBytes) || !before.GoesNegative(edit)
      ensures ok ==> Valid() && !failed && dense == before.dense && exact == before.StaysExact(edit) && Table().Even()
      ensures ok && before.exact ==> FrontExact(Table(), Row(), edit.xRel, r)
      ensures ok ==> OrderAfter(before, edit, Defers(edit.addedChars, edit.addedBytes, syncBytes))
      ensures ok ==>
                if Defers(edit.addedChars, edit.addedBytes, syncBytes) then !complete && gap.Some? && GapAs(before, edit)
                else gap.None? && complete == before.complete && EndsAs(before, edit)
      ensures edit.removedBytes == 0 && edit.removedDisp == 0 && edit.addedBytes == 0 && edit.xRel == |before.Row()| ==>
                ok && Table() == before.Table() && gap.None? && exact == before.exact
    {
      hide *;
      before.Parts();
      before.StaysExactIs(edit);
      ghost var deferred := Defers(edit.addedChars, edit.addedBytes, syncBytes);
      exact := before.StaysExact(edit);
      var p, g := before.Around(edit, ins, Row());
      Allowed(p.disp);
      chars, disp, byte := p.chars, p.disp, p.byte;
      PointsIs(p);
      TableFields();
      ok := Insert(g, edit.addedChars, edit.addedBytes, syncBytes);
      if ok {
        Parts();
        TableFields();
        OrderIs(before, edit, deferred);
        if deferred {
          GapAsIs(before, edit);
        } else {
          EndsAsIs(before, edit);
        }
        if before.exact {
          FrontKept(p, Table(), Row(), edit.xRel, r, exact, dense);
        }
      }
      DefersIs(edit.addedChars, edit.addedBytes, syncBytes);
    }

    /** The known part ends where it ended, moved by the edit, and so does its column: nothing that was known is lost. */
    ghost predicate EndsAs(before: LongLineIndex, edit: Edit)
      requires before.Valid() && before.byte != [] && edit.xRel <= |before.Row()|
      reads this, before
    {
      && |byte| == |disp| > 0 && byte[|byte| - 1] == before.EndAfter(edit) && disp[|disp| - 1] == before.ColumnAfter(edit)
    }

    lemma {:induction false} EndsAsIs(before: LongLineIndex, edit: Edit)
      requires before.Valid() && before.byte != [] && edit.xRel <= |before.Row()|
      ensures EndsAs(before, edit) <==>
                |byte| == |disp| > 0 && byte[|byte| - 1] == before.EndAfter(edit) && disp[|disp| - 1] == before.ColumnAfter(edit)
    {
      hide Valid;
      hide EndAfter;
      hide ColumnAfter;
    }

    /**
     The table ends at the edit. The gap left to the scan ends, with the tail behind it, where the known part ended, and
     remembers whether that was all.
     */
    ghost predicate GapAs(before: LongLineIndex, edit: Edit)
      requires before.Valid() && before.byte != [] && edit.xRel <= |before.Row()|
      reads this, before
    {
      && gap.Some? && gap.value.tail.Even() && gap.value.complete == before.complete
      && byte != [] && byte[|byte| - 1] == edit.xRel && gap.value.endByte == edit.xRel + edit.addedBytes
      && GapEnd(gap.value) == before.EndAfter(edit) && GapColumn(gap.value) == before.ColumnAfter(edit)
    }

    lemma {:induction false} GapAsIs(before: LongLineIndex, edit: Edit)
      requires before.Valid() && before.byte != [] && edit.xRel <= |before.Row()|
      ensures GapAs(before, edit) <==>
                && gap.Some? && gap.value.tail.Even() && gap.value.complete == before.complete
                && byte != [] && byte[|byte| - 1] == edit.xRel && gap.value.endByte == edit.xRel + edit.addedBytes
                && GapEnd(gap.value) == before.EndAfter(edit) && GapColumn(gap.value) == before.ColumnAfter(edit)
    {
      hide Valid;
      hide EndAfter;
      hide ColumnAfter;
      hide GapEnd;
      hide GapColumn;
    }

    /** Where the known part ends after an edit in it: nothing that was known is lost. */
    ghost function EndAfter(edit: Edit): int
      requires byte != []
      reads this
    {
      var last := byte[|byte| - 1];
      if last > edit.xRel + edit.removedBytes then last + edit.addedBytes - edit.removedBytes else edit.xRel + edit.addedBytes
    }

    ghost function ColumnAfter(edit: Edit): int
      requires Valid() && byte != [] && edit.xRel <= |Row()|
      reads this
    {
      if byte[|byte| - 1] > edit.xRel + edit.removedBytes then Table().LastDisp() + edit.addedDisp - edit.removedDisp
      else ColumnAt(edit.xRel) + edit.addedDisp
    }

    lemma {:induction false} EndAfterIs(edit: Edit)
      requires Valid() && byte != [] && edit.xRel <= |Row()|
      ensures Table().Even() && Table().chars != []
      ensures EndAfter(edit) ==
              var last := byte[|byte| - 1];
              if last > edit.xRel + edit.removedBytes then last + edit.addedBytes - edit.removedBytes else edit.xRel + edit.addedBytes
      ensures ColumnAfter(edit) ==
              if byte[|byte| - 1] > edit.xRel + edit.removedBytes then Table().LastDisp() + edit.addedDisp - edit.removedDisp
              else ColumnAt(edit.xRel) + edit.addedDisp
    {
      hide Sound;
      hide TrueGap;
      hide ColumnAt;
    }

    /** The checkpoints up to the edit, and the gap behind them with the tail moved by the deltas. */
    method Around(edit: Edit, ghost ins: Bytes, ghost next: Bytes) returns (p: Points, g: Gap)
      requires Valid() && !failed && byte != [] && edit.xRel + edit.removedBytes <= |Row()| && r.tab > 0
      requires Truthful(edit, ins, next) && !PrefixOnly(edit)
      ensures p.Even() && p.chars != [] && Sound(p, next, r, StaysExact(edit), dense)
      ensures TrueGap(g, p, next, r, StaysExact(edit), dense)
      ensures g.endChars == p.LastChars() + edit.addedChars && g.endByte == p.LastByte() + edit.addedBytes && g.complete == complete
      ensures g.tail.Even() && GapEnd(g) == EndAfter(edit) && GapColumn(g) == ColumnAfter(edit) && p.LastByte() == edit.xRel
      ensures NonNegative(p.disp) && (NonNegative(g.tail.disp) <==> !GoesNegative(edit)) && (exact ==> FrontExact(p, next, edit.xRel, r))
      ensures Ascending(disp) ==> Ascending(p.disp) && (TailFits(g) <==> KeepsAscending(edit))
      ensures edit.removedBytes == 0 && edit.removedDisp == 0 && edit.addedBytes == 0 && edit.xRel == |Row()| ==>
                p.Join(g.tail) == Table() && NonNegative(g.tail.disp) && edit.addedChars == 0 && (exact ==> StaysExact(edit))
    {
      hide *;
      Parts();
      TableFields();
      TruthfulIs(edit, ins, next);
      PrefixOnlyIs(edit);
      var x, e := edit.xRel, edit.xRel + edit.removedBytes;
      EditedParts(Row(), x, e, ins, next);
      EditedClean(Row(), x, e, ins, next);
      var far := FarAt(e);
      p := PrefixAt(x);
      StaysExactIs(edit);
      MeasuredIs(edit);
      FitIs(edit);
      var dc, dd, db := edit.addedChars - edit.removedChars, edit.addedDisp - edit.removedDisp, edit.addedBytes - edit.removedBytes;
      GapTrue(Table(), far, p, Row(), x, e, ins, next, r, exact, StaysExact(edit), dense, complete, edit.addedDisp, edit.removedDisp);
      NothingAdded(edit, ins, this, far, dc, dd, db);
      EndAfterIs(edit);
      var tail := Shifted(Points(chars, disp, byte), far, dc, dd, db);
      g := Gap(x + edit.addedBytes, p.LastChars() + edit.addedChars, p.LastDisp() + edit.addedDisp, tail, complete);
    }

    /** The first checkpoint behind offset `e` of the row. */
    method FarAt(e: nat) returns (far: nat)
      requires Valid()
      ensures Behind(Table(), far, e) && far <= |chars| == |disp| == |byte|
      ensures forall i :: far <= i < |byte| ==> byte[i] > e
    {
      hide *;
      Parts();
      TableFields();
      ByteOrder();
      far := BisectRight(byte, e);
      IsBehind(Table(), far, e);
    }

    /** The byte column ascends. */
    lemma {:induction false} ByteOrder()
      requires Valid()
      ensures forall i, j :: 0 <= i < j < |byte| ==> byte[i] <= byte[j]
    {
      hide *;
      Parts();
      Shape(Table(), Row(), r, exact, dense);
      RisingIs(byte);
    }

    /** An edit that changes nothing at the row end has no width and no tail. */
    static lemma {:induction false} NothingAdded(edit: Edit, ins: Bytes, before: LongLineIndex, far: nat, dc: int, dd: int, db: int)
      requires before.Valid() && far <= |before.chars| == |before.disp| == |before.byte| && before.byte != []
      requires forall i :: 0 <= i < |before.chars[far..]| ==> before.chars[far..][i] + dc >= 0 && before.byte[far..][i] + db >= 0
      requires |ins| == edit.addedBytes && |Decode(ins)| == edit.addedChars && before.r.tab > 0
      requires edit.xRel <= |before.Row()| && edit.addedDisp == Columns(Decode(ins), before.ColumnAt(edit.xRel), before.r.tab, before.r.w) - before.ColumnAt(edit.xRel)
      requires edit.xRel + edit.removedBytes <= |before.Row()|
      requires forall i :: far <= i < |before.byte| ==> before.byte[i] > edit.xRel + edit.removedBytes
      ensures edit.addedBytes == 0 ==> edit.addedChars == 0 && edit.addedDisp == 0
      ensures edit.removedBytes == 0 && edit.removedDisp == 0 ==> before.Measured(edit)
      ensures edit.xRel == |before.Row()| && edit.removedBytes == 0 ==>
                && NonNegative(Shifted(Points(before.chars, before.disp, before.byte), far, dc, dd, db).disp)
                && forall p: Points :: p.Join(Shifted(Points(before.chars, before.disp, before.byte), far, dc, dd, db)) == p
      ensures Aligned(0, before.r.tab)
    {
    }

    /**
     `spliced`: the index of the edited row from the index of the row before; `None` for the exception of an unsigned
     array that is to take a negative column. An index that is returned is an index of the new row in every respect;
     nothing is scanned twice in front of the edit or behind it.
     */
    static method Spliced(before: LongLineIndex, source: Bytes, edit: Edit, scanBlock: nat, syncBytes: nat, ghost ins: Bytes)
        returns (index: Option<LongLineIndex>)
      requires before.Valid() && !before.failed && scanBlock > 0 && before.byte != [] && before.r.tab > 0
      requires edit.xRel + edit.removedBytes <= |before.Row()| && before.Truthful(edit, ins, source)
      ensures index.None? <==>
                source != [] && !before.PrefixOnly(edit) && !before.Defers(edit.addedChars, edit.addedBytes, syncBytes) && before.GoesNegative(edit)
      ensures index.Some? ==>
                && fresh(index.value) && index.value.Valid() && !index.value.failed && index.value.Row() == source && index.value.r == before.r
                && index.value.Table().Even()
      ensures index.Some? && source == [] ==> index.value.complete && index.value.gap.None?
      ensures index.Some? && source != [] ==>
                && index.value.dense == before.dense
                && index.value.exact == (if before.PrefixOnly(edit) then before.exact else before.StaysExact(edit))
                && (before.exact ==> FrontExact(index.value.Table(), source, edit.xRel, before.r))
      ensures index.Some? && source != [] && before.PrefixOnly(edit) ==>
                index.value.Table() == before.Table() && !index.value.complete && index.value.gap.None?
      ensures index.Some? && source != [] && !before.PrefixOnly(edit) ==>
                && index.value.OrderAfter(before, edit, before.Defers(edit.addedChars, edit.addedBytes, syncBytes))
                && if before.Defers(edit.addedChars, edit.addedBytes, syncBytes) then index.value.gap.Some? && !index.value.complete && index.value.GapAs(before, edit)
                   else index.value.gap.None? && index.value.complete == before.complete && index.value.EndsAs(before, edit)
      ensures edit.removedBytes == 0 && edit.removedDisp == 0 && edit.addedBytes == 0 && edit.xRel == |before.Row()| && source != [] ==>
                && index.Some? && index.value.Table() == before.Table() && index.value.complete == before.complete
                && index.value.gap.None? && index.value.exact == before.exact
    {
      hide *;
      before.Parts();
      var made := new LongLineIndex(source, 0, |source|, before.r, scanBlock, None);
      made.RowIs();
      made.SettingsAre();
      made.Parts();
      assert source[0..|source|] == source;
      made.DefersIs(edit.addedChars, edit.addedBytes, syncBytes);
      before.DefersIs(edit.addedChars, edit.addedBytes, syncBytes);
      if |source| > 0 {
        var ok := made.Adopt(before, edit, syncBytes, ins);
        if !ok {
          return None;
        }
      }
      index := Some(made);
    }

    /**
     `rebased`: the same row at another place. `None` exactly when the lengths differ; otherwise every checkpoint is
     kept, and what was known stays known.
     */
    static method Rebased(before: LongLineIndex, source: Bytes, scanBlock: nat) returns (index: Option<LongLineIndex>)
      requires before.Valid() && !before.failed && scanBlock > 0 && before.byte != [] && before.r.tab > 0
      requires |source| == before.end - before.start ==> source == before.Row()
      ensures index.None? <==> |source| != before.end - before.start
      ensures index.Some? ==>
                && fresh(index.value) && index.value.Valid() && !index.value.failed && index.value.Row() == before.Row()
                && (source != [] ==>
                      && index.value.Table() == before.Table() && index.value.complete == before.complete
                      && index.value.exact == before.exact && index.value.dense == before.dense)
    {
      hide *;
      before.Parts();
      var length := before.end - before.start;
      if |source| != length {
        return None;
      }
      before.NoEdit(source);
      var moved := Spliced(before, source, Edit(length, 0, 0, 0, 0, 0, 0), scanBlock, 1048576, []);
      index := moved;
    }

    /** The identity edit at the row end is truthful. */
    lemma {:induction false} NoEdit(source: Bytes)
      requires Valid() && source == Row()
      ensures Truthful(Edit(|Row()|, 0, 0, 0, 0, 0, 0), [], source)
    {
      hide *;
      Parts();
      EndIsBoundary(Row());
      DecodeNone();
      ColumnsNone(ColumnAt(|Row()|), r.tab, r.w);
      var n := |Row()|;
      assert Row()[n..n] == [];
      SameEdited(Row());
      IsTruthful(Edit(n, 0, 0, 0, 0, 0, 0), [], source);
    }

    static lemma {:induction false} SameEdited(row: Bytes)
      requires Boundary(row, |row|)
      ensures Edited(row, |row|, |row|, [], row)
    {
      hide Boundary;
      assert row[..|row|] + [] + row[|row|..] == row;
    }

    lemma {:induction false} IsTruthful(edit: Edit, ins: Bytes, next: Bytes)
      requires Valid() && r.tab > 0 && edit.xRel + edit.removedBytes <= |Row()|
      requires Edited(Row(), edit.xRel, edit.xRel + edit.removedBytes, ins, next)
      requires edit.addedBytes == |ins| && edit.addedChars == |Decode(ins)|
      requires edit.removedChars == |Decode(Row()[edit.xRel..edit.xRel + edit.removedBytes])|
      requires edit.addedDisp == Columns(Decode(ins), ColumnAt(edit.xRel), r.tab, r.w) - ColumnAt(edit.xRel)
      ensures Truthful(edit, ins, next)
    {
      hide Sound;
      hide TrueGap;
      hide Columns;
      hide Decode;
      hide Boundary;
      hide ColumnAt;
      hide Edited;
    }
  }

  /** The first `n` characters, or all when there are fewer. */
  function FirstChars(text: seq<Char>, n: nat): seq<Char> {
    if n < |text| then text[..n] else text
  }
}
