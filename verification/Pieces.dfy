/**
 Pieces, sources, the break aggregate and contents (`pieces.py`).

 A document is a sequence of pieces; a piece names a byte range of a source. `Addr` gives the place of
 every byte of a piece sequence, `Doc` the bytes found there.
 */
module Pieces {
  import opened Rows

  datatype Error = ValueError | RowNotIndexed | IndexError | SourceChanged

  datatype Result<+T> = Ok(value: T) | Err(error: Error) {
    predicate IsFailure() { Err? }
    function PropagateFailure<U>(): Result<U>
      requires Err?
    {
      Err(error)
    }
    function Extract(): T
      requires Ok?
    {
      value
    }
  }

  // ----- source numbers -----------------------------------------------------------------------

  const SEGMENTS := 0x100_0000
  const MAX_GENERATION := 255

  function MakeSrc(generation: nat, segment: int): Result<nat> {
    if 0 <= segment < SEGMENTS then Ok(generation * SEGMENTS + segment) else Err(ValueError)
  }

  function GenerationOf(src: nat): nat { src / SEGMENTS }

  function SegmentOf(src: nat): nat { src % SEGMENTS }

  /** Numbering is a bijection: both parts come back, and the parts rebuild the number. */
  lemma {:induction false} SrcRoundTrip(generation: nat, segment: int, src: nat)
    ensures MakeSrc(generation, segment).Ok? <==> 0 <= segment < SEGMENTS
    ensures MakeSrc(generation, segment).Ok? ==>
              && GenerationOf(MakeSrc(generation, segment).value) == generation
              && SegmentOf(MakeSrc(generation, segment).value) == segment
    ensures MakeSrc(GenerationOf(src), SegmentOf(src)) == Ok(src)
  {
  }

  // ----- sources ------------------------------------------------------------------------------

  /**
   One source as the pieces see it: its bytes, and a row oracle that may refuse to answer.
   `mute` holds the offsets whose row it cannot name (`RowNotIndexed`), `unplaced` the rows whose start
   it cannot give. An add segment answers everything; the original depends on its line index.
   */
  datatype Source = Source(data: Bytes, mute: set<nat>, unplaced: set<nat>) {

    function RowOf(o: nat): Result<nat>
      requires o <= |data|
    {
      if o in mute then Err(RowNotIndexed) else Ok(Count(data, o))
    }

    function RowStartOf(r: nat): Option<nat>
    {
      if r in unplaced || r > Breaks(data) then None else Some(RowStart(data, r))
    }

    function BreaksBetween(a: nat, b: nat): Result<int>
      requires a <= |data| && b <= |data|
    {
      var high :- RowOf(b);
      var low :- RowOf(a);
      Ok(high - low)
    }

    function Read(a: nat, b: nat): Bytes {
      if a <= b <= |data| then data[a..b] else if a <= |data| < b then data[a..] else []
    }
  }

  type Sources = map<nat, Source>

  /** Every source keeps the bytes it had and may only gain bytes behind them. */
  ghost predicate Grows(old_: Sources, new_: Sources) {
    forall k :: k in old_ ==> k in new_ && old_[k].data <= new_[k].data
  }

  // ----- aggregates ---------------------------------------------------------------------------

  datatype Aggregate = Aggregate(length: int, breaks: int, firstIsLf: bool, lastIsCr: bool)

  const EMPTY := Aggregate(0, 0, false, false)

  function Combine(left: Aggregate, right: Aggregate): Aggregate {
    if left.length == 0 then right
    else if right.length == 0 then left
    else Aggregate(left.length + right.length,
                   left.breaks + right.breaks - (if left.lastIsCr && right.firstIsLf then 1 else 0),
                   left.firstIsLf, right.lastIsCr)
  }

  lemma {:induction false} CombineAssociative(a: Aggregate, b: Aggregate, c: Aggregate)
    requires a.length >= 0 && b.length >= 0 && c.length >= 0
    ensures Combine(Combine(a, b), c) == Combine(a, Combine(b, c))
  {
  }

  function AggOf(s: Bytes): Aggregate {
    if s == [] then EMPTY else Aggregate(|s|, Breaks(s), s[0] == LF, s[|s| - 1] == CR)
  }

  /** `Combine` is concatenation of the bytes, seen through the aggregate. */
  lemma {:induction false} AggOfConcat(a: Bytes, b: Bytes)
    ensures AggOf(a + b) == Combine(AggOf(a), AggOf(b))
  {
    BreaksConcat(a, b);
    if a == [] {
      assert a + b == b;
    } else if b == [] {
      assert a + b == a;
    }
  }

  // ----- pieces -------------------------------------------------------------------------------

  datatype Piece = Piece(src: nat, a: nat, b: nat, breaks: int, row0: int, firstIsLf: bool, lastIsCr: bool) {
    function Length(): int { b - a }
    function Agg(): Aggregate { Aggregate(b - a, breaks, firstIsLf, lastIsCr) }
  }

  predicate Readable(p: Piece, S: Sources) {
    p.src in S && p.a < p.b <= |S[p.src].data|
  }

  function PieceBytes(p: Piece, S: Sources): Bytes
    requires Readable(p, S)
  {
    S[p.src].data[p.a..p.b]
  }

  /** The facts stored in a piece are those of its bytes read alone, and of the source row it starts in. */
  ghost predicate TruePiece(p: Piece, S: Sources) {
    && Readable(p, S)
    && p.Agg() == AggOf(PieceBytes(p, S))
    && p.row0 == Count(S[p.src].data, p.a)
  }

  ghost predicate AllTrue(ps: seq<Piece>, S: Sources) {
    forall i :: 0 <= i < |ps| ==> TruePiece(ps[i], S)
  }

  /** A true piece stays true when sources grow, also when an LF is appended behind its final CR. */
  lemma {:induction false} TrueSurvivesGrowth(p: Piece, S: Sources, T: Sources)
    requires TruePiece(p, S) && Grows(S, T)
    ensures TruePiece(p, T) && PieceBytes(p, T) == PieceBytes(p, S)
  {
    var s, t := S[p.src].data, T[p.src].data;
    PrefixSplit(s, t);
    CountPrefix(s, t[|s|..], p.a);
    SliceOfPrefix(s, t, p.a, p.b);
  }

  lemma {:induction false} PrefixSplit(s: Bytes, t: Bytes)
    requires s <= t
    ensures |s| <= |t| && t == s + t[|s|..]
  {
  }

  lemma {:induction false} SliceOfPrefix(s: Bytes, t: Bytes, a: nat, b: nat)
    requires s <= t && a <= b <= |s|
    ensures |s| <= |t| && t[a..b] == s[a..b]
  {
  }

  /** Build the piece `[a, b)` of `source`, deriving every field from the source. */
  function MakePiece(source: Source, src: nat, a: int, b: int): Result<Piece>
    requires b <= |source.data|
  {
    if !(0 <= a < b) then Err(ValueError) else
    var breaks :- source.BreaksBetween(a, b);
    var tail := source.Read(b - 1, b + 1);
    var lastIsCr := tail[..1] == [CR];
    var more := if lastIsCr && tail[1..] == [LF] then 1 else 0;
    var row :- source.RowOf(a);
    Ok(Piece(src, a, b, breaks + more, row, source.Read(a, a + 1) == [LF], lastIsCr))
  }

  /** `MakePiece` derives true facts, even for a range that starts or ends inside a CRLF of the source. */
  lemma {:induction false} MakePieceTrue(S: Sources, src: nat, a: int, b: int)
    requires src in S && b <= |S[src].data|
    ensures MakePiece(S[src], src, a, b).Ok? <==> 0 <= a < b && a !in S[src].mute && b !in S[src].mute
    ensures MakePiece(S[src], src, a, b).Ok? ==>
              var p := MakePiece(S[src], src, a, b).value;
              TruePiece(p, S) && p.src == src && p.a == a && p.b == b
  {
    hide Count;
    hide AggOf;
    if 0 <= a < b && a !in S[src].mute && b !in S[src].mute {
      SliceAgg(S[src].data, a, b);
      EdgeBytes(S[src], a, b);
    }
  }

  /** The bytes `make_piece` looks at: the first of the range, the last, and the one behind it. */
  lemma {:induction false} EdgeBytes(source: Source, a: nat, b: nat)
    requires a < b <= |source.data|
    ensures source.Read(a, a + 1) == [source.data[a]] && |source.Read(b - 1, b + 1)| > 0
    ensures source.Read(b - 1, b + 1)[..1] == [source.data[b - 1]]
    ensures source.Read(b - 1, b + 1)[1..] == if b < |source.data| then [source.data[b]] else []
  {
  }

  /** The single piece that replaces two contiguous pieces of one source. */
  function MergePieces(left: Piece, right: Piece): Option<Piece> {
    if left.src != right.src || left.b != right.a then None
    else Some(Piece(left.src, left.a, right.b,
                    left.breaks + right.breaks - (if left.lastIsCr && right.firstIsLf then 1 else 0),
                    left.row0, left.firstIsLf, right.lastIsCr))
  }

  lemma {:induction false} MergeTrue(left: Piece, right: Piece, S: Sources)
    requires TruePiece(left, S) && TruePiece(right, S) && MergePieces(left, right).Some?
    ensures TruePiece(MergePieces(left, right).value, S)
  {
    hide Count;
    hide AggOf;
    var d := S[left.src].data;
    SliceAgg(d, left.a, left.b);
    SliceAgg(d, right.a, right.b);
    SliceAgg(d, left.a, right.b);
  }

  /** The two halves `split_at` makes of a piece at source offset `x`. */
  function SplitPiece(p: Piece, source: Source, x: nat): Result<(Piece, Piece)>
    requires p.a < x < p.b <= |source.data|
  {
    var around := source.Read(x - 1, x + 1);
    var left :- source.BreaksBetween(p.a, x);
    Ok((Piece(p.src, p.a, x, left, p.row0, p.firstIsLf, around[..1] == [CR]),
        Piece(p.src, x, p.b, p.breaks - left, p.row0 + left, around[1..] == [LF], p.lastIsCr)))
  }

  /** Cutting a true piece where no CRLF is cut gives two true pieces that merge back. */
  lemma {:induction false} SplitTrue(p: Piece, S: Sources, x: nat)
    requires TruePiece(p, S) && p.a < x < p.b && !InsideCrlf(S[p.src].data, x)
    requires SplitPiece(p, S[p.src], x).Ok?
    ensures var (l, r) := SplitPiece(p, S[p.src], x).value;
            && TruePiece(l, S) && TruePiece(r, S)
            && MergePieces(l, r) == Some(p)
  {
    hide Count;
    hide AggOf;
    var d := S[p.src].data;
    SplitFlags(d, x);
    SliceAgg(d, p.a, x);
    SliceAgg(d, x, p.b);
    SliceAgg(d, p.a, p.b);
  }

  lemma {:induction false} SplitFlags(d: Bytes, x: nat)
    requires 0 < x < |d|
    ensures d[x - 1..x + 1][..1] == [d[x - 1]] && d[x - 1..x + 1][1..] == [d[x]]
  {
  }

  /** The aggregate of a slice in terms of the counts of the whole. */
  lemma {:induction false} SliceAgg(d: Bytes, a: nat, b: nat)
    requires a < b <= |d|
    ensures AggOf(d[a..b]) == Aggregate(b - a, Count(d, b) - Count(d, a) + (if InsideCrlf(d, b) then 1 else 0),
                                        d[a] == LF, d[b - 1] == CR)
  {
    CountSlice(d, a, b, b - a);
  }

  // ----- addresses and bytes ------------------------------------------------------------------

  /** The place of one byte: offset `at` of source `src`. */
  datatype Loc = Loc(src: nat, at: nat)

  function Addr1(p: Piece): seq<Loc> {
    if p.a < p.b then seq(p.b - p.a, i requires 0 <= i => Loc(p.src, p.a + i)) else []
  }

  function Addr(ps: seq<Piece>): seq<Loc> {
    if ps == [] then [] else Addr1(ps[0]) + Addr(ps[1..])
  }

  /** A merged piece holds the bytes of both, a split piece those of its halves. */
  lemma {:induction false} MergeAddr(left: Piece, right: Piece)
    requires left.a < left.b && right.a < right.b && MergePieces(left, right).Some?
    ensures Addr1(MergePieces(left, right).value) == Addr1(left) + Addr1(right)
  {
  }

  function ByteAt(l: Loc, S: Sources): Byte {
    if l.src in S && l.at < |S[l.src].data| then S[l.src].data[l.at] else 0
  }

  function BytesAt(ls: seq<Loc>, S: Sources): Bytes {
    seq(|ls|, i requires 0 <= i < |ls| => ByteAt(ls[i], S))
  }

  /** The bytes of a piece sequence: the document. */
  function Doc(ps: seq<Piece>, S: Sources): Bytes {
    BytesAt(Addr(ps), S)
  }

  lemma {:induction false} AddrConcat(p: seq<Piece>, q: seq<Piece>)
    ensures Addr(p + q) == Addr(p) + Addr(q)
  {
    hide Addr1;
    if p == [] {
      assert p + q == q;
      assert [] + Addr(q) == Addr(q);
    } else {
      AddrConcat(p[1..], q);
      assert (p + q)[0] == p[0] && (p + q)[1..] == p[1..] + q;
      JoinAssoc(Addr1(p[0]), Addr(p[1..]), Addr(q));
    }
  }

  lemma {:induction false} JoinAssoc<T>(a: seq<T>, b: seq<T>, c: seq<T>)
    ensures a + b + c == a + (b + c)
  {
  }

  lemma {:induction false} Addr1Is(p: Piece)
    ensures Addr([p]) == Addr1(p)
  {
    assert [p][1..] == [];
  }

  lemma {:induction false} DocConcat(p: seq<Piece>, q: seq<Piece>, S: Sources)
    ensures Doc(p + q, S) == Doc(p, S) + Doc(q, S)
  {
    AddrConcat(p, q);
  }

  lemma {:induction false} PieceDoc(p: Piece, S: Sources)
    requires Readable(p, S)
    ensures Doc([p], S) == PieceBytes(p, S)
  {
    Addr1Is(p);
  }

  lemma {:induction false} DocSurvivesGrowth(ps: seq<Piece>, S: Sources, T: Sources)
    requires AllTrue(ps, S) && Grows(S, T)
    ensures AllTrue(ps, T) && Doc(ps, T) == Doc(ps, S)
  {
    hide *;
    EmptyDoc(S);
    EmptyDoc(T);
    if ps != [] {
      FirstTrue(ps, S);
      TrueSurvivesGrowth(ps[0], S, T);
      DocSurvivesGrowth(ps[1..], S, T);
      assert ps == [ps[0]] + ps[1..];
      DocConcat([ps[0]], ps[1..], S);
      DocConcat([ps[0]], ps[1..], T);
      TrueReads(ps[0], S);
      TrueReads(ps[0], T);
      PieceDoc(ps[0], S);
      PieceDoc(ps[0], T);
      AllTrueCons(ps, T);
    }
  }

  lemma {:induction false} EmptyDoc(S: Sources)
    ensures Doc([], S) == [] && AllTrue([], S)
  {
  }

  lemma {:induction false} FirstTrue(ps: seq<Piece>, S: Sources)
    requires ps != [] && AllTrue(ps, S)
    ensures TruePiece(ps[0], S) && AllTrue(ps[1..], S)
  {
    hide TruePiece;
  }

  lemma {:induction false} TrueReads(p: Piece, S: Sources)
    requires TruePiece(p, S)
    ensures Readable(p, S)
  {
  }

  lemma {:induction false} AllTrueCons(ps: seq<Piece>, S: Sources)
    requires ps != [] && TruePiece(ps[0], S) && AllTrue(ps[1..], S)
    ensures AllTrue(ps, S)
  {
    hide TruePiece;
    forall i | 0 <= i < |ps|
      ensures TruePiece(ps[i], S)
    {
      if i > 0 {
        assert TruePiece(ps[1..][i - 1], S);
      }
    }
  }

  /** A byte range of a source, as a layout lists it. */
  datatype Run = Run(src: nat, a: nat, b: nat)

  function RunPlaces(r: Run): seq<Loc> {
    if r.a < r.b then seq(r.b - r.a, i requires 0 <= i => Loc(r.src, r.a + i)) else []
  }

  function RunsPlaces(runs: seq<Run>): seq<Loc> {
    if runs == [] then [] else RunsPlaces(runs[..|runs| - 1]) + RunPlaces(runs[|runs| - 1])
  }

  lemma {:induction false} RunsSnoc(runs: seq<Run>, r: Run)
    ensures RunsPlaces(runs + [r]) == RunsPlaces(runs) + RunPlaces(r) && RunsPlaces([]) == []
  {
    assert (runs + [r])[..|runs|] == runs;
  }

  /** Every run is a non-empty range of a source. */
  ghost predicate GoodRuns(runs: seq<Run>, S: Sources) {
    forall i :: 0 <= i < |runs| ==> runs[i].src in S && runs[i].a < runs[i].b <= |S[runs[i].src].data|
  }

  lemma {:induction false} RunBytes(p: Run, S: Sources)
    requires p.src in S && p.a < p.b <= |S[p.src].data|
    ensures |RunPlaces(p)| == p.b - p.a && BytesAt(RunPlaces(p), S) == S[p.src].data[p.a..p.b]
  {
  }

  lemma {:induction false} BytesJoin(a: seq<Loc>, b: seq<Loc>, S: Sources)
    ensures BytesAt(a + b, S) == BytesAt(a, S) + BytesAt(b, S) && |BytesAt(a, S)| == |a| && |BytesAt(b, S)| == |b|
  {
    hide ByteAt;
  }

  lemma {:induction false} Middle(a: Bytes, b: Bytes, c: Bytes)
    ensures (a + b + c)[|a|..|a| + |b|] == b
  {
  }

  lemma {:induction false} SplitRuns(parts: seq<Run>, i: nat)
    requires i <= |parts|
    ensures RunsPlaces(parts) == RunsPlaces(parts[..i]) + RunsPlaces(parts[i..])
    decreases |parts| - i
  {
    hide RunPlaces;
    if i < |parts| {
      SplitRuns(parts[..|parts| - 1], i);
      assert parts[..|parts| - 1][..i] == parts[..i];
      assert parts[..|parts| - 1][i..] == parts[i..][..|parts| - 1 - i];
      assert parts[i..][|parts| - 1 - i] == parts[|parts| - 1];
    } else {
      assert parts[..i] == parts && parts[i..] == [];
    }
  }

  lemma {:induction false} NoRuns()
    ensures RunsPlaces([]) == [] && forall S :: BytesAt([], S) == []
  {
  }

  lemma {:induction false} GoodRunAt(parts: seq<Run>, i: nat, S: Sources)
    requires GoodRuns(parts, S) && i < |parts|
    ensures parts[i].src in S && parts[i].a < parts[i].b <= |S[parts[i].src].data|
  {
  }

  /** Where one range lies among the bytes of all. */
  lemma {:induction false} RunInRuns(parts: seq<Run>, i: nat, S: Sources)
    requires GoodRuns(parts, S) && i < |parts|
    ensures var at, n := |RunsPlaces(parts[..i])|, parts[i].b - parts[i].a;
            && parts[i].src in S && n > 0 && parts[i].b <= |S[parts[i].src].data|
            && |RunsPlaces(parts[..i + 1])| == at + n <= |RunsPlaces(parts)| == |BytesAt(RunsPlaces(parts), S)|
            && BytesAt(RunsPlaces(parts), S)[at..at + n] == S[parts[i].src].data[parts[i].a..parts[i].b]
  {
    hide *;
    GoodRunAt(parts, i, S);
    RunBytes(parts[i], S);
    var front := RunsPlaces(parts[..i]);
    assert parts[..i + 1] == parts[..i] + [parts[i]];
    RunsSnoc(parts[..i], parts[i]);
    SplitRuns(parts, i + 1);
    var places, back := RunsPlaces(parts[..i + 1]), RunsPlaces(parts[i + 1..]);
    BytesJoin(places, back, S);
    BytesJoin(front, RunPlaces(parts[i]), S);
    Middle(BytesAt(front, S), BytesAt(RunPlaces(parts[i]), S), BytesAt(back, S));
  }

  // ----- runs of pieces -----------------------------------------------------------------------

  /** The fold every node and every content computes. */
  function AggRows(ps: seq<Piece>): Aggregate {
    if ps == [] then EMPTY else Combine(AggRows(ps[..|ps| - 1]), ps[|ps| - 1].Agg())
  }

  ghost predicate NonEmpty(ps: seq<Piece>) {
    forall i :: 0 <= i < |ps| ==> ps[i].a < ps[i].b
  }

  lemma {:induction false} AggRowsLength(ps: seq<Piece>)
    requires NonEmpty(ps)
    ensures AggRows(ps).length == |Addr(ps)|
    ensures AggRows(ps).length >= 0
  {
    if ps != [] {
      var n := |ps| - 1;
      AggRowsLength(ps[..n]);
      assert ps == ps[..n] + [ps[n]];
      AddrConcat(ps[..n], [ps[n]]);
      Addr1Is(ps[n]);
    }
  }

  lemma {:induction false} AggRowsConcat(p: seq<Piece>, q: seq<Piece>)
    requires NonEmpty(p) && NonEmpty(q)
    ensures AggRows(p + q) == Combine(AggRows(p), AggRows(q))
  {
    if q == [] {
      assert p + q == p;
      AggRowsLength(p);
    } else {
      var n := |q| - 1;
      AggRowsConcat(p, q[..n]);
      assert (p + q)[..|p + q| - 1] == p + q[..n];
      AggRowsLength(p);
      AggRowsLength(q[..n]);
      CombineAssociative(AggRows(p), AggRows(q[..n]), q[n].Agg());
    }
  }

  /** The fold of true pieces is the aggregate of the bytes they denote. */
  lemma {:induction false} AggRowsTrue(ps: seq<Piece>, S: Sources)
    requires AllTrue(ps, S)
    ensures AggRows(ps) == AggOf(Doc(ps, S))
  {
    if ps != [] {
      var n := |ps| - 1;
      AggRowsTrue(ps[..n], S);
      AggRowsLast(ps, S);
    }
  }

  lemma {:induction false} AggRowsLast(ps: seq<Piece>, S: Sources)
    requires ps != [] && AllTrue(ps, S)
    requires AggRows(ps[..|ps| - 1]) == AggOf(Doc(ps[..|ps| - 1], S))
    ensures AggRows(ps) == AggOf(Doc(ps, S))
  {
    hide *;
    var n := |ps| - 1;
    var p := ps[n];
    LastPiece(ps, S);
    PieceDoc(p, S);
    DocConcat(ps[..n], [p], S);
    AggOfConcat(Doc(ps[..n], S), PieceBytes(p, S));
  }

  lemma {:induction false} LastPiece(ps: seq<Piece>, S: Sources)
    requires ps != [] && AllTrue(ps, S)
    ensures var n := |ps| - 1;
            && ps == ps[..n] + [ps[n]] && Readable(ps[n], S) && ps[n].Agg() == AggOf(PieceBytes(ps[n], S))
            && AggRows(ps) == Combine(AggRows(ps[..n]), ps[n].Agg())
  {
    hide AggOf;
    hide Count;
    hide Combine;
    assert TruePiece(ps[|ps| - 1], S);
  }

  // ----- canonical piece sequences --------------------------------------------------------------

  /** No two adjacent pieces are contiguous in one source. */
  ghost predicate Merged(ps: seq<Piece>) {
    forall i :: 0 < i < |ps| ==> MergePieces(ps[i - 1], ps[i]).None?
  }

  /**
   Merged sequences of true pieces are canonical: the places of the bytes determine the pieces.
   Undo, the invisibility of `content` and the identity fast path all follow from it.
   */
  lemma {:induction false} Canonical(p: seq<Piece>, q: seq<Piece>, S: Sources)
    requires AllTrue(p, S) && AllTrue(q, S) && Merged(p) && Merged(q)
    requires Addr(p) == Addr(q)
    ensures p == q
  {
    if p == [] || q == [] {
      assert |Addr(p)| == |Addr(q)|;
    } else {
      FirstPieceSame(p, q, S);
      var n := |Addr1(p[0])|;
      assert Addr(p[1..]) == Addr(p)[n..] == Addr(q)[n..] == Addr(q[1..]);
      MergedTail(p);
      MergedTail(q);
      Canonical(p[1..], q[1..], S);
    }
  }

  lemma {:induction false} MergedTail(p: seq<Piece>)
    requires |p| > 0 && Merged(p)
    ensures Merged(p[1..])
  {
    forall i | 0 < i < |p[1..]|
      ensures MergePieces(p[1..][i - 1], p[1..][i]).None?
    {
      assert MergePieces(p[i], p[i + 1]).None?;
    }
  }

  lemma {:induction false} FirstPieceSame(p: seq<Piece>, q: seq<Piece>, S: Sources)
    requires |p| > 0 && |q| > 0 && AllTrue(p, S) && AllTrue(q, S) && Merged(p) && Merged(q)
    requires Addr(p) == Addr(q)
    ensures p[0] == q[0]
  {
    hide Count;
    hide AggOf;
    hide Addr;
    hide MergePieces;
    FirstPieceStops(p);
    FirstPieceStops(q);
    assert Addr(p)[0] == Loc(p[0].src, p[0].a) && Addr(q)[0] == Loc(q[0].src, q[0].a);
  }

  /** The addresses tell where the first piece of a merged sequence ends. */
  lemma {:induction false} FirstPieceStops(p: seq<Piece>)
    requires |p| > 0 && NonEmpty(p) && Merged(p)
    ensures var n := p[0].b - p[0].a;
            && n <= |Addr(p)|
            && (forall i :: 0 <= i < n ==> Addr(p)[i] == Loc(p[0].src, p[0].a + i))
            && (n < |Addr(p)| ==> Addr(p)[n] != Loc(p[0].src, p[0].b))
  {
    var n := p[0].b - p[0].a;
    if |p| > 1 {
      assert Addr(p[1..])[0] == Loc(p[1].src, p[1].a);
      assert MergePieces(p[0], p[1]).None?;
    } else {
      assert p[1..] == [];
    }
  }

  // ----- contents ------------------------------------------------------------------------------

  datatype Content = Content(pieces: seq<Piece>, length: int, breaks: int, tailChars: nat,
                             firstIsLf: bool, lastIsCr: bool)
  {
    function Agg(): Aggregate { Aggregate(length, breaks, firstIsLf, lastIsCr) }
  }

  function FromPieces(pieces: seq<Piece>, tailChars: nat): Content {
    var agg := AggRows(pieces);
    Content(pieces, agg.length, agg.breaks, tailChars, agg.firstIsLf, agg.lastIsCr)
  }

  /** A content whose pieces are true and whose summary is that of its bytes. */
  ghost predicate TrueContent(c: Content, S: Sources) {
    AllTrue(c.pieces, S) && c.Agg() == AggOf(Doc(c.pieces, S))
  }

  lemma {:induction false} FromPiecesTrue(pieces: seq<Piece>, tailChars: nat, S: Sources)
    requires AllTrue(pieces, S)
    ensures TrueContent(FromPieces(pieces, tailChars), S)
  {
    AggRowsTrue(pieces, S);
  }
}
