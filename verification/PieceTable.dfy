/**
 The editable document (`piece_table.py`): a piece tree and, while the original is still being scanned, the
 open tail of the original behind it. Whatever moves between the two is invisible in the document.
 */
module PieceTable {
  import opened Rows
  import opened Pieces
  import opened OriginalSource
  import opened AddStore
  import opened SourceMap
  import opened Navigation
  import opened PieceSeq
  import opened PieceTree
  import opened TailText
  import opened OpenTail
  import Utf8

  /** The open tail `[a, L)` of the original; `row0` is the original row that contains byte `a`. */
  datatype Tail = Tail(a: nat, row0: nat, firstIsLf: bool)

  /** Facts of one call: the index, the tail, the tree aggregate and the tail breaks that are final. */
  datatype State = State(snap: Index, tail: Option<Tail>, treeLength: int, treeBreaks: int, treeLastIsCr: bool, tailKnown: int) {
    /** The tree ends in CR and the tail starts with LF: they are one CRLF. */
    predicate Junction() { tail.Some? && treeLastIsCr && tail.value.firstIsLf }

    /** Number of known breaks of the document. */
    function KnownBreaks(): int { treeBreaks + tailKnown - if Junction() then 1 else 0 }

    predicate Complete() { tail.None? }

    function Resolvable(): int { if Complete() then KnownBreaks() + 1 else KnownBreaks() }
  }

  /** What `snapshot` reports. */
  datatype Snapshot = Snapshot(count: int, complete: bool, scanned: int)

  function TailBytes(tail: Option<Tail>, original: Bytes): Bytes {
    if tail.Some? && tail.value.a <= |original| then original[tail.value.a..] else []
  }

  function TailPlaces(tail: Option<Tail>, length: nat): seq<Loc> {
    if tail.Some? && tail.value.a <= length then seq(length - tail.value.a, i requires 0 <= i => Loc(0, tail.value.a + i)) else []
  }

  /** The facts kept about the tail are those of the original; without a tail everything is in the tree. */
  ghost predicate TrueTail(tail: Option<Tail>, ix: Index) {
    && ix.Truthful()
    && (tail.None? ==> ix.complete || ix.data == [])
    && (tail.Some? ==>
          && tail.value.a < |ix.data| && tail.value.row0 == Count(ix.data, tail.value.a) && tail.value.row0 < ix.count
          && tail.value.firstIsLf == (ix.data[tail.value.a] == LF))
  }

  /** Places in the original lie in its scanned part. */
  ghost predicate InScanned(places: seq<Loc>, scanned: nat) {
    forall i :: 0 <= i < |places| && places[i].src == 0 ==> places[i].at < scanned
  }

  class PieceTable {
    const fanout: nat
    const original: Bytes
    /** Read when the table was made, because the source may be closed when the tail is folded. */
    const lastIsCr: bool
    var index: Index
    var store: StoreView
    var legacy: seq<Legacy>
    var tree: PieceTree
    var tail: Option<Tail>
    ghost var Repr: set<object>

    ghost predicate Valid()
      reads this, Repr
    {
      && this in Repr && tree in Repr && tree.Repr <= Repr && this !in tree.Repr
      && tree.Valid() && tree.fanout == fanout
      && Grounded()
      && AllTrue(tree.Pieces(), CurrentSources()) && InScanned(Addr(tree.Pieces()), index.scanned)
    }

    ghost predicate Grounded()
      reads this
    {
      && index.Truthful() && index.data == original && store.Valid() && |legacy| <= MAX_GENERATION
      && lastIsCr == (|original| > 0 && original[|original| - 1] == CR)
      && TrueTail(tail, index)
    }

    /** The sources that piece numbers stand for now. */
    function CurrentSources(): Sources
      requires index.Truthful()
      reads this
    {
      SourcesOf(AsSource(index), store.segments, legacy)
    }

    ghost function TreeDoc(): Bytes
      requires Valid()
      reads this, Repr
    {
      Doc(tree.Pieces(), CurrentSources())
    }

    /** The document. */
    ghost function Text(): Bytes
      requires Valid()
      reads this, Repr
    {
      TreeDoc() + TailBytes(tail, original)
    }

    /** Where every byte of the document is found. */
    ghost function Places(): seq<Loc>
      requires Valid()
      reads this, Repr
    {
      Addr(tree.Pieces()) + TailPlaces(tail, |original|)
    }

    /** No two adjacent pieces of the tree are contiguous. */
    ghost predicate Tidy()
      requires Valid()
      reads this, Repr
    {
      Merged(tree.Pieces())
    }

    constructor (index: Index, store: StoreView, fanout: nat)
      requires fanout >= 4 && index.Truthful() && store.Valid()
      ensures Valid() && fresh(Repr) && Text() == index.data && Tidy() && legacy == []
      ensures this.index == index && this.original == index.data && this.store == store && this.fanout == fanout
      ensures tree.Pieces() == [] && TailStart(tail) == if index.data == [] then None else Some(0)
    {
      hide *;
      this.index, this.original, this.store, this.fanout := index, index.data, store, fanout;
      lastIsCr := |index.data| > 0 && index.data[|index.data| - 1] == CR;
      legacy := [];
      var empty := new PieceTree(fanout);
      tree := empty;
      tail := if |index.data| > 0 then Some(Tail(0, 0, index.data[0] == LF)) else None;
      new;
      Repr := {this} + tree.Repr;
      FirstTail(index, CurrentSources());
      IsGrounded();
      Fold();
      Parts();
    }

    static lemma {:induction false} FirstTail(ix: Index, S: Sources)
      requires ix.Truthful()
      ensures var tail := if |ix.data| > 0 then Some(Tail(0, 0, ix.data[0] == LF)) else None;
              && TrueTail(tail, ix) && Doc([], S) + TailBytes(tail, ix.data) == ix.data
      ensures AllTrue([], S) && InScanned(Addr([]), ix.scanned) && Merged([]) && 0 <= MAX_GENERATION
      ensures TailStart(if |ix.data| > 0 then Some(Tail(0, 0, ix.data[0] == LF)) else None) == if ix.data == [] then None else Some(0)
    {
      if |ix.data| > 0 {
        assert ix.data[0..] == ix.data;
      }
    }

    lemma {:induction false} Parts()
      requires Valid()
      ensures this in Repr && tree in Repr && tree.Repr <= Repr && this !in tree.Repr && tree.Valid() && tree.fanout == fanout
      ensures Grounded() && index.Truthful() && index.data == original && store.Valid() && TrueTail(tail, index)
      ensures lastIsCr == (|original| > 0 && original[|original| - 1] == CR) && |legacy| <= MAX_GENERATION
      ensures AllTrue(tree.Pieces(), CurrentSources()) && InScanned(Addr(tree.Pieces()), index.scanned)
      ensures 0 in CurrentSources() && CurrentSources()[0] == AsSource(index) && AsSource(index).data == original
      ensures TreeDoc() == Doc(tree.Pieces(), CurrentSources()) && |TreeDoc()| == |Addr(tree.Pieces())|
      ensures Text() == TreeDoc() + TailBytes(tail, original)
      ensures Places() == Addr(tree.Pieces()) + TailPlaces(tail, |original|)
      ensures Tidy() <==> Merged(tree.Pieces())
    {
      hide AllTrue;
      hide Doc;
      hide Addr;
      hide Index.Truthful;
      hide TrueTail;
      hide SourcesOf;
      hide Merged;
      hide InScanned;
      OriginalSource0(AsSource(index), store.segments, legacy);
      DocLength(tree.Pieces(), CurrentSources());
    }

    lemma {:induction false} SourcesNow()
      requires index.Truthful()
      ensures CurrentSources() == SourcesOf(AsSource(index), store.segments, legacy)
      ensures 0 in CurrentSources() && CurrentSources()[0] == AsSource(index) && AsSource(index).data == index.data
    {
      hide SourcesOf;
      OriginalSource0(AsSource(index), store.segments, legacy);
    }

    lemma {:induction false} Fold()
      requires this in Repr && tree in Repr && tree.Repr <= Repr && this !in tree.Repr && tree.Valid() && tree.fanout == fanout
      requires Grounded() && index.Truthful() && AllTrue(tree.Pieces(), CurrentSources()) && InScanned(Addr(tree.Pieces()), index.scanned)
      ensures Valid()
    {
      hide AllTrue;
      hide InScanned;
      hide Grounded;
      hide SourcesOf;
    }

    lemma {:induction false} IsGrounded()
      requires index.Truthful() && index.data == original && store.Valid() && TrueTail(tail, index) && |legacy| <= MAX_GENERATION
      requires lastIsCr == (|original| > 0 && original[|original| - 1] == CR)
      ensures Grounded()
    {
      hide TrueTail;
      hide Index.Truthful;
    }

    /** The document is what is found at the places. */
    lemma {:induction false} TextAtPlaces()
      requires Valid()
      ensures Text() == BytesAt(Places(), CurrentSources()) && |Text()| == |Places()|
    {
      hide *;
      Parts();
      TailAtPlaces(tail, original, CurrentSources());
      BytesAtJoin(Addr(tree.Pieces()), TailPlaces(tail, |original|), CurrentSources());
      DocIs(tree.Pieces(), CurrentSources());
    }

    static lemma {:induction false} DocIs(ps: seq<Piece>, S: Sources)
      ensures Doc(ps, S) == BytesAt(Addr(ps), S)
    {
    }

    static lemma {:induction false} BytesAtJoin(a: seq<Loc>, b: seq<Loc>, S: Sources)
      ensures BytesAt(a + b, S) == BytesAt(a, S) + BytesAt(b, S) && |BytesAt(a + b, S)| == |a + b|
    {
    }

    static lemma {:induction false} TailAtPlaces(tail: Option<Tail>, original: Bytes, S: Sources)
      requires 0 in S && S[0].data == original
      ensures BytesAt(TailPlaces(tail, |original|), S) == TailBytes(tail, original)
    {
    }

    // ----- the environment ---------------------------------------------------------------------------

    /** The scan of the original goes on between two calls. */
    method ScanAdvances(next: Index)
      requires Valid() && Advances(index, next) && next.Truthful()
      modifies this`index
      ensures Valid() && index == next
      ensures Text() == old(Text()) && Places() == old(Places()) && (Tidy() <==> old(Tidy()))
      ensures tree.Pieces() == old(tree.Pieces())
    {
      hide *;
      Parts();
      SourcesNow();
      AdvanceFacts(index, next, store.segments, legacy, tail, tree.Pieces());
      index := next;
      SourcesNow();
      IsGrounded();
      Fold();
      Parts();
    }

    static lemma {:induction false} AdvanceFacts(ix: Index, next: Index, segments: seq<Bytes>, legacy: seq<Legacy>, tail: Option<Tail>, ps: seq<Piece>)
      requires Advances(ix, next) && ix.Truthful() && next.Truthful() && TrueTail(tail, ix) && InScanned(Addr(ps), ix.scanned)
      requires AllTrue(ps, SourcesOf(AsSource(ix), segments, legacy))
      ensures next.data == ix.data && TrueTail(tail, next) && InScanned(Addr(ps), next.scanned)
      ensures var T := SourcesOf(AsSource(next), segments, legacy);
              AllTrue(ps, T) && Doc(ps, T) == Doc(ps, SourcesOf(AsSource(ix), segments, legacy))
    {
      hide AllTrue;
      hide SourcesOf;
      hide Doc;
      hide RowOf;
      hide RowStartOf;
      hide Index.Truthful;
      SourcesGrow(AsSource(ix), segments, legacy, AsSource(next), segments, legacy);
      DocSurvivesGrowth(ps, SourcesOf(AsSource(ix), segments, legacy), SourcesOf(AsSource(next), segments, legacy));
    }

    // ----- moving tail bytes into the tree ----------------------------------------------------------------

    /** What the fold and the cut of the tail share: append one true piece of the original to the tree. */
    method AppendPiece(piece: Piece)
      requires Valid() && TruePiece(piece, CurrentSources()) && piece.b <= index.scanned
      modifies Repr
      ensures Valid() && fresh(Repr - old(Repr))
      ensures index == old(index) && store == old(store) && legacy == old(legacy) && tail == old(tail)
      ensures Addr(tree.Pieces()) == Addr(old(tree.Pieces())) + Addr1(piece)
      ensures old(Tidy()) ==> Tidy()
    {
      hide *;
      Parts();
      SourcesNow();
      var S := CurrentSources();
      ghost var ps := tree.Pieces();
      tree.Facts();
      tree.RootAgg(S);
      ContentOfOne(piece, S);
      PieceTree.EndNeverRefused(ps, S);
      var done := tree.Splice(tree.root.agg.length, tree.root.agg.length, FromPieces([piece], 0), None, S);
      Repr := Repr + tree.Repr;
      ReplacedIs(ps, |Addr(ps)|, |Addr(ps)|, [piece], tree.Pieces());
      Addr1Is(piece);
      assert Addr(ps)[..|Addr(ps)|] + Addr1(piece) + Addr(ps)[|Addr(ps)|..] == Addr(ps) + Addr1(piece);
      PieceScanned(piece, index.scanned);
      ScannedJoin(Addr(ps), Addr1(piece), index.scanned);
      SourcesNow();
      IsGrounded();
      Fold();
      Parts();
    }

    static lemma {:induction false} PieceScanned(piece: Piece, scanned: nat)
      requires piece.b <= scanned
      ensures InScanned(Addr1(piece), scanned)
    {
    }

    static lemma {:induction false} ScannedJoin(a: seq<Loc>, b: seq<Loc>, scanned: nat)
      requires InScanned(a, scanned) && InScanned(b, scanned)
      ensures InScanned(a + b, scanned)
    {
    }

    static lemma {:induction false} ContentOfOne(piece: Piece, S: Sources)
      requires TruePiece(piece, S)
      ensures FromPieces([piece], 0).pieces == [piece] && AllTrue([piece], S)
    {
      hide TruePiece;
    }

    /** `_refresh`: fold the tail into the tree once the scan is complete; nobody can tell from the document. */
    method Refresh()
      requires Valid()
      modifies Repr
      ensures Valid() && fresh(Repr - old(Repr))
      ensures index == old(index) && store == old(store) && legacy == old(legacy)
      ensures tail == if index.complete then None else old(tail)
      ensures tail == old(tail) ==> tree.Pieces() == old(tree.Pieces())
      ensures Places() == old(Places()) && Text() == old(Text())
      ensures old(Tidy()) ==> Tidy()
    {
      hide *;
      Parts();
      TextAtPlaces();
      if tail.Some? && index.complete {
        var t := tail.value;
        var piece := Piece(0, t.a, |original|, index.count - 1 - t.row0, t.row0, t.firstIsLf, lastIsCr);
        SourcesNow();
        FoldedTrue(t, index, lastIsCr, CurrentSources());
        AppendPiece(piece);
        Parts();
        SourcesNow();
        FoldedPlaces(tail, piece, |original|);
        ghost var before := Addr(tree.Pieces());
        tail := None;
        assert Addr(tree.Pieces()) + [] == Addr(tree.Pieces());
        NoTail(index);
        SourcesNow();
        IsGrounded();
        Fold();
        Parts();
        TextAtPlaces();
      }
    }

    static lemma {:induction false} NoTail(ix: Index)
      requires ix.Truthful() && ix.complete
      ensures TrueTail(None, ix) && TailPlaces(None, |ix.data|) == []
    {
    }

    /** The facts of the folded piece come from the counts of the scan. */
    static lemma {:induction false} FoldedTrue(t: Tail, ix: Index, lastIsCr: bool, S: Sources)
      requires TrueTail(Some(t), ix) && ix.complete && 0 in S && S[0].data == ix.data
      requires lastIsCr == (|ix.data| > 0 && ix.data[|ix.data| - 1] == CR)
      ensures ix.scanned == |ix.data| && ix.count >= 1 && t.a < |ix.data|
      ensures TruePiece(Piece(0, t.a, |ix.data|, ix.count - 1 - t.row0, t.row0, t.firstIsLf, lastIsCr), S)
    {
      hide AggOf;
      hide Count;
      SliceAgg(ix.data, t.a, |ix.data|);
    }

    static lemma {:induction false} FoldedPlaces(tail: Option<Tail>, piece: Piece, length: nat)
      requires tail.Some? && piece.src == 0 && piece.a == tail.value.a < length == piece.b
      ensures Addr1(piece) == TailPlaces(tail, length)
    {
    }

    /** `_open`: cut `[tail.a, x)` off the tail so that `end` lies in the tree. */
    method Open(end: int) returns (r: Option<Error>)
      requires Valid() && Allowed(Text(), end, end)
      modifies Repr
      ensures Valid() && fresh(Repr - old(Repr))
      ensures index == old(index) && store == old(store) && legacy == old(legacy)
      ensures Places() == old(Places()) && Text() == old(Text())
      ensures old(Tidy()) ==> Tidy()
      ensures r.Some? <==> old(Unindexed(end))
      ensures r.Some? ==> r == Some(RowNotIndexed) && tail == old(tail)
      ensures tail == old(tail) ==> tree.Pieces() == old(tree.Pieces())
      ensures old(tail).None? ==> tail.None?
      ensures r.None? ==> end <= |Addr(tree.Pieces())| && TailStart(tail) == old(CutTo(end))
      ensures end <= |Addr(old(tree.Pieces()))| ==> tail == old(tail)
    {
      hide *;
      Parts();
      TextAtPlaces();
      SourcesNow();
      tree.Facts();
      var S := CurrentSources();
      tree.RootAgg(S);
      UnindexedIs(end);
      CutToIs(end);
      var treeLength := tree.root.agg.length;
      PieceTree.AllowedIs(Text(), end, end);
      if tail.None? || end <= treeLength {
        EndInTree(tail, |Addr(tree.Pieces())|, original, end);
        return None;
      }
      var t := tail.value;
      var x := t.a + end - treeLength;
      if x >= index.scanned {
        return Some(RowNotIndexed);
      }
      var row := RowOf(index, x);
      if row.Err? {
        return Some(RowNotIndexed);
      }
      OpenedTrue(t, index, x, row.value, S, TreeDoc(), end);
      var piece := Piece(0, t.a, x, row.value - t.row0, t.row0, t.firstIsLf, original[x - 1] == CR);
      AppendPiece(piece);
      Parts();
      SourcesNow();
      OpenedPlaces(t, piece, |original|);
      Addr1Length(piece);
      assert Addr(tree.Pieces()) + TailPlaces(Some(Tail(x, row.value, original[x] == LF)), |original|) == old(Places());
      tail := Some(Tail(x, row.value, original[x] == LF));
      SourcesNow();
      IsGrounded();
      Fold();
      Parts();
      TextAtPlaces();
      r := None;
    }

    /** Where the open tail begins. */
    static function TailStart(tail: Option<Tail>): Option<int> {
      if tail.Some? then Some(tail.value.a) else None
    }

    /** Where it begins once everything before `end` is in the tree. */
    ghost function CutTo(end: int): Option<int>
      requires Valid()
      reads this, Repr
    {
      if tail.Some? && end > |Addr(tree.Pieces())| then Some(tail.value.a + end - |Addr(tree.Pieces())|) else TailStart(tail)
    }

    lemma {:induction false} CutToIs(end: int)
      requires Valid()
      ensures CutTo(end) == if tail.Some? && end > |Addr(tree.Pieces())| then Some(tail.value.a + end - |Addr(tree.Pieces())|) else TailStart(tail)
      ensures forall t: Tail :: TailStart(Some(t)) == Some(t.a)
      ensures TailStart(None) == None
    {
      hide Addr;
      hide AllTrue;
      hide InScanned;
      hide TrueTail;
      hide Index.Truthful;
      hide SourcesOf;
    }

    /** `end` lies in the open tail where no row can be named yet. */
    ghost predicate Unindexed(end: int)
      requires Valid()
      reads this, Repr
    {
      && tail.Some? && end > |Addr(tree.Pieces())|
      && var x := tail.value.a + end - |Addr(tree.Pieces())|;
         x >= index.scanned || RowOf(index, x).Err?
    }

    lemma {:induction false} UnindexedIs(end: int)
      requires Valid()
      ensures index.Truthful()
      ensures Unindexed(end) <==>
              && tail.Some? && end > |Addr(tree.Pieces())|
              && var x := tail.value.a + end - |Addr(tree.Pieces())|;
                 x >= index.scanned || RowOf(index, x).Err?
    {
      hide Addr;
      hide RowOf;
      hide AllTrue;
      hide InScanned;
      hide TrueTail;
      hide Index.Truthful;
      hide SourcesOf;
    }

    static lemma {:induction false} EndInTree(tail: Option<Tail>, n: nat, original: Bytes, end: int)
      requires tail.None? || end <= n
      requires end <= n + |TailBytes(tail, original)|
      ensures end <= n
    {
    }

    /** The facts of the piece cut off the tail come from the oracle; the rest keeps true facts of its own. */
    static lemma {:induction false} OpenedTrue(t: Tail, ix: Index, x: int, row: nat, S: Sources, b: Bytes, end: int)
      requires TrueTail(Some(t), ix) && ix.Truthful() && 0 in S && S[0].data == ix.data
      requires x == t.a + end - |b| && end > |b| && x < ix.scanned && RowOf(ix, x) == Ok(row)
      requires !InsideCrlf(b + TailBytes(Some(t), ix.data), end)
      ensures t.a < x < |ix.data| && row >= t.row0
      ensures TruePiece(Piece(0, t.a, x, row - t.row0, t.row0, t.firstIsLf, ix.data[x - 1] == CR), S)
      ensures TrueTail(Some(Tail(x, row, ix.data[x] == LF)), ix)
    {
      hide AggOf;
      hide Count;
      ScannedInside(ix);
      AnswerIsCount(ix, x);
      CountMonotone(ix.data, t.a, x);
      SliceAgg(ix.data, t.a, x);
      InsideInText(b, ix.data, t.a, end);
      RowsBeforeScanned(ix, x);
    }

    static lemma {:induction false} ScannedInside(ix: Index)
      requires ix.Truthful()
      ensures ix.scanned <= |ix.data|
    {
      hide RowStart;
    }

    /** A scanned offset lies in a counted row. */
    static lemma {:induction false} RowsBeforeScanned(ix: Index, x: nat)
      requires ix.Truthful() && x < ix.scanned && x <= |ix.data|
      ensures Count(ix.data, x) < ix.count
    {
      CountMonotone(ix.data, x, |ix.data|);
      if !ix.complete {
        CountMonotone(ix.data, x, ix.scanned);
      }
    }

    static lemma {:induction false} OpenedPlaces(t: Tail, piece: Piece, length: nat)
      requires piece.src == 0 && piece.a == t.a < piece.b < length
      ensures forall row: nat, flag: bool :: Addr1(piece) + TailPlaces(Some(Tail(piece.b, row, flag)), length) == TailPlaces(Some(t), length)
    {
    }

    // ----- editing --------------------------------------------------------------------------------------

    /** `_check_boundary`, also across the tree/tail junction. */
    method CheckBoundary(offset: int) returns (ok: bool)
      requires Valid() && 0 <= offset <= |Text()|
      ensures ok <==> !InsideCrlf(Text(), offset)
    {
      hide *;
      Parts();
      SourcesNow();
      var S := CurrentSources();
      tree.Facts();
      tree.RootAgg(S);
      AggParts(TreeDoc());
      var treeLength := tree.root.agg.length;
      if tail.None? {
        NoTailText(tail, original, TreeDoc());
        ok := tree.CheckBoundary(offset, S);
        return;
      }
      var t := tail.value;
      TailIs(t, index);
      InsideInText(TreeDoc(), original, t.a, offset);
      if offset < treeLength {
        ok := tree.CheckBoundary(offset, S);
        return;
      }
      if offset == treeLength {
        PieceTree.InsideEnds(TreeDoc(), offset);
        BreaksInText(TreeDoc(), original, t.a);
        ok := tree.CheckBoundary(offset, S);
        ok := ok && !(tree.root.agg.lastIsCr && t.firstIsLf);
        return;
      }
      var x := t.a + offset - treeLength;
      var around := original[x - 1..if x + 1 < |original| then x + 1 else |original|];
      AroundIs(original, x);
      ok := around != [CR, LF];
    }

    static lemma {:induction false} NoTailText(tail: Option<Tail>, original: Bytes, b: Bytes)
      requires tail.None?
      ensures b + TailBytes(tail, original) == b && TailPlaces(tail, |original|) == []
    {
    }

    static lemma {:induction false} TailIs(t: Tail, ix: Index)
      requires TrueTail(Some(t), ix)
      ensures t.a < |ix.data| && t.row0 == Count(ix.data, t.a) && t.row0 < ix.count && (t.firstIsLf <==> ix.data[t.a] == LF)
      ensures TailBytes(Some(t), ix.data) == ix.data[t.a..] && |TailPlaces(Some(t), |ix.data|)| == |ix.data| - t.a
    {
      hide Count;
    }

    static lemma {:induction false} AroundIs(d: Bytes, x: nat)
      requires 0 < x <= |d|
      ensures d[x - 1..if x + 1 < |d| then x + 1 else |d|] == [CR, LF] <==> InsideCrlf(d, x)
    {
      var s := d[x - 1..if x + 1 < |d| then x + 1 else |d|];
      assert s[0] == d[x - 1];
      if x < |d| {
        assert s == [d[x - 1], d[x]];
      }
    }

    /** `_prepare`: validate the range and move the tail bytes before `end` into the tree. */
    method Prepare(start: int, end: int) returns (r: Option<Error>)
      requires Valid()
      modifies Repr
      ensures Valid() && fresh(Repr - old(Repr))
      ensures index == old(index) && store == old(store) && legacy == old(legacy)
      ensures Places() == old(Places()) && Text() == old(Text())
      ensures old(Tidy()) ==> Tidy()
      ensures r == Some(ValueError) <==> !Allowed(old(Text()), start, end)
      ensures r.Some? && r != Some(ValueError) ==> r == Some(RowNotIndexed)
      ensures r == Some(RowNotIndexed) <==> Allowed(old(Text()), start, end) && old(Unindexed(end))
      ensures r.Some? ==> tail == old(tail)
      ensures tail == old(tail) ==> tree.Pieces() == old(tree.Pieces())
      ensures old(tail).None? ==> tail.None?
      ensures r.None? ==> end <= |Addr(tree.Pieces())| && Allowed(TreeDoc(), start, end) && TailStart(tail) == old(CutTo(end))
      ensures end <= |Addr(old(tree.Pieces()))| ==> tail == old(tail)
    {
      hide *;
      Parts();
      TextAtPlaces();
      var length := Length();
      PieceTree.AllowedIs(Text(), start, end);
      if !(0 <= start <= end <= length) {
        return Some(ValueError);
      }
      var startOk := CheckBoundary(start);
      if !startOk {
        return Some(ValueError);
      }
      var endOk := CheckBoundary(end);
      if !endOk {
        return Some(ValueError);
      }
      PieceTree.AllowedIs(Text(), end, end);
      ghost var text := Text();
      r := Open(end);
      Parts();
      AllowedInTree(TreeDoc(), TailBytes(tail, original), start, end);
    }

    /** `end` lies in the tree, and there is no tail to fold. */
    ghost predicate InTree(end: int)
      requires Valid()
      reads this, Repr
    {
      end <= |Addr(tree.Pieces())| && (tail.None? || !index.complete)
    }

    lemma {:induction false} InTreeIs(end: int)
      requires Valid()
      ensures InTree(end) <==> end <= |Addr(tree.Pieces())| && (tail.None? || !index.complete)
    {
      hide Valid;
      hide Addr;
    }

    /** One of the two cuts of an edit in the tree is refused by the oracle of the piece that it cuts. */
    ghost predicate RefusedInTree(start: int, end: int)
      requires Valid()
      reads this, Repr
    {
      RefusedBy(tree.Pieces(), CurrentSources(), start, end)
    }

    static ghost predicate RefusedBy(ps: seq<Piece>, S: Sources, start: int, end: int) {
      AllTrue(ps, S) && Allowed(Doc(ps, S), start, end) && Refuses(ps, start, end, S)
    }

    lemma {:induction false} RefusedIs(start: int, end: int)
      requires Valid() && index.Truthful()
      ensures RefusedInTree(start, end) <==> RefusedBy(tree.Pieces(), CurrentSources(), start, end)
      ensures InTree(end) <==> end <= |Addr(tree.Pieces())| && (tail.None? || !index.complete)
      ensures InTree(end) ==> !Unindexed(end)
    {
      hide Addr;
      hide RowOf;
      hide AllTrue;
      hide InScanned;
      hide TrueTail;
      hide Index.Truthful;
      hide SourcesOf;
      hide RefusedBy;
    }

    static lemma {:induction false} RefusedByIs(ps: seq<Piece>, S: Sources, start: int, end: int)
      requires AllTrue(ps, S) && Allowed(Doc(ps, S), start, end)
      ensures RefusedBy(ps, S, start, end) <==> Refuses(ps, start, end, S)
    {
      hide Refuses;
      hide AllTrue;
      hide Doc;
    }

    /** What `splice` and `content` begin with: fold the tail if the scan is complete, then prepare the range. */
    method Begin(start: int, end: int) returns (r: Option<Error>)
      requires Valid()
      modifies Repr
      ensures Valid() && fresh(Repr - old(Repr))
      ensures index == old(index) && store == old(store) && legacy == old(legacy)
      ensures Places() == old(Places()) && Text() == old(Text())
      ensures old(Tidy()) ==> Tidy()
      ensures r == Some(ValueError) <==> !Allowed(old(Text()), start, end)
      ensures r.Some? && r != Some(ValueError) ==> r == Some(RowNotIndexed) && old(Unindexed(end))
      ensures tail == old(tail) ==> tree.Pieces() == old(tree.Pieces())
      ensures r.None? ==>
                && end <= |Addr(tree.Pieces())| && Allowed(TreeDoc(), start, end)
                && TailStart(tail) == if index.complete then None else old(CutTo(end))
      ensures old(InTree(end)) ==> tail == old(tail)
    {
      hide *;
      Parts();
      InTreeIs(end);
      UnindexedIs(end);
      CutToIs(end);
      Refresh();
      UnindexedIs(end);
      CutToIs(end);
      r := Prepare(start, end);
    }

    /** `length`. */
    method Length() returns (n: nat)
      requires Valid()
      ensures n == |Text()|
    {
      hide *;
      Parts();
      SourcesNow();
      tree.Facts();
      tree.RootAgg(CurrentSources());
      if tail.Some? {
        TailIs(tail.value, index);
        return tree.root.agg.length + |original| - tail.value.a;
      }
      NoTailText(tail, original, TreeDoc());
      n := tree.root.agg.length;
    }

    /** What is allowed in the document is allowed in the tree alone. */
    static lemma {:induction false} AllowedInTree(b: Bytes, t: Bytes, start: int, end: int)
      ensures Allowed(b + t, start, end) && end <= |b| ==> Allowed(b, start, end)
    {
    }

    /**
     `splice` refines replacing a range of a sequence: the places, and so the bytes, of `[start, end)` are
     replaced by those of `content`, and the removed part comes back. When an error is reported the
     document is as before.
     */
    method Splice(start: int, end: int, content: Content, removedTailChars: Option<nat>) returns (r: Result<Content>)
      requires Valid() && AllTrue(content.pieces, CurrentSources()) && InScanned(Addr(content.pieces), index.scanned)
      modifies Repr
      ensures Valid() && fresh(Repr - old(Repr))
      ensures index == old(index) && store == old(store) && legacy == old(legacy)
      ensures r == Err(ValueError) <==> !Allowed(old(Text()), start, end)
      ensures r.Err? ==> Places() == old(Places()) && Text() == old(Text())
      ensures r.Err? && r != Err(ValueError) ==>
                r == Err(RowNotIndexed) && (old(Unindexed(end)) || SomeHides(tree.Pieces(), CurrentSources()))
      ensures old(InTree(end)) ==> (r == Err(RowNotIndexed) <==> old(Allowed(Text(), start, end) && RefusedInTree(start, end)))
      ensures r.Ok? ==>
                && 0 <= start <= end <= |old(Places())| == |old(Text())|
                && Places() == old(Places())[..start] + Addr(content.pieces) + old(Places())[end..]
                && Text() == old(Text())[..start] + Doc(content.pieces, CurrentSources()) + old(Text())[end..]
      ensures r.Ok? ==>
                && AllTrue(r.value.pieces, CurrentSources()) && InScanned(Addr(r.value.pieces), index.scanned)
                && Addr(r.value.pieces) == old(Places())[start..end]
                && Doc(r.value.pieces, CurrentSources()) == old(Text())[start..end]
                && r.value == FromPieces(r.value.pieces,
                                         if removedTailChars.Some? then removedTailChars.value
                                         else TailChars(Doc(r.value.pieces, CurrentSources())))
      ensures old(Tidy()) && r != Err(RowNotIndexed) ==> Tidy()
      ensures r.Ok? ==> TailStart(tail) == if index.complete then None else old(CutTo(end))
    {
      hide *;
      Parts();
      SourcesNow();
      TextAtPlaces();
      ghost var places, text := Places(), Text();
      RefusedIs(start, end);
      var refused := Begin(start, end);
      Parts();
      SourcesNow();
      TextAtPlaces();
      if refused.Some? {
        return Err(refused.value);
      }
      var S := CurrentSources();
      ghost var ps, rest := tree.Pieces(), TailPlaces(tail, |original|);
      AllowedFacts(text, start, end);
      RefusedByIs(ps, S, start, end);
      r := tree.Splice(start, end, content, removedTailChars, S);
      Repr := Repr + tree.Repr;
      SourcesNow();
      if r.Err? {
        IsGrounded();
        Fold();
        Parts();
        TextAtPlaces();
        return;
      }
      ReplacedIs(ps, start, end, content.pieces, tree.Pieces());
      ReplacedPlaces(Addr(ps), rest, start, end, Addr(content.pieces), index.scanned);
      IsGrounded();
      Fold();
      Parts();
      TextAtPlaces();
      ReplacedBytes(places, start, end, Addr(content.pieces), S);
      DocIs(content.pieces, S);
      DocIs(r.value.pieces, S);
    }

    /** A piece of the scanned part hides no offset unless the index lost it; so only old generations and lost offsets refuse an edit of the tree. */
    lemma {:induction false} TreeAnswers()
      requires Valid() && index.lost == {} && forall g :: 0 <= g < |legacy| ==> legacy[g].original.mute == {}
      ensures !SomeHides(tree.Pieces(), CurrentSources())
    {
      hide *;
      Parts();
      SourcesNow();
      var ps, S := tree.Pieces(), CurrentSources();
      forall i | 0 <= i < |ps|
        ensures !HidesOffset(ps[i], S)
      {
        AllTrueAt(ps, i, S);
        TrueParts(ps[i], S);
        PlacesOf(ps, i);
        Lookup(ps[i].src, AsSource(index), store.segments, legacy);
        NothingHidden(ps[i], index, store.segments, legacy, Addr(ps));
      }
      NoneHide(ps, S);
    }

    static lemma {:induction false} NoneHide(ps: seq<Piece>, S: Sources)
      requires forall i :: 0 <= i < |ps| ==> !HidesOffset(ps[i], S)
      ensures !SomeHides(ps, S)
    {
      hide HidesOffset;
    }

    /** The places of one piece are among those of all. */
    static lemma {:induction false} PlacesOf(ps: seq<Piece>, i: nat)
      requires i < |ps|
      ensures forall l :: l in Addr1(ps[i]) ==> l in Addr(ps)
    {
      hide *;
      assert ps == ps[..i] + [ps[i]] + ps[i + 1..];
      AddrConcat(ps[..i] + [ps[i]], ps[i + 1..]);
      AddrConcat(ps[..i], [ps[i]]);
      Addr1Is(ps[i]);
    }

    static lemma {:induction false} NothingHidden(p: Piece, ix: Index, segments: seq<Bytes>, legacy: seq<Legacy>, places: seq<Loc>)
      requires ix.Truthful() && ix.lost == {} && forall g :: 0 <= g < |legacy| ==> legacy[g].original.mute == {}
      requires Known(p.src, segments, legacy) && p.src in SourcesOf(AsSource(ix), segments, legacy)
      requires SourcesOf(AsSource(ix), segments, legacy)[p.src] == Resolve(p.src, AsSource(ix), segments, legacy)
      requires InScanned(places, ix.scanned) && forall l :: l in Addr1(p) ==> l in places
      ensures !HidesOffset(p, SourcesOf(AsSource(ix), segments, legacy))
    {
      hide SourcesOf;
      hide Count;
      hide RowAt;
      var S := SourcesOf(AsSource(ix), segments, legacy);
      if p.src == 0 {
        ScannedInside(ix);
        forall o: nat | p.a <= o < p.b
          ensures o !in S[p.src].mute
        {
          assert Addr1(p)[o - p.a] == Loc(0, o) && Addr1(p)[o - p.a] in Addr1(p);
          assert Loc(0, o) in places;
          var j :| 0 <= j < |places| && places[j] == Loc(0, o);
          assert places[j].src == 0;
          NamedWhenScanned(ix, o);
        }
      } else {
        SegmentMute(segments, legacy, p.src, AsSource(ix));
      }
    }

    static lemma {:induction false} SegmentMute(segments: seq<Bytes>, legacy: seq<Legacy>, src: nat, original: Source)
      requires Known(src, segments, legacy) && src != 0 && forall g :: 0 <= g < |legacy| ==> legacy[g].original.mute == {}
      ensures Resolve(src, original, segments, legacy).mute == {}
    {
    }

    static lemma {:induction false} AllowedFacts(d: Bytes, start: int, end: int)
      requires Allowed(d, start, end)
      ensures 0 <= start <= end <= |d|
    {
    }

    /** Replacing in the tree part replaces in the whole, and what is removed is the same. */
    static lemma {:induction false} ReplacedPlaces(a: seq<Loc>, t: seq<Loc>, start: int, end: int, c: seq<Loc>, scanned: nat)
      requires 0 <= start <= end <= |a|
      ensures (a[..start] + c + a[end..]) + t == (a + t)[..start] + c + (a + t)[end..]
      ensures (a + t)[start..end] == a[start..end]
      ensures InScanned(a, scanned) && InScanned(c, scanned) ==> InScanned(a[..start] + c + a[end..], scanned) && InScanned(a[start..end], scanned)
    {
    }

    static lemma {:induction false} EmptyScanned(scanned: nat)
      ensures InScanned([], scanned)
    {
    }

    static lemma {:induction false} ReplacedBytes(places: seq<Loc>, start: int, end: int, c: seq<Loc>, S: Sources)
      requires 0 <= start <= end <= |places|
      ensures BytesAt(places[..start] + c + places[end..], S) == BytesAt(places, S)[..start] + BytesAt(c, S) + BytesAt(places, S)[end..]
      ensures BytesAt(places[start..end], S) == BytesAt(places, S)[start..end]
    {
    }

    /** `content`: the bytes `[start, end)` as pieces. The document stays, and a tidy tree stays as it is. */
    method Content(start: int, end: int, tailChars: Option<nat>) returns (r: Result<Pieces.Content>)
      requires Valid()
      modifies Repr
      ensures Valid() && fresh(Repr - old(Repr))
      ensures index == old(index) && store == old(store) && legacy == old(legacy)
      ensures Places() == old(Places()) && Text() == old(Text())
      ensures r == Err(ValueError) <==> !Allowed(old(Text()), start, end)
      ensures r.Err? && r != Err(ValueError) ==>
                r == Err(RowNotIndexed) && (old(Unindexed(end)) || SomeHides(tree.Pieces(), CurrentSources()))
      ensures old(InTree(end)) ==> (r == Err(RowNotIndexed) <==> old(Allowed(Text(), start, end) && RefusedInTree(start, end)))
      ensures r.Ok? ==>
                && 0 <= start <= end <= |old(Places())| == |old(Text())|
                && AllTrue(r.value.pieces, CurrentSources()) && InScanned(Addr(r.value.pieces), index.scanned)
                && Addr(r.value.pieces) == old(Places())[start..end]
                && Doc(r.value.pieces, CurrentSources()) == old(Text())[start..end]
                && r.value == FromPieces(r.value.pieces,
                                         if tailChars.Some? then tailChars.value
                                         else TailChars(Doc(r.value.pieces, CurrentSources())))
      ensures old(Tidy()) && r != Err(RowNotIndexed) ==> Tidy()
      ensures old(Tidy()) && r.Ok? && tail == old(tail) ==> tree.Pieces() == old(tree.Pieces())
    {
      hide *;
      Parts();
      SourcesNow();
      TextAtPlaces();
      ghost var places, text := Places(), Text();
      RefusedIs(start, end);
      var refused := Begin(start, end);
      Parts();
      SourcesNow();
      TextAtPlaces();
      if refused.Some? {
        return Err(refused.value);
      }
      var S := CurrentSources();
      ghost var ps, rest := tree.Pieces(), TailPlaces(tail, |original|);
      AllowedFacts(text, start, end);
      RefusedByIs(ps, S, start, end);
      r := tree.Content(start, end, tailChars, S);
      Repr := Repr + tree.Repr;
      SourcesNow();
      IsGrounded();
      Fold();
      Parts();
      TextAtPlaces();
      if r.Err? {
        return;
      }
      ReplacedPlaces(Addr(ps), rest, start, end, [], index.scanned);
      EmptyScanned(index.scanned);
      ReplacedBytes(places, start, end, [], S);
      DocIs(r.value.pieces, S);
    }

    /** `register_legacy`: keep an old original and add store as a generation. */
    method RegisterLegacy(old_: Legacy) returns (r: Result<nat>)
      requires Valid()
      modifies this`legacy
      ensures Valid() && Text() == old(Text()) && Places() == old(Places()) && (Tidy() <==> old(Tidy()))
      ensures r.Err? <==> |old(legacy)| >= MAX_GENERATION
      ensures r.Err? ==> r == Err(ValueError) && legacy == old(legacy)
      ensures r.Ok? ==> legacy == old(legacy) + [old_] && r.value == |legacy| <= MAX_GENERATION
    {
      hide *;
      Parts();
      SourcesNow();
      TextAtPlaces();
      if |legacy| >= MAX_GENERATION {
        return Err(ValueError);
      }
      SegmentsStay(store.segments);
      SourcesGrow(AsSource(index), store.segments, legacy, AsSource(index), store.segments, legacy + [old_]);
      DocSurvivesGrowth(tree.Pieces(), CurrentSources(), SourcesOf(AsSource(index), store.segments, legacy + [old_]));
      legacy := legacy + [old_];
      SourcesNow();
      IsGrounded();
      Fold();
      Parts();
      r := Ok(|legacy|);
    }

    static lemma {:induction false} SegmentsStay(segments: seq<Bytes>)
      ensures SegmentsGrow(segments, segments)
    {
    }

    /** `add`: append bytes to the add store and return them as one true piece. The document does not change. */
    method Add(data: Bytes, limit: nat) returns (r: Result<Pieces.Content>)
      requires Valid() && limit > 0 && |store.segments| + 1 < SEGMENTS
      modifies this`store
      ensures Valid() && Text() == old(Text()) && Places() == old(Places()) && (Tidy() <==> old(Tidy()))
      ensures r.Err? <==> data == []
      ensures r.Err? ==> r == Err(ValueError) && store == old(store)
      ensures r.Ok? ==>
                && AppendTo(old(store), limit, data).Ok? && store == AppendTo(old(store), limit, data).value.store
                && |r.value.pieces| == 1 && AllTrue(r.value.pieces, CurrentSources())
                && Doc(r.value.pieces, CurrentSources()) == data
                && InScanned(Addr(r.value.pieces), index.scanned)
                && TrueContent(r.value, CurrentSources()) && r.value.tailChars == TailChars(data)
    {
      hide *;
      Parts();
      SourcesNow();
      TextAtPlaces();
      AppendToFacts(store, limit, data);
      var placed := AppendTo(store, limit, data);
      if placed.Err? {
        return Err(ValueError);
      }
      var span := placed.value.span;
      LegacyStays(legacy);
      SourcesGrow(AsSource(index), store.segments, legacy, AsSource(index), placed.value.store.segments, legacy);
      DocSurvivesGrowth(tree.Pieces(), CurrentSources(), SourcesOf(AsSource(index), placed.value.store.segments, legacy));
      AddedSegments(store, limit, data);
      store := placed.value.store;
      SourcesNow();
      IsGrounded();
      Fold();
      Parts();
      var S := CurrentSources();
      LiveSources(AsSource(index), store.segments, legacy, span.segment);
      SegmentAnswers(store.segments[span.segment - 1]);
      MakePieceTrue(S, span.segment, span.a, span.b);
      var piece := MakePiece(S[span.segment], span.segment, span.a, span.b).value;
      var cut := LastBreak(data);
      TailCharsAre(data, data[cut..]);
      AddedPiece(piece, S, data, |Utf8.Decode(data[cut..])|, index.scanned);
      r := Ok(FromPieces([piece], |Utf8.Decode(data[cut..])|));
    }

    static lemma {:induction false} LegacyStays(legacy: seq<Legacy>)
      ensures legacy <= legacy
    {
    }

    static lemma {:induction false} AddedSegments(store: StoreView, limit: nat, data: Bytes)
      requires store.Valid() && AppendTo(store, limit, data).Ok?
      ensures var p := AppendTo(store, limit, data).value;
              |p.store.segments| <= |store.segments| + 1 && p.span.segment <= |p.store.segments|
    {
    }

    static lemma {:induction false} SegmentAnswers(data: Bytes)
      ensures SegmentSource(data).mute == {} && SegmentSource(data).data == data
    {
    }

    static lemma {:induction false} AddedPiece(piece: Piece, S: Sources, data: Bytes, n: nat, scanned: nat)
      requires TruePiece(piece, S) && piece.src > 0 && piece.src in S && piece.a <= piece.b <= |S[piece.src].data|
      requires S[piece.src].data[piece.a..piece.b] == data && n == TailChars(data)
      ensures AllTrue([piece], S) && Doc([piece], S) == data && InScanned(Addr([piece]), scanned)
      ensures FromPieces([piece], n).pieces == [piece] && FromPieces([piece], n).tailChars == n && TrueContent(FromPieces([piece], n), S)
    {
      hide *;
      PieceFacts(piece, S);
      PieceBytesIs(piece, S);
      PieceDoc(piece, S);
      ContentOfOne(piece, S);
      FromPiecesTrue([piece], n, S);
      Addr1Is(piece);
      NotOriginal(piece, scanned);
      PieceTree.FromPiecesIs([piece], n);
      TailCharsKept([piece], n);
    }

    static lemma {:induction false} TailCharsKept(pieces: seq<Piece>, n: nat)
      ensures FromPieces(pieces, n).tailChars == n
    {
    }

    static lemma {:induction false} PieceBytesIs(piece: Piece, S: Sources)
      requires Readable(piece, S)
      ensures PieceBytes(piece, S) == S[piece.src].data[piece.a..piece.b]
    {
    }

    static lemma {:induction false} NotOriginal(piece: Piece, scanned: nat)
      requires piece.src > 0
      ensures InScanned(Addr1(piece), scanned)
    {
    }

    // ----- row queries -----------------------------------------------------------------------------------

    /** `st` holds the facts of this moment. */
    ghost predicate Now(st: State)
      requires Valid()
      reads this, Repr
    {
      && st.snap == index && st.tail == tail
      && st.treeLength == |TreeDoc()| && st.treeBreaks == Breaks(TreeDoc()) && st.treeLastIsCr == EndsInCr(TreeDoc())
      && st.tailKnown == if tail.None? || index.count - 1 < tail.value.row0 then 0 else index.count - 1 - tail.value.row0
    }

    static predicate EndsInCr(d: Bytes) {
      |d| > 0 && d[|d| - 1] == CR
    }

    /** `_state`. */
    method TakeState() returns (st: State)
      requires Valid()
      ensures Now(st)
    {
      hide *;
      Parts();
      SourcesNow();
      tree.Facts();
      tree.RootAgg(CurrentSources());
      var known := 0;
      if tail.Some? && index.count - 1 > tail.value.row0 {
        known := index.count - 1 - tail.value.row0;
      }
      st := State(index, tail, tree.root.agg.length, tree.root.agg.breaks, tree.root.agg.lastIsCr, known);
      AggParts(TreeDoc());
      LastCr(TreeDoc());
      IsNow(st);
    }

    static lemma {:induction false} LastCr(d: Bytes)
      ensures EndsInCr(d) == (|d| > 0 && d[|d| - 1] == CR)
    {
    }

    lemma {:induction false} IsNow(st: State)
      requires Valid()
      requires st.snap == index && st.tail == tail
      requires st.treeLength == |TreeDoc()| && st.treeBreaks == Breaks(TreeDoc()) && st.treeLastIsCr == EndsInCr(TreeDoc())
      requires st.tailKnown == if tail.None? || index.count - 1 < tail.value.row0 then 0 else index.count - 1 - tail.value.row0
      ensures Now(st)
    {
      hide Valid;
      hide TreeDoc;
      hide Breaks;
    }

    /**
     The known number of breaks is a lower bound, and exact without a tail. The junction flag is the CRLF across
     the seam.
     */
    lemma {:induction false} StateFacts(st: State)
      requires Valid() && Now(st)
      ensures 0 <= st.KnownBreaks() <= Breaks(Text()) && (tail.None? ==> st.KnownBreaks() == Breaks(Text()))
      ensures st.Resolvable() == (if tail.None? then st.KnownBreaks() + 1 else st.KnownBreaks()) <= Breaks(Text()) + 1
      ensures st.snap == index && st.tail == tail && st.treeLength == |TreeDoc()| && st.treeBreaks == Breaks(TreeDoc())
      ensures tail.None? ==> Text() == TreeDoc() && !st.Junction() && st.tailKnown == 0
      ensures tail.Some? ==>
                var t := tail.value;
                && t.a < |original| && t.row0 == Count(original, t.a) && t.row0 < index.count <= Breaks(original) + 1
                && Text() == TreeDoc() + original[t.a..]
                && (st.Junction() <==> Junction(TreeDoc(), original[t.a..]))
                && (st.Junction() <==> st.treeLastIsCr && t.firstIsLf)
                && st.tailKnown == index.count - 1 - t.row0
      ensures st.KnownBreaks() == st.treeBreaks + st.tailKnown - if st.Junction() then 1 else 0
    {
      hide *;
      Parts();
      NowParts(st);
      StateParts(st);
      StateCounts(st, TreeDoc(), tail, index);
    }

    static lemma {:induction false} StateParts(st: State)
      ensures st.KnownBreaks() == st.treeBreaks + st.tailKnown - (if st.Junction() then 1 else 0)
      ensures st.Junction() <==> st.tail.Some? && st.treeLastIsCr && st.tail.value.firstIsLf
      ensures st.Resolvable() == if st.tail.None? then st.KnownBreaks() + 1 else st.KnownBreaks()
    {
    }

    lemma {:induction false} NowParts(st: State)
      requires Valid() && Now(st)
      ensures st.snap == index && st.tail == tail
      ensures st.treeLength == |TreeDoc()| && st.treeBreaks == Breaks(TreeDoc()) && st.treeLastIsCr == EndsInCr(TreeDoc())
      ensures st.tailKnown == if tail.None? || index.count - 1 < tail.value.row0 then 0 else index.count - 1 - tail.value.row0
    {
      hide Valid;
      hide TreeDoc;
      hide Breaks;
    }

    static lemma {:induction false} StateCounts(st: State, b: Bytes, tail: Option<Tail>, ix: Index)
      requires TrueTail(tail, ix) && st.snap == ix && st.tail == tail
      requires st.treeLength == |b| && st.treeBreaks == Breaks(b) && st.treeLastIsCr == EndsInCr(b)
      requires st.tailKnown == if tail.None? || ix.count - 1 < tail.value.row0 then 0 else ix.count - 1 - tail.value.row0
      ensures var text := b + TailBytes(tail, ix.data);
              && 0 <= st.KnownBreaks() <= Breaks(text) && (tail.None? ==> st.KnownBreaks() == Breaks(text) && text == b && !st.Junction())
              && (tail.Some? ==>
                    var t := tail.value;
                    && t.a < |ix.data| && t.row0 == Count(ix.data, t.a) && t.row0 < ix.count <= Breaks(ix.data) + 1
                    && text == b + ix.data[t.a..]
                    && (st.Junction() <==> Junction(b, ix.data[t.a..])))
    {
      if tail.Some? {
        BreaksInText(b, ix.data, tail.value.a);
      } else {
        assert b + TailBytes(tail, ix.data) == b;
      }
    }

    /** No oracle refuses: neither the index of the original nor those behind the pieces of the tree. */
    ghost predicate Clear()
      requires Valid()
      reads this, Repr
    {
      && index.dead == {} && index.lost == {}
      && forall i :: 0 <= i < |tree.Pieces()| ==>
                       !HidesRow(tree.Pieces()[i], CurrentSources()) && !HidesOffset(tree.Pieces()[i], CurrentSources())
    }

    lemma {:induction false} ClearPieces()
      requires Valid() && Clear()
      ensures index.dead == {} && index.lost == {}
      ensures !exists i :: 0 <= i < |tree.Pieces()| && HidesRow(tree.Pieces()[i], CurrentSources())
      ensures !exists i :: 0 <= i < |tree.Pieces()| && HidesOffset(tree.Pieces()[i], CurrentSources())
    {
      hide HidesRow;
      hide HidesOffset;
      hide Valid;
      hide CurrentSources;
    }

    /**
     The start of `row` is known: by the piece that holds the terminator in front of it, or, in the tail, by the index,
     from the row that ends there.
     */
    ghost predicate StartKnown(row: int, st: State)
      requires Valid()
      reads this, Repr
    {
      if row <= 0 then row == 0
      else if row <= st.treeBreaks then BreakKnown(tree.Pieces(), row, CurrentSources())
      else tail.Some? && EndInTail(row, st, tail.value, index)
    }

    static ghost predicate EndInTail(row: int, st: State, t: Tail, ix: Index)
      requires ix.Truthful()
    {
      var rank := row - st.treeBreaks + if st.Junction() then 1 else 0;
      rank >= 1 && rank <= st.tailKnown && ix.RowRange(t.row0 + rank - 1).Some?
    }

    lemma {:induction false} StartKnownIs(row: int, st: State)
      requires Valid() && Now(st) && index.Truthful()
      ensures StartKnown(row, st) <==>
                if row <= 0 then row == 0
                else if row <= st.treeBreaks then BreakKnown(tree.Pieces(), row, CurrentSources())
                else tail.Some? && EndInTail(row, st, tail.value, index)
    {
      hide BreakKnown;
      hide EndInTail;
      hide CurrentSources;
    }

    static lemma {:induction false} EndInTailIs(row: int, st: State, t: Tail, ix: Index)
      requires ix.Truthful()
      ensures EndInTail(row, st, t, ix) <==>
                var rank := row - st.treeBreaks + if st.Junction() then 1 else 0;
                rank >= 1 && rank <= st.tailKnown && ix.RowRange(t.row0 + rank - 1).Some?
    {
      hide Index.RowRange;
    }

    /** `_start`: the start of `row`, in the tree or in the tail. */
    method Start(row: int, st: State) returns (r: Option<int>)
      requires Valid() && Now(st) && row >= 0
      ensures r.Some? <==> StartKnown(row, st)
      ensures r.Some? ==> row <= Breaks(Text()) && r.value == RowStart(Text(), row)
      ensures Clear() && row <= st.KnownBreaks() ==> r.Some?
    {
      hide *;
      Parts();
      SourcesNow();
      StateFacts(st);
      StartOf(Text(), row);
      StartKnownIs(row, st);
      if Clear() {
        ClearPieces();
      }
      if row == 0 {
        return Some(0);
      }
      var S := CurrentSources();
      if row <= st.treeBreaks {
        var found := tree.FindBreak(row, S);
        if found.value.None? {
          return None;
        }
        var at := found.value.value;
        if tail.Some? {
          FrontBreak(TreeDoc(), original[tail.value.a..], row);
          if at == st.treeLength && st.treeLastIsCr && tail.value.firstIsLf {
            at := at + 1;
          }
        }
        return Some(at);
      }
      if tail.None? {
        return None;
      }
      var t := tail.value;
      EndInTailIs(row, st, t, index);
      var rank := row - st.treeBreaks + if st.Junction() then 1 else 0;
      if rank > st.tailKnown {
        return None;
      }
      TailBreak(original, t.a, rank);
      BehindBreak(TreeDoc(), original[t.a..], row);
      EndInIndex(index, t.row0 + rank - 1);
      var previous := index.RowRange(t.row0 + rank - 1);
      r := if previous.None? then None else Some(st.treeLength + previous.value.end - t.a);
    }

    static lemma {:induction false} StartOf(d: Bytes, row: int)
      ensures row == 0 ==> RowStart(d, 0) == 0
      ensures 1 <= row <= Breaks(d) ==> RowStart(d, row) == BreakEnd(d, row)
    {
    }

    /** The end of a row as the index gives it. */
    static lemma {:induction false} EndInIndex(ix: Index, row: nat)
      requires ix.Truthful() && row + 1 < ix.count
      ensures row + 1 <= Breaks(ix.data)
      ensures ix.RowRange(row).Some? ==> ix.RowRange(row).value.end == BreakEnd(ix.data, row + 1)
      ensures ix.dead == {} ==> ix.RowRange(row).Some?
    {
    }

    /** `_read`: bytes of the document, from the tree and from the tail. */
    method ReadBytes(start: int, end: int) returns (r: Bytes)
      requires Valid() && 0 <= start <= end <= |Text()|
      ensures r == Text()[start..end]
    {
      hide *;
      Parts();
      SourcesNow();
      var S := CurrentSources();
      tree.Facts();
      tree.RootAgg(S);
      var treeLength := tree.root.agg.length;
      r := [];
      if start < treeLength {
        var front := tree.Read(start, if end < treeLength then end else treeLength, S);
        r := front.value;
      }
      if tail.Some? && end > treeLength {
        TailIs(tail.value, index);
        var begin := tail.value.a + if start > treeLength then start - treeLength else 0;
        r := r + original[begin..tail.value.a + end - treeLength];
        ReadParts(TreeDoc(), original, tail.value.a, start, end);
      } else {
        if tail.None? {
          NoTailText(tail, original, TreeDoc());
        }
        ReadFront(TreeDoc(), TailBytes(tail, original), start, end);
      }
    }

    static lemma {:induction false} ReadParts(b: Bytes, d: Bytes, a: nat, start: nat, end: nat)
      requires a <= |d| && start <= end <= |b| + |d| - a && end > |b|
      ensures a + (if start > |b| then start - |b| else 0) <= a + end - |b| <= |d|
      ensures (if start < |b| then b[start..|b|] else []) + d[a + (if start > |b| then start - |b| else 0)..a + end - |b|]
              == (b + d[a..])[start..end]
    {
      var x := if start > |b| then start - |b| else 0;
      SubSlice(d, a, |d|, x, end - |b|);
      BackOfSum(b, d[a..], start, end);
    }

    static lemma {:induction false} BackOfSum(b: Bytes, t: Bytes, start: nat, end: nat)
      requires start <= end <= |b| + |t| && end > |b|
      ensures (b + t)[start..end] == (if start < |b| then b[start..|b|] else []) + t[(if start > |b| then start - |b| else 0)..end - |b|]
    {
    }

    static lemma {:induction false} ReadFront(b: Bytes, t: Bytes, start: nat, end: nat)
      requires start <= end <= |b|
      ensures (if start < |b| then b[start..end] else []) == (b + t)[start..end]
    {
    }

    /** `read`: up to `size` bytes from `offset`. */
    method Read(offset: int, size: int) returns (r: Result<Bytes>)
      requires Valid()
      modifies Repr
      ensures Valid() && fresh(Repr - old(Repr)) && Text() == old(Text()) && Places() == old(Places())
      ensures r.Err? <==> offset < 0 || size < 0
      ensures r.Err? ==> r == Err(ValueError)
      ensures r.Ok? ==>
                var n := |Text()|;
                r.value == if offset >= n then [] else Text()[offset..if offset + size < n then offset + size else n]
    {
      hide *;
      Refresh();
      if offset < 0 || size < 0 {
        return Err(ValueError);
      }
      var length := Length();
      var end := if offset + size < length then offset + size else length;
      if end <= offset {
        NothingBetween(Text(), offset, end);
        return Ok([]);
      }
      var bytes := ReadBytes(offset, end);
      r := Ok(bytes);
    }

    static lemma {:induction false} NothingBetween(d: Bytes, offset: nat, end: int)
      ensures offset <= end <= offset && end <= |d| ==> d[offset..end] == []
    {
    }

    /** `_terminator_length`. */
    method TerminatorLength(end: int) returns (n: nat)
      requires Valid() && 0 <= end <= |Text()|
      ensures n == Rows.TerminatorLength(Text(), end)
    {
      hide *;
      var last := ReadBytes(if end - 2 > 0 then end - 2 else 0, end);
      LastTwo(Text(), end);
      n := if |last| >= 2 && last[|last| - 2..] == [CR, LF] then 2
           else if |last| >= 1 && (last[|last| - 1] == LF || last[|last| - 1] == CR) then 1 else 0;
    }

    static lemma {:induction false} LastTwo(d: Bytes, end: nat)
      requires end <= |d|
      ensures var last := d[if end - 2 > 0 then end - 2 else 0..end];
              Rows.TerminatorLength(d, end)
              == if |last| >= 2 && last[|last| - 2..] == [CR, LF] then 2
                 else if |last| >= 1 && (last[|last| - 1] == LF || last[|last| - 1] == CR) then 1 else 0
    {
      hide *;
      TerminatorIs(d, end);
      if end >= 2 {
        TwoBytes(d, end);
      } else if end == 1 {
        assert d[0..1] == [d[0]];
      } else {
        assert d[0..0] == [];
      }
    }

    static lemma {:induction false} TwoBytes(d: Bytes, end: nat)
      requires 2 <= end <= |d|
      ensures d[end - 2..end] == [d[end - 2], d[end - 1]] && d[end - 2..end][0..] == d[end - 2..end]
      ensures d[end - 2..end] == [CR, LF] <==> d[end - 2] == CR && d[end - 1] == LF
    {
      var s := d[end - 2..end];
      assert s[0] == d[end - 2] && s[1] == d[end - 1];
    }

    static lemma {:induction false} TerminatorIs(d: Bytes, p: nat)
      requires p <= |d|
      ensures Rows.TerminatorLength(d, p)
              == if p >= 2 && d[p - 2] == CR && d[p - 1] == LF then 2
                 else if p >= 1 && (d[p - 1] == LF || d[p - 1] == CR) then 1 else 0
    {
    }

    /** `_make_range` once both ends are known. */
    method MakeRange(begin: int, end: int, row: nat, isLast: bool) returns (w: Rows.RowRange)
      requires Valid() && row <= Breaks(Text()) && begin == RowStart(Text(), row) && end == RowEnd(Text(), row)
      requires isLast <==> row == Breaks(Text())
      ensures w == RowAt(Text(), row)
    {
      hide *;
      RowAtParts(Text(), row);
      var terminator: nat := 0;
      if !isLast {
        terminator := TerminatorLength(end);
      }
      w := Rows.RowRange(begin, end - terminator, end);
    }

    static lemma {:induction false} RowAtParts(d: Bytes, row: nat)
      requires row <= Breaks(d)
      ensures 0 <= RowStart(d, row) && RowEnd(d, row) <= |d|
      ensures var end := RowEnd(d, row);
              var n := if row < Breaks(d) then Rows.TerminatorLength(d, end) else 0;
              n <= end && RowAt(d, row) == Rows.RowRange(RowStart(d, row), end - n, end)
      ensures RowEnd(d, row) == if row < Breaks(d) then RowStart(d, row + 1) else |d|
    {
      hide BreakEnd;
    }

    /** The row is resolvable, and both its ends are known; the last row ends with the document. */
    ghost predicate RangeKnown(row: int, st: State)
      requires Valid()
      reads this, Repr
    {
      row < st.Resolvable() && StartKnown(row, st) && (row < st.KnownBreaks() ==> StartKnown(row + 1, st))
    }

    lemma {:induction false} RangeKnownIs(row: int, st: State)
      requires Valid()
      ensures RangeKnown(row, st) <==> row < st.Resolvable() && StartKnown(row, st) && (row < st.KnownBreaks() ==> StartKnown(row + 1, st))
    {
      hide Valid;
      hide StartKnown;
    }

    /** `_range`: the row of the document, or `None` exactly when it is not resolvable or one of its ends is not known. */
    method Range(row: nat, st: State) returns (r: Option<Rows.RowRange>)
      requires Valid() && Now(st)
      ensures r.Some? ==> row < st.Resolvable() && row <= Breaks(Text()) && r.value == RowAt(Text(), row)
      ensures r.Some? <==> RangeKnown(row, st)
      ensures Clear() && row < st.Resolvable() ==> r.Some?
    {
      hide *;
      StateFacts(st);
      StateParts(st);
      RangeKnownIs(row, st);
      if row >= st.Resolvable() {
        return None;
      }
      var begin := Start(row, st);
      RowAtParts(Text(), row);
      var end: Option<int> := None;
      if row < st.KnownBreaks() {
        end := Start(row + 1, st);
      } else {
        var n := Length();
        end := Some(n);
      }
      if begin.None? || end.None? {
        return None;
      }
      var w := MakeRange(begin.value, end.value, row, row == st.KnownBreaks());
      r := Some(w);
    }

    /** All places are those of the original, in order. */
    ghost predicate WholeOriginal()
      requires Valid()
      reads this, Repr
    {
      Places() == TailPlaces(Some(Tail(0, 0, false)), |original|)
    }

    /** The tree is empty in front of the untouched tail, or it is the one piece of the whole original. */
    ghost predicate Identical()
      requires Valid()
      reads this, Repr
    {
      if tail.Some? then tail.value.a == 0 && tree.Pieces() == [] else Untouched(tree.Pieces(), |original|)
    }

    static ghost predicate Untouched(ps: seq<Piece>, n: nat) {
      if n == 0 then ps == [] else |ps| == 1 && ps[0].src == 0 && ps[0].a == 0 && ps[0].b == n
    }

    lemma {:induction false} IdenticalIs()
      requires Valid()
      ensures Identical() <==> if tail.Some? then tail.value.a == 0 && tree.Pieces() == [] else Untouched(tree.Pieces(), |original|)
      ensures Untouched(tree.Pieces(), |original|) <==>
                if |original| == 0 then tree.Pieces() == []
                else |tree.Pieces()| == 1 && tree.Pieces()[0].src == 0 && tree.Pieces()[0].a == 0 && tree.Pieces()[0].b == |original|
      ensures tree.Pieces() == [] <==> |Addr(tree.Pieces())| == 0
    {
      hide Addr;
      hide SourcesOf;
      hide InScanned;
      AllTrueNonEmpty(tree.Pieces(), CurrentSources());
      EmptyAddr(tree.Pieces());
    }

    static lemma {:induction false} EmptyAddr(ps: seq<Piece>)
      requires NonEmpty(ps)
      ensures ps == [] <==> |Addr(ps)| == 0
    {
      if ps != [] {
        Addr1Length(ps[0]);
      }
    }

    /**
     `_is_identity`. Positive answers are right. For a tidy tree the answer is yes exactly when every place is that of
     the original and the tail, while there is one, was never cut: a document whose tail was cut and that was then
     taken back does not count until the scan is complete.
     */
    method IsIdentity() returns (yes: bool)
      requires Valid()
      ensures yes ==> WholeOriginal() && Text() == original
      ensures yes ==> tail.None? || (tail.value.a == 0 && tree.Pieces() == [])
      ensures Tidy() ==> (yes <==> WholeOriginal() && (tail.None? || tail.value.a == 0))
      ensures original == [] ==> (yes <==> Text() == [])
      ensures yes <==> Identical()
    {
      hide *;
      Parts();
      SourcesNow();
      TextAtPlaces();
      tree.Facts();
      tree.RootAgg(CurrentSources());
      WholeIs();
      IdenticalIs();
      AllOriginal(original, CurrentSources());
      if tail.Some? {
        TailIs(tail.value, index);
        IdentityTail(tail.value, Addr(tree.Pieces()), tree.Pieces(), |original|);
        return tail.value.a == 0 && tree.root.agg.length == 0;
      }
      NoTailText(tail, original, TreeDoc());
      assert Addr(tree.Pieces()) + [] == Addr(tree.Pieces());
      if |original| == 0 {
        NothingWhole(Addr(tree.Pieces()));
        NoBytes(Text(), original);
        return tree.root.agg.length == 0;
      }
      IdentityIs(tree.Pieces(), CurrentSources());
      if tree.root.count != 1 {
        return false;
      }
      var piece := tree.PieceAt(0);
      yes := piece.value.src == 0 && piece.value.a == 0 && piece.value.b == |original|;
    }

    lemma {:induction false} WholeIs()
      requires Valid()
      ensures WholeOriginal() <==> Places() == TailPlaces(Some(Tail(0, 0, false)), |original|)
    {
      hide Valid;
      hide Places;
      hide TailPlaces;
    }

    static lemma {:induction false} AllOriginal(original: Bytes, S: Sources)
      requires 0 in S && S[0].data == original
      ensures BytesAt(TailPlaces(Some(Tail(0, 0, false)), |original|), S) == original
    {
    }

    static lemma {:induction false} NoBytes(a: Bytes, b: Bytes)
      ensures |a| == 0 <==> a == []
      ensures |b| == 0 <==> b == []
    {
    }

    static lemma {:induction false} NothingWhole(a: seq<Loc>)
      ensures |a| == 0 <==> a == TailPlaces(Some(Tail(0, 0, false)), 0)
    {
    }

    static lemma {:induction false} IdentityTail(t: Tail, a: seq<Loc>, ps: seq<Piece>, length: nat)
      requires t.a < length && a == Addr(ps) && NonEmpty(ps)
      ensures t.a == 0 && |a| == 0 ==> a + TailPlaces(Some(t), length) == TailPlaces(Some(Tail(0, 0, false)), length) && ps == []
      ensures t.a == 0 && a + TailPlaces(Some(t), length) == TailPlaces(Some(Tail(0, 0, false)), length) ==> |a| == 0
    {
      if ps != [] {
        Addr1Length(ps[0]);
      }
    }

    static lemma {:induction false} IdentityIs(ps: seq<Piece>, S: Sources)
      requires AllTrue(ps, S) && 0 in S && |S[0].data| > 0
      ensures |ps| == 1 && ps[0].src == 0 && ps[0].a == 0 && ps[0].b == |S[0].data| ==>
                Addr(ps) == TailPlaces(Some(Tail(0, 0, false)), |S[0].data|)
      ensures Merged(ps) && Addr(ps) == TailPlaces(Some(Tail(0, 0, false)), |S[0].data|) ==>
                |ps| == 1 && ps[0].src == 0 && ps[0].a == 0 && ps[0].b == |S[0].data|
    {
      hide AllTrue;
      if |ps| == 1 && ps[0].src == 0 && ps[0].a == 0 && ps[0].b == |S[0].data| {
        assert ps == [ps[0]];
        Addr1Is(ps[0]);
      }
      if Merged(ps) {
        IdentityPiece(ps, S);
      }
    }

    /**
     The scan of an empty original is not finished and nothing was inserted. The document then has one row, but the fast
     path asks the index, which knows none yet.
     */
    ghost predicate Starving()
      requires Valid()
      reads this, Repr
    {
      !index.complete && original == [] && Text() == []
    }

    lemma {:induction false} StarvingIs()
      requires Valid()
      ensures Starving() <==> !index.complete && original == [] && Text() == []
      ensures index.Truthful() && index.data == original && TrueTail(tail, index)
      ensures original == [] ==> tail.None?
      ensures tail.None? ==> index.complete || original == []
      ensures Starving() ==> Breaks(Text()) == 0
    {
      if Starving() {
        EmptyTree(CurrentSources());
      }
      hide Text;
      hide SourcesOf;
      hide AllTrue;
      hide InScanned;
    }

    /** `row_range`. */
    method RowRange(row: int) returns (r: Result<Option<Rows.RowRange>>, ghost st: State)
      requires Valid()
      modifies Repr
      ensures Valid() && fresh(Repr - old(Repr)) && Text() == old(Text()) && Places() == old(Places()) && index == old(index)
      ensures Now(st) && st.KnownBreaks() <= Breaks(Text()) && (tail.None? ==> st.KnownBreaks() == Breaks(Text()))
      ensures r.Err? <==> row < 0
      ensures r.Err? ==> r == Err(IndexError)
      ensures r.Ok? && r.value.Some? ==> row < st.Resolvable() && row <= Breaks(Text()) && r.value == Some(RowAt(Text(), row))
      ensures r.Ok? && Identical() ==> index.Truthful() && r.value == index.RowRange(row)
      ensures r.Ok? && !Identical() ==> (r.value.Some? <==> RangeKnown(row, st))
      ensures r.Ok? && Clear() ==> (r.value.Some? <==> row < st.Resolvable() && !Starving())
      ensures Starving() && row >= 0 ==> st.Resolvable() == 1 && r == Ok(None)
    {
      hide *;
      Refresh();
      Parts();
      StarvingIs();
      var now := TakeState();
      st := now;
      StateFacts(now);
      var identity := IsIdentity();
      if row < 0 {
        return Err(IndexError), now;
      }
      if identity {
        IdentityRows(now, row);
        return Ok(index.RowRange(row)), now;
      }
      var found := Range(row, now);
      r := Ok(found);
    }

    /** The fast path gives the answers of the general path. */
    lemma {:induction false} IdentityRows(st: State, row: nat)
      requires Valid() && Now(st) && index.Truthful() && Text() == original
      requires tail.Some? ==> tail.value.a == 0 && tree.Pieces() == [] && !index.complete
      ensures index.Resolvable() <= st.Resolvable()
      ensures index.complete || original != [] ==> index.Resolvable() == st.Resolvable()
      ensures !index.complete && original == [] ==> index.Resolvable() == 0 && st.Resolvable() == 1
      ensures index.RowRange(row).Some? ==>
                row < index.Resolvable() && row < st.Resolvable() && row <= Breaks(Text()) && index.RowRange(row) == Some(RowAt(Text(), row))
      ensures Clear() && row < index.Resolvable() ==> index.RowRange(row).Some?
    {
      hide *;
      Parts();
      StateFacts(st);
      StateParts(st);
      if Clear() {
        ClearPieces();
      }
      IndexRows(index, row);
      IndexCounts(index);
      if tail.None? {
        NoTailMeans(tail, index);
      } else {
        EmptyTree(CurrentSources());
      }
    }

    static lemma {:induction false} NoTailMeans(tail: Option<Tail>, ix: Index)
      requires TrueTail(tail, ix) && tail.None?
      ensures ix.complete || ix.data == []
    {
    }

    static lemma {:induction false} EmptyTree(S: Sources)
      ensures Doc([], S) == [] && Breaks([]) == 0 && !EndsInCr([]) && (forall b: Bytes :: !Junction([], b))
    {
    }

    static lemma {:induction false} IndexRows(ix: Index, row: nat)
      requires ix.Truthful()
      ensures ix.Resolvable() == (if ix.complete then ix.count else ix.count - 1) <= Breaks(ix.data) + 1
      ensures ix.complete ==> ix.count == Breaks(ix.data) + 1
      ensures ix.RowRange(row).Some? ==> row < ix.Resolvable() && row <= Breaks(ix.data) && ix.RowRange(row) == Some(RowAt(ix.data, row))
      ensures ix.dead == {} && row < ix.Resolvable() ==> ix.RowRange(row).Some?
      ensures ix.data == [] ==> Breaks(ix.data) == 0
      ensures Count(ix.data, 0) == 0
    {
      hide RowAt;
    }

    /** The least number of rows that a call may give: none when none are left. */
    static function Asked(n: int, maxLines: nat, left: int): nat {
      var limit := if n < maxLines then n else maxLines;
      var most := if limit < left then limit else left;
      if most < 0 then 0 else most
    }

    /**
     `lines`: consecutive rows of the document from `first`. On the fast path they are what one call of the index gives,
     whose read budget is enough for `room` rows, but for the first in any case. On the general path the list ends where
     it was asked to, at the last resolvable row, or at a row that `row_range` cannot give.
     */
    method Lines(first: int, n: int, maxLines: nat, room: nat) returns (r: Result<seq<Rows.RowRange>>, ghost st: State)
      requires Valid()
      modifies Repr
      ensures Valid() && fresh(Repr - old(Repr)) && Text() == old(Text()) && Places() == old(Places()) && index == old(index)
      ensures Now(st)
      ensures r.Err? <==> first < 0
      ensures r.Err? ==> r == Err(IndexError)
      ensures r.Ok? ==>
                && |r.value| <= Asked(n, maxLines, st.Resolvable() - first) && RowsFrom(Text(), first, r.value)
      ensures r.Ok? && n > 0 && Identical() ==>
                && index.Truthful()
                && var all := index.Lines(first, if n < maxLines then n else maxLines);
                   r.value == all[..if room < |all| && all != [] then (if room > 0 then room else 1) else |all|]
      ensures r.Ok? && !Identical() ==>
                && (forall row :: first <= row < first + |r.value| ==> RangeKnown(row, st))
                && (|r.value| < Asked(n, maxLines, st.Resolvable() - first) ==> !RangeKnown(first + |r.value|, st))
      ensures r.Ok? && Clear() && (!Identical() || room >= maxLines) && !Starving() ==>
                |r.value| == Asked(n, maxLines, st.Resolvable() - first)
      ensures r.Ok? && Clear() && n > 0 && maxLines > 0 ==> (r.value != [] <==> first < st.Resolvable() && !Starving())
    {
      hide *;
      Refresh();
      Parts();
      StarvingIs();
      var now := TakeState();
      st := now;
      StateFacts(now);
      StateParts(now);
      var identity := IsIdentity();
      if first < 0 {
        return Err(IndexError), now;
      }
      NoRows(Text(), first);
      AskedIs(n, maxLines, now.Resolvable() - first);
      if n <= 0 {
        return Ok([]), now;
      }
      var limit := if n < maxLines then n else maxLines;
      if identity {
        IndexLines(index, first, limit);
        IdentityRows(now, first);
        if Clear() {
          ClearPieces();
        }
        var all := index.Lines(first, limit);
        var k := if room < |all| && all != [] then (if room > 0 then room else 1) else |all|;
        FewerRows(Text(), first, all, k);
        return Ok(all[..k]), now;
      }
      var stop := if now.Resolvable() < first + limit then now.Resolvable() else first + limit;
      var out := LinesBetween(first, stop, now);
      r := Ok(out);
    }

    static lemma {:induction false} AskedIs(n: int, maxLines: nat, left: int)
      ensures var limit := if n < maxLines then n else maxLines;
              Asked(n, maxLines, left) == if limit <= 0 || left <= 0 then 0 else if limit < left then limit else left
    {
    }

    static lemma {:induction false} FewerRows(d: Bytes, first: nat, rows: seq<Rows.RowRange>, k: nat)
      requires RowsFrom(d, first, rows) && k <= |rows|
      ensures RowsFrom(d, first, rows[..k]) && |rows[..k]| == k
      ensures (k == 0 <==> rows[..k] == []) && (|rows| == 0 <==> rows == [])
    {
      hide *;
      FrontRows(d, first, rows, k);
    }

    /** The rows `[first, stop)` up to the first that cannot be given. */
    method LinesBetween(first: nat, stop: int, st: State) returns (out: seq<Rows.RowRange>)
      requires Valid() && Now(st) && stop <= st.Resolvable()
      ensures RowsFrom(Text(), first, out) && (out != [] ==> first + |out| <= stop)
      ensures forall row :: first <= row < first + |out| ==> RangeKnown(row, st)
      ensures first + |out| < stop ==> !RangeKnown(first + |out|, st)
      ensures Clear() && first < stop ==> first + |out| == stop
    {
      hide *;
      StateFacts(st);
      StateParts(st);
      NoRows(Text(), first);
      out := [];
      var begin: Option<int> := None;
      if first < stop {
        begin := Start(first, st);
      }
      var row := first;
      while row < stop && begin.Some?
        invariant first <= row && (row <= stop || row == first) && row == first + |out| && RowsFrom(Text(), first, out)
        invariant begin.Some? && row <= Breaks(Text()) ==> begin.value == RowStart(Text(), row)
        invariant row < stop ==> (begin.Some? <==> StartKnown(row, st))
        invariant forall i :: first <= i < row ==> RangeKnown(i, st)
        invariant Clear() && row < stop ==> begin.Some?
        decreases stop - row
      {
        RowAtParts(Text(), row);
        RangeKnownIs(row, st);
        var end: Option<int> := None;
        if row < st.KnownBreaks() {
          end := Start(row + 1, st);
        } else {
          var length := Length();
          end := Some(length);
        }
        if end.None? {
          break;
        }
        var w := MakeRange(begin.value, end.value, row, row == st.KnownBreaks());
        MoreRows(Text(), first, out);
        out := out + [w];
        begin := end;
        row := row + 1;
      }
      RangeKnownIs(row, st);
    }

    /** The lines of the index are rows of the naive split. */
    static lemma {:induction false} IndexLines(ix: Index, first: nat, limit: nat)
      requires ix.Truthful()
      ensures |ix.Lines(first, limit)| <= limit && RowsFrom(ix.data, first, ix.Lines(first, limit))
      ensures ix.Lines(first, limit) != [] ==> first + |ix.Lines(first, limit)| <= ix.Resolvable()
      ensures limit > 0 && ix.RowRange(first).Some? ==> ix.Lines(first, limit) != []
      ensures ix.dead == {} ==>
                |ix.Lines(first, limit)| == if first >= ix.Resolvable() then 0 else if limit < ix.Resolvable() - first then limit else ix.Resolvable() - first
      decreases limit
    {
      hide RowAt;
      if limit > 0 && ix.RowRange(first).Some? {
        IndexLines(ix, first + 1, limit - 1);
        var rest := ix.Lines(first + 1, limit - 1);
        forall i | 0 <= i < 1 + |rest|
          ensures first + i <= Breaks(ix.data) && ([ix.RowRange(first).value] + rest)[i] == RowAt(ix.data, first + i)
        {
          if i > 0 {
            assert rest[i - 1] == RowAt(ix.data, first + 1 + (i - 1));
          }
        }
      }
    }

    /** The first row that is not terminated yet begins in the scanned part of the tail, or its start is known otherwise. */
    ghost predicate OpenRowKnown(st: State)
      requires Valid()
      reads this, Repr
    {
      st.tailKnown > 0 || StartKnown(st.KnownBreaks(), st)
    }

    lemma {:induction false} OpenRowIs(st: State)
      requires Valid()
      ensures OpenRowKnown(st) <==> st.tailKnown > 0 || StartKnown(st.KnownBreaks(), st)
    {
      hide Valid;
      hide StartKnown;
    }

    /** `_scanned`: the start of the first row that is not terminated yet, 0 exactly when its start is not known. */
    method Scanned(st: State) returns (n: int)
      requires Valid() && Now(st)
      ensures tail.None? ==> n == |Text()|
      ensures 0 <= st.KnownBreaks() <= Breaks(Text())
      ensures tail.Some? && !index.complete ==>
                n == if OpenRowKnown(st) then RowStart(Text(), st.KnownBreaks()) else 0
      ensures tail.Some? && !index.complete && Clear() ==> n == RowStart(Text(), st.KnownBreaks())
    {
      hide *;
      Parts();
      StateFacts(st);
      OpenRowIs(st);
      if tail.None? {
        n := Length();
        return;
      }
      var t := tail.value;
      if st.tailKnown > 0 {
        OpenRowInTail(TreeDoc(), index, t, st.tailKnown, st.KnownBreaks());
        n := st.treeLength + st.snap.scanned - t.a;
        return;
      }
      var found := Start(st.KnownBreaks(), st);
      n := if found.None? then 0 else found.value;
    }

    /** The open row of the index is that of the document when it begins in the tail. */
    static lemma {:induction false} OpenRowInTail(b: Bytes, ix: Index, t: Tail, known: int, breaks: int)
      requires TrueTail(Some(t), ix) && known == ix.count - 1 - t.row0 && known > 0
      requires breaks == Breaks(b) + known - if Junction(b, ix.data[t.a..]) then 1 else 0
      ensures !ix.complete ==> 0 <= breaks <= Breaks(b + ix.data[t.a..]) && RowStart(b + ix.data[t.a..], breaks) == |b| + ix.scanned - t.a
    {
      hide Count;
      hide EndsAt;
      hide Index.RowRange;
      if !ix.complete {
        TailBreak(ix.data, t.a, known);
        BreaksInText(b, ix.data, t.a);
        if breaks > Breaks(b) {
          BehindBreak(b, ix.data[t.a..], breaks);
        } else {
          SharedBreak(b, ix.data[t.a..]);
        }
      }
    }

    /** When the only known break of the tail is the second half of the CRLF at the seam. */
    static lemma {:induction false} SharedBreak(b: Bytes, t: Bytes)
      requires Junction(b, t)
      ensures 1 <= Breaks(b) <= Breaks(b + t) && Breaks(t) >= 1
      ensures BreakEnd(b + t, Breaks(b)) == |b| + BreakEnd(t, 1) && BreakEnd(t, 1) == 1
    {
      CrLast(b);
      LfFirst(t);
      assert EndsAt(t, 1) && Count(t, 1) == 1;
      BreakEndIs(t, 1);
      FrontBreak(b, t, Breaks(b));
    }

    /** `row_at_offset`: the row of the document that holds the offset. */
    method RowAtOffset(offset: int) returns (r: Option<Located>, ghost st: State)
      requires Valid()
      modifies Repr
      ensures Valid() && fresh(Repr - old(Repr)) && Text() == old(Text()) && Places() == old(Places()) && index == old(index)
      ensures Now(st)
      ensures r.Some? ==>
                && 0 <= offset <= |Text()| && r.value.row == Count(Text(), offset) <= Breaks(Text())
                && r.value.range == RowAt(Text(), r.value.row)
      ensures 0 <= st.KnownBreaks() <= Breaks(Text())
      ensures Identical() ==> index.Truthful() && r == index.RowAtOffset(offset)
      ensures !Identical() ==>
                (r.Some? <==> 0 <= offset <= |Text()| && OffsetKnown(offset, st) && RangeKnown(Count(Text(), offset), st))
      ensures Clear() && 0 <= offset <= |Text()| ==>
                (r.Some? <==> !Starving() && (index.complete || original == [] || offset < RowStart(Text(), st.KnownBreaks())))
    {
      hide *;
      Refresh();
      StarvingIs();
      Parts();
      SourcesNow();
      var now := TakeState();
      st := now;
      StateFacts(now);
      var identity := IsIdentity();
      if identity {
        IdentityOffset(now, offset);
        return index.RowAtOffset(offset), now;
      }
      r := FindRow(offset, now);
    }

    /** The fast path of `row_at_offset`. */
    lemma {:induction false} IdentityOffset(st: State, offset: int)
      requires Valid() && Now(st) && index.Truthful() && Text() == original && st.KnownBreaks() <= Breaks(Text())
      requires tail.Some? ==> tail.value.a == 0 && tree.Pieces() == [] && !index.complete
      ensures index.RowAtOffset(offset).Some? ==>
                var f := index.RowAtOffset(offset).value;
                0 <= offset <= |Text()| && f.row == Count(Text(), offset) <= Breaks(Text()) && f.range == RowAt(Text(), f.row)
      ensures 0 <= st.KnownBreaks()
      ensures Clear() && 0 <= offset <= |Text()| ==>
                (index.RowAtOffset(offset).Some? <==> index.complete || (original != [] && offset < RowStart(Text(), st.KnownBreaks())))
    {
      hide *;
      Parts();
      IndexOffset(index, offset);
      IdentityRows(st, 0);
      IndexCounts(index);
      IndexRows(index, 0);
      StateParts(st);
      StateFacts(st);
      if tail.None? {
        NoTailMeans(tail, index);
      }
      if Clear() {
        ClearPieces();
      }
    }

    /**
     The row of an offset can be named: by the piece that holds it, in the tail by the index in front of the open row, and
     at the very end once there is no tail.
     */
    ghost predicate OffsetKnown(offset: nat, st: State)
      requires Valid() && st.KnownBreaks() <= Breaks(Text())
      reads this, Repr
    {
      if offset >= |Text()| then tail.None?
      else if tail.Some? && offset >= st.treeLength then
        && offset < (if OpenRowKnown(st) && st.KnownBreaks() >= 0 then RowStart(Text(), st.KnownBreaks()) else 0)
        && InTailKnown(tail.value.a + offset - st.treeLength, index)
      else RowKnown(tree.Pieces(), offset, CurrentSources())
    }

    static ghost predicate InTailKnown(x: int, ix: Index)
      requires ix.Truthful()
    {
      RowOf(ix, x).Ok?
    }

    lemma {:induction false} OffsetKnownIs(offset: nat, st: State)
      requires Valid() && index.Truthful() && 0 <= st.KnownBreaks() <= Breaks(Text())
      ensures OffsetKnown(offset, st) <==>
                if offset >= |Text()| then tail.None?
                else if tail.Some? && offset >= st.treeLength then
                  && offset < (if OpenRowKnown(st) then RowStart(Text(), st.KnownBreaks()) else 0)
                  && InTailKnown(tail.value.a + offset - st.treeLength, index)
                else RowKnown(tree.Pieces(), offset, CurrentSources())
      ensures forall x :: InTailKnown(x, index) <==> RowOf(index, x).Ok?
    {
      hide RowKnown;
      hide OpenRowKnown;
      hide RowStart;
      hide RowOf;
      hide CurrentSources;
    }

    /** The general path of `row_at_offset`. */
    method FindRow(offset: int, st: State) returns (r: Option<Located>)
      requires Valid() && Now(st) && (tail.Some? ==> !index.complete)
      ensures r.Some? ==>
                && 0 <= offset <= |Text()| && r.value.row == Count(Text(), offset) <= Breaks(Text())
                && r.value.range == RowAt(Text(), r.value.row)
      ensures 0 <= st.KnownBreaks() <= Breaks(Text())
      ensures r.Some? <==> 0 <= offset <= |Text()| && OffsetKnown(offset, st) && RangeKnown(Count(Text(), offset), st)
      ensures Clear() && 0 <= offset <= |Text()| ==> (r.Some? <==> tail.None? || offset < RowStart(Text(), st.KnownBreaks()))
    {
      hide *;
      StateFacts(st);
      var row := RowOfOffset(offset, st);
      if row.None? {
        return None;
      }
      if tail.Some? {
        BeforeRow(Text(), offset, st.KnownBreaks());
      }
      var w := Range(row.value, st);
      r := if w.None? then None else Some(Located(row.value, w.value));
    }

    /** The row number of the general path: from the tree, from the tail, or the last row at the very end. */
    method RowOfOffset(offset: int, st: State) returns (r: Option<int>)
      requires Valid() && Now(st) && (tail.Some? ==> !index.complete)
      ensures 0 <= st.KnownBreaks() <= Breaks(Text())
      ensures r.Some? <==> 0 <= offset <= |Text()| && OffsetKnown(offset, st)
      ensures r.Some? ==> 0 <= offset <= |Text()| && r.value == Count(Text(), offset) <= Breaks(Text())
      ensures Clear() && 0 <= offset <= |Text()| && (tail.None? || (st.KnownBreaks() <= Breaks(Text()) && offset < RowStart(Text(), st.KnownBreaks()))) ==>
                r.Some?
    {
      hide *;
      Parts();
      SourcesNow();
      StateFacts(st);
      StateParts(st);
      var length := Length();
      if offset < 0 || offset > length {
        return None;
      }
      OffsetKnownIs(offset, st);
      if Clear() {
        ClearPieces();
      }
      CountMonotone(Text(), offset, |Text()|);
      WholeCount(Text());
      var row: int;
      if offset == length {
        if tail.Some? {
          RowStartInside(Text(), st.KnownBreaks());
          return None;
        }
        row := st.KnownBreaks();
      } else if tail.Some? && offset >= st.treeLength {
        var found := RowInTail(offset, st);
        if found.None? {
          return None;
        }
        row := found.value;
      } else {
        if tail.Some? {
          CountInText(TreeDoc(), original, tail.value.a, offset);
        }
        var found := tree.RowOf(offset, CurrentSources());
        if found.Err? {
          return None;
        }
        row := found.value;
      }
      r := Some(row);
    }

    /** An offset in front of a row start lies in an earlier row. */
    static lemma {:induction false} BeforeRow(d: Bytes, offset: nat, row: nat)
      requires offset <= |d| && row <= Breaks(d)
      ensures offset < RowStart(d, row) <==> Count(d, offset) < row
    {
      if offset < RowStart(d, row) {
        CountStrict(d, offset, RowStart(d, row));
      } else {
        CountMonotone(d, RowStart(d, row), offset);
      }
    }

    /** The row of an offset in the tail, from the oracle of the original. */
    method RowInTail(offset: int, st: State) returns (r: Option<int>)
      requires Valid() && Now(st) && tail.Some? && !index.complete && st.treeLength <= offset < |Text()|
      ensures r.Some? ==> r.value == Count(Text(), offset)
      ensures 0 <= st.KnownBreaks() <= Breaks(Text())
      ensures r.Some? <==> OffsetKnown(offset, st)
      ensures Clear() && offset < RowStart(Text(), st.KnownBreaks()) ==> r.Some?
    {
      hide *;
      Parts();
      StateFacts(st);
      if Clear() {
        ClearPieces();
      }
      OffsetKnownIs(offset, st);
      var t := tail.value;
      var x := t.a + offset - st.treeLength;
      var scanned := Scanned(st);
      if offset >= scanned {
        return None;
      }
      OpenBefore(TreeDoc(), index, t, st.tailKnown, st.KnownBreaks(), offset);
      var found := RowOf(index, x);
      if found.Err? {
        return None;
      }
      AnswerIsCount(index, x);
      CountInText(TreeDoc(), original, t.a, offset);
      r := Some(st.treeBreaks - (if st.Junction() then 1 else 0) + found.value - t.row0);
    }

    /** A document offset in the tail in front of the open row is scanned in the original. */
    static lemma {:induction false} OpenBefore(b: Bytes, ix: Index, t: Tail, known: int, breaks: int, offset: int)
      requires TrueTail(Some(t), ix) && !ix.complete && known == ix.count - 1 - t.row0
      requires breaks == Breaks(b) + known - if Junction(b, ix.data[t.a..]) then 1 else 0
      requires 0 <= breaks <= Breaks(b + ix.data[t.a..]) && |b| <= offset < |b| + |ix.data| - t.a
      ensures t.a + offset - |b| <= |ix.data|
      ensures offset < RowStart(b + ix.data[t.a..], breaks) && ix.lost == {} ==> RowOf(ix, t.a + offset - |b|).Ok?
    {
      hide Count;
      hide EndsAt;
      BreaksInText(b, ix.data, t.a);
      if known > 0 {
        OpenRowInTail(b, ix, t, known, breaks);
        NamedWhenScanned(ix, t.a + offset - |b|);
      } else {
        InFront(b, ix.data[t.a..], breaks);
      }
    }

    /** The start of a row that begins in the front part. */
    static lemma {:induction false} InFront(b: Bytes, t: Bytes, row: int)
      requires 0 <= row <= Breaks(b) - if Junction(b, t) then 1 else 0
      ensures row <= Breaks(b + t) && RowStart(b + t, row) <= |b|
    {
      if row > 0 {
        FrontBreak(b, t, row);
        if Junction(b, t) {
          CrLast(b);
        }
      }
    }

    static lemma {:induction false} WholeCount(d: Bytes)
      ensures Count(d, |d|) == Breaks(d)
    {
    }

    static lemma {:induction false} IndexOffset(ix: Index, offset: int)
      requires ix.Truthful()
      ensures ix.RowAtOffset(offset).Some? ==>
                var f := ix.RowAtOffset(offset).value;
                0 <= offset <= |ix.data| && f.row == Count(ix.data, offset) <= Breaks(ix.data) && f.range == RowAt(ix.data, f.row)
      ensures ix.dead == {} && ix.lost == {} && 0 <= offset <= |ix.data| ==>
                (ix.RowAtOffset(offset).Some? <==> ix.complete || offset < ix.scanned)
    {
      hide RowAt;
      if 0 <= offset <= |ix.data| {
        CountMonotone(ix.data, offset, |ix.data|);
      }
    }

    /**
     `snapshot`: the known breaks and the start of the open row, or what the index says while the document is its file.
     The row count is a lower bound and exact once the tail is gone.
     */
    method TakeSnapshot() returns (r: Snapshot, ghost st: State)
      requires Valid()
      modifies Repr
      ensures Valid() && fresh(Repr - old(Repr)) && Text() == old(Text()) && Places() == old(Places()) && index == old(index)
      ensures Now(st) && 0 <= st.KnownBreaks() <= Breaks(Text())
      ensures Identical() ==> r == Snapshot(index.count, index.complete, index.scanned)
      ensures !Identical() ==>
                r == Snapshot(st.KnownBreaks() + 1, tail.None?,
                              if tail.None? then |Text()| else if OpenRowKnown(st) then RowStart(Text(), st.KnownBreaks()) else 0)
      ensures !Identical() && Clear() && tail.Some? ==> r.scanned == RowStart(Text(), st.KnownBreaks())
      ensures r.count <= Breaks(Text()) + 1 && 0 <= r.scanned <= |Text()|
      ensures r.complete ==> r.count == Breaks(Text()) + 1 && r.scanned == |Text()|
      ensures index.complete ==> r.complete
      ensures !r.complete && r.scanned > 0 ==> r.count >= 1 && r.scanned == RowStart(Text(), r.count - 1)
    {
      hide *;
      Refresh();
      Parts();
      var now := TakeState();
      st := now;
      StateFacts(now);
      IndexCounts(index);
      var identity := IsIdentity();
      if identity {
        return Snapshot(index.count, index.complete, index.scanned), now;
      }
      var scanned := Scanned(now);
      RowStartInside(Text(), now.KnownBreaks());
      r := Snapshot(now.KnownBreaks() + 1, now.tail.None?, scanned);
    }

    static lemma {:induction false} IndexCounts(ix: Index)
      requires ix.Truthful()
      ensures 1 <= ix.count <= Breaks(ix.data) + 1 && ix.scanned <= |ix.data|
      ensures ix.complete ==> ix.count == Breaks(ix.data) + 1 && ix.scanned == |ix.data|
      ensures !ix.complete ==> ix.scanned == RowStart(ix.data, ix.count - 1)
    {
    }

    static lemma {:induction false} RowStartInside(d: Bytes, row: int)
      ensures 0 <= row <= Breaks(d) ==> 0 <= RowStart(d, row) <= |d|
    {
    }

    /** `layout_range`: the runs that make up `[start, end)`, in document order; what a save writes. */
    method LayoutRange(start: int, end: int) returns (r: Result<seq<Run>>)
      requires Valid()
      modifies Repr
      ensures Valid() && fresh(Repr - old(Repr)) && Text() == old(Text()) && Places() == old(Places())
      ensures index == old(index) && store == old(store) && legacy == old(legacy)
      ensures r.Ok? <==> 0 <= start <= end <= |Text()| == |Places()|
      ensures r.Err? ==> r == Err(ValueError)
      ensures r.Ok? ==> RunsPlaces(r.value) == Places()[start..end] && GoodRuns(r.value, CurrentSources())
    {
      hide *;
      Refresh();
      TextAtPlaces();
      Parts();
      SourcesNow();
      var length := Length();
      if !(0 <= start <= end <= length) {
        return Err(ValueError);
      }
      var runs := RunsBetween(start, end);
      r := Ok(runs);
    }

    method RunsBetween(start: nat, end: nat) returns (runs: seq<Run>)
      requires Valid() && start <= end <= |Places()|
      ensures RunsPlaces(runs) == Places()[start..end] && GoodRuns(runs, CurrentSources())
    {
      hide *;
      Parts();
      SourcesNow();
      var S := CurrentSources();
      tree.Facts();
      tree.RootAgg(S);
      var treeLength := tree.root.agg.length;
      runs := [];
      NoRuns(S);
      ghost var a, t := Addr(tree.Pieces()), TailPlaces(tail, |original|);
      var stop := if end < treeLength then end else treeLength;
      if start < stop {
        var found := tree.IterRange(start, stop);
        var overlaps := found.value;
        var i := 0;
        assert overlaps[..0] == [];
        PieceTree.CropsNone();
        while i < |overlaps|
          invariant 0 <= i <= |overlaps| && RunsPlaces(runs) == Addr(Crops(overlaps[..i])) && GoodRuns(runs, S)
        {
          var o := overlaps[i];
          OverlapRun(overlaps, i, tree.Pieces(), S);
          RunsSnoc(runs, Run(o.piece.src, o.piece.a + o.lo, o.piece.a + o.hi));
          GoodSnoc(runs, Run(o.piece.src, o.piece.a + o.lo, o.piece.a + o.hi), S);
          runs := runs + [Run(o.piece.src, o.piece.a + o.lo, o.piece.a + o.hi)];
          i := i + 1;
        }
        assert overlaps[..i] == overlaps;
      }
      if tail.Some? && end > treeLength && end > start {
        TailIs(tail.value, index);
        var run := Run(0, tail.value.a + (if start > treeLength then start - treeLength else 0), tail.value.a + end - treeLength);
        TailRun(a, tail.value, |original|, start, end, run);
        RunsSnoc(runs, run);
        GoodSnoc(runs, run, S);
        runs := runs + [run];
      } else {
        if tail.None? {
          NoTailText(tail, original, []);
        }
        FrontRun(a, t, start, end);
      }
    }

    static lemma {:induction false} NoRuns(S: Sources)
      ensures RunsPlaces([]) == [] && GoodRuns([], S)
    {
    }

    static lemma {:induction false} GoodSnoc(runs: seq<Run>, r: Run, S: Sources)
      requires GoodRuns(runs, S) && r.src in S && r.a < r.b <= |S[r.src].data|
      ensures GoodRuns(runs + [r], S)
    {
    }

    static lemma {:induction false} OverlapRun(overlaps: seq<Overlap>, i: nat, ps: seq<Piece>, S: Sources)
      requires i < |overlaps| && AllTrue(ps, S) && overlaps[i].piece in ps
      requires 0 <= overlaps[i].lo < overlaps[i].hi <= overlaps[i].piece.b - overlaps[i].piece.a
      ensures var o := overlaps[i];
              && o.piece.src in S && o.piece.a + o.hi <= |S[o.piece.src].data|
              && Addr(Crops(overlaps[..i + 1])) == Addr(Crops(overlaps[..i])) + RunPlaces(Run(o.piece.src, o.piece.a + o.lo, o.piece.a + o.hi))
    {
      hide *;
      var o := overlaps[i];
      assert overlaps[..i + 1] == overlaps[..i] + [o];
      PieceTree.CropsSnoc(overlaps[..i], o);
      AddrConcat(Crops(overlaps[..i]), [Crop(o)]);
      Addr1Is(Crop(o));
      CropRun(o);
      var k :| 0 <= k < |ps| && ps[k] == o.piece;
      AllTrueAt(ps, k, S);
      TrueParts(o.piece, S);
    }

    static lemma {:induction false} CropRun(o: Overlap)
      requires 0 <= o.lo < o.hi <= o.piece.b - o.piece.a
      ensures Addr1(Crop(o)) == RunPlaces(Run(o.piece.src, o.piece.a + o.lo, o.piece.a + o.hi))
    {
    }

    /** The run of the tail completes the range. */
    static lemma {:induction false} TailRun(a: seq<Loc>, t: Tail, length: nat, start: nat, end: nat, run: Run)
      requires t.a < length && start <= end <= |a| + length - t.a && end > |a| && end > start
      requires run == Run(0, t.a + (if start > |a| then start - |a| else 0), t.a + end - |a|)
      ensures run.a < run.b <= length
      ensures (if start < |a| then a[start..|a|] else []) + RunPlaces(run) == (a + TailPlaces(Some(t), length))[start..end]
    {
    }

    static lemma {:induction false} FrontRun(a: seq<Loc>, t: seq<Loc>, start: nat, end: nat)
      requires start <= end <= |a + t|
      ensures end <= |a| ==> (if start < end then a[start..end] else []) == (a + t)[start..end]
      ensures start == end ==> (a + t)[start..end] == []
    {
    }
  }
}
