/**
 After a save every piece that undo records and the clipboard still hold is rewritten onto the saved file
 (`rebase.py`): bytes the file contains become pieces of it, other bytes are copied or kept with the old files.
 */
module Rebase {
  import opened Rows
  import opened Pieces
  import opened AddStore
  import opened SourceMap
  import opened SaveLayout
  import opened PieceSeq
  import opened SparseRows
  import Navigation

  /** A part of an old piece: present in the saved file at `out`, or an orphan range of the old source. */
  datatype Part = Part(present: bool, a: nat, b: nat, out: nat)

  /** A range of an old source that the saved file does not contain. */
  datatype Orphan = Orphan(src: nat, a: nat, b: nat)

  /** What the table referred to before the save. */
  datatype World = World(original: Source, segments: seq<Bytes>, legacy: seq<Legacy>) {
    function All(): Sources { SourcesOf(original, segments, legacy) }
  }

  datatype Plan = Plan(contents: seq<Content>, store: StoreView, retained: Option<Legacy>, clearHistory: bool, orphanBytes: nat)

  /** The run really is what the new file holds there. */
  ghost predicate TrueRun(w: Written, S: Sources, file: Bytes) {
    && w.a <= w.b
    && w.src in S && w.b <= |S[w.src].data| && w.out + w.b - w.a <= |file|
    && file[w.out..w.out + w.b - w.a] == S[w.src].data[w.a..w.b]
  }

  ghost predicate TrueRuns(runs: seq<Written>, S: Sources, file: Bytes) {
    forall k :: 0 <= k < |runs| ==> TrueRun(runs[k], S, file)
  }

  // ----- parts ---------------------------------------------------------------------------------------

  /** The parts cover `[a, b)` without gap or overlap, and none is empty. */
  ghost predicate Tiles(parts: seq<Part>, a: nat, b: nat) {
    if parts == [] then a == b
    else parts[|parts| - 1].b == b && parts[|parts| - 1].a < b && Tiles(parts[..|parts| - 1], a, parts[|parts| - 1].a)
  }

  /** Present parts point to the first occurrence of each of their bytes, orphans occur nowhere in the file. */
  ghost predicate TruePart(p: Part, src: nat, runs: seq<Written>) {
    && (p.present ==> forall y :: p.a <= y < p.b ==> FoundAt(runs, src, y, p))
    && (!p.present ==> forall y :: p.a <= y < p.b ==> !CoveredBy(runs, src, y))
  }

  ghost predicate FoundAt(runs: seq<Written>, src: nat, y: int, p: Part) {
    exists k: nat :: Owns(runs, src, k, y) && p.out + y - p.a == PlaceOf(runs[k], y)
  }

  ghost predicate TrueParts(parts: seq<Part>, src: nat, runs: seq<Written>) {
    forall i :: 0 <= i < |parts| ==> TruePart(parts[i], src, runs)
  }

  lemma {:induction false} TilesSnoc(parts: seq<Part>, a: nat, b: nat, p: Part, src: nat, runs: seq<Written>)
    requires Tiles(parts, a, b) && p.a == b < p.b && TrueParts(parts, src, runs) && TruePart(p, src, runs)
    ensures Tiles(parts + [p], a, p.b) && TrueParts(parts + [p], src, runs)
  {
    hide TruePart;
    assert (parts + [p])[..|parts|] == parts;
  }

  /** Part of an interval: its bytes are at their first occurrence. */
  lemma {:induction false} PresentPart(ivs: seq<Interval>, i: nat, low: nat, high: nat, src: nat, runs: seq<Written>)
    requires FirstOccurrences(ivs, runs, src) && i < |ivs| && ivs[i].a <= low <= high <= ivs[i].b
    ensures TruePart(Part(true, low, high, ivs[i].out + low - ivs[i].a), src, runs)
  {
    var p := Part(true, low, high, ivs[i].out + low - ivs[i].a);
    forall y | low <= y < high
      ensures FoundAt(runs, src, y, p)
    {
      assert Holds(ivs[i], y);
      assert Sent(ivs[i], runs, src, y);
      var k: nat :| Owns(runs, src, k, y) && PlaceIn(ivs[i], y) == PlaceOf(runs[k], y);
    }
  }

  /** Between two intervals nothing is in the file. */
  lemma {:induction false} OrphanPart(ivs: seq<Interval>, i: nat, low: nat, high: nat, src: nat, runs: seq<Written>)
    requires FirstOccurrences(ivs, runs, src) && i <= |ivs| && low <= high
    requires forall j :: 0 <= j < i ==> ivs[j].b <= low
    requires i < |ivs| ==> high <= ivs[i].a
    ensures TruePart(Part(false, low, high, 0), src, runs)
  {
    forall y | low <= y < high
      ensures !CoveredBy(runs, src, y)
    {
      forall j | 0 <= j < |ivs|
        ensures !Holds(ivs[j], y)
      {
        if j > i {
          assert ivs[i].b <= ivs[j].a;
        }
      }
      assert !HeldBy(ivs, y);
    }
  }

  // ----- carrying places over ------------------------------------------------------------------------

  /**
   Byte `m` stands for the old byte `l`: the same value, legacy places unchanged, and a byte that the file
   contains is taken from the file.
   */
  ghost predicate Carry(l: Loc, m: Loc, S: Sources, T: Sources, runs: seq<Written>) {
    && ByteAt(m, T) == ByteAt(l, S)
    && (GenerationOf(l.src) > 0 ==> m == l)
    && (GenerationOf(l.src) == 0 ==> forall k: nat :: Owns(runs, l.src, k, l.at) ==> m == Loc(0, PlaceOf(runs[k], l.at)))
  }

  ghost predicate Carried(ls: seq<Loc>, ms: seq<Loc>, S: Sources, T: Sources, runs: seq<Written>) {
    |ls| == |ms| && forall i :: 0 <= i < |ls| ==> Carry(ls[i], ms[i], S, T, runs)
  }

  lemma {:induction false} CarriedJoin(a: seq<Loc>, b: seq<Loc>, c: seq<Loc>, d: seq<Loc>, S: Sources, T: Sources, runs: seq<Written>)
    requires Carried(a, c, S, T, runs) && Carried(b, d, S, T, runs)
    ensures Carried(a + b, c + d, S, T, runs)
  {
    hide Carry;
  }

  /** Carried places denote the same bytes. */
  lemma {:induction false} CarriedBytes(ls: seq<Loc>, ms: seq<Loc>, S: Sources, T: Sources, runs: seq<Written>)
    requires Carried(ls, ms, S, T, runs)
    ensures BytesAt(ls, S) == BytesAt(ms, T)
  {
    hide ByteAt;
    forall i | 0 <= i < |ls|
      ensures ByteAt(ls[i], S) == ByteAt(ms[i], T)
    {
      assert Carry(ls[i], ms[i], S, T, runs);
    }
  }

  /** A present part becomes a piece of the saved file. */
  lemma {:induction false} CarryPresent(src: nat, p: Part, q: Piece, S: Sources, T: Sources, runs: seq<Written>, file: Bytes)
    requires p.present && TruePart(p, src, runs) && TrueRuns(runs, S, file) && GenerationOf(src) == 0
    requires 0 in T && T[0].data == file && q.src == 0 && q.a == p.out && q.b == p.out + p.b - p.a && p.a < p.b
    ensures Carried(RunPlaces(Run(src, p.a, p.b)), Addr1(q), S, T, runs)
  {
    var ls, ms := RunPlaces(Run(src, p.a, p.b)), Addr1(q);
    forall i | 0 <= i < |ls|
      ensures Carry(ls[i], ms[i], S, T, runs)
    {
      assert FoundAt(runs, src, p.a + i, p);
      FoundByte(src, p.a + i, p, S, T, runs, file);
    }
  }

  lemma {:induction false} FoundByte(src: nat, y: nat, p: Part, S: Sources, T: Sources, runs: seq<Written>, file: Bytes)
    requires FoundAt(runs, src, y, p) && TrueRuns(runs, S, file) && 0 in T && T[0].data == file && p.a <= y
    ensures ByteAt(Loc(0, p.out + y - p.a), T) == ByteAt(Loc(src, y), S)
    ensures forall k: nat :: Owns(runs, src, k, y) ==> p.out + y - p.a == PlaceOf(runs[k], y)
  {
    var k: nat :| Owns(runs, src, k, y) && p.out + y - p.a == PlaceOf(runs[k], y);
    var w := runs[k];
    assert TrueRun(w, S, file);
    assert file[w.out..w.out + w.b - w.a][y - w.a] == S[src].data[w.a..w.b][y - w.a];
    forall j: nat | Owns(runs, src, j, y)
      ensures j == k
    {
    }
  }

  /** An orphan part, wherever the same bytes now lie. */
  lemma {:induction false} CarryOrphan(src: nat, p: Part, q: Piece, S: Sources, T: Sources, runs: seq<Written>)
    requires !p.present && TruePart(p, src, runs) && GenerationOf(src) == 0 && p.a < p.b
    requires src in S && p.b <= |S[src].data| && Readable(q, T) && PieceBytes(q, T) == S[src].data[p.a..p.b]
    ensures Carried(RunPlaces(Run(src, p.a, p.b)), Addr1(q), S, T, runs)
  {
    var ls, ms := RunPlaces(Run(src, p.a, p.b)), Addr1(q);
    assert |PieceBytes(q, T)| == p.b - p.a;
    forall i | 0 <= i < |ls|
      ensures Carry(ls[i], ms[i], S, T, runs)
    {
      assert PieceBytes(q, T)[i] == S[src].data[p.a..p.b][i];
      NotOwned(runs, src, p.a + i);
    }
  }

  lemma {:induction false} NotOwned(runs: seq<Written>, src: nat, y: int)
    requires !CoveredBy(runs, src, y)
    ensures forall k: nat :: !Owns(runs, src, k, y)
  {
    forall k: nat
      ensures !Owns(runs, src, k, y)
    {
      assert k < |runs| ==> !Covers(runs[k], src, y);
    }
  }

  /** A legacy piece stays as it is. */
  lemma {:induction false} CarryLegacy(p: Piece, S: Sources, T: Sources, runs: seq<Written>)
    requires GenerationOf(p.src) > 0 && p.src in S && p.src in T && T[p.src].data == S[p.src].data
    ensures Carried(Addr1(p), Addr1(p), S, T, runs)
  {
  }

  // ----- the new sources -------------------------------------------------------------------------------

  /** Where piece numbers lead after the save. */
  ghost function NewSources(w: World, newOriginal: Source, segments: seq<Bytes>, retained: Option<Legacy>): Sources {
    SourcesOf(newOriginal, segments, w.legacy + if retained.Some? then [retained.value] else [])
  }

  /** Old generations keep their numbers; a retained generation holds the old live sources. */
  lemma {:induction false} OldSourcesMove(w: World, newOriginal: Source, segments: seq<Bytes>, retained: Option<Legacy>, src: nat)
    requires src in w.All()
    ensures var T := NewSources(w, newOriginal, segments, retained);
            && (GenerationOf(src) > 0 ==> src in T && T[src] == w.All()[src])
            && (retained == Some(Legacy(w.original, w.segments)) && GenerationOf(src) == 0 ==>
                  var moved := (|w.legacy| + 1) * SEGMENTS + SegmentOf(src);
                  && MakeSrc(|w.legacy| + 1, SegmentOf(src)) == Ok(moved) && GenerationOf(moved) == |w.legacy| + 1
                  && moved in T && T[moved] == w.All()[src])
  {
    var legacy := w.legacy + if retained.Some? then [retained.value] else [];
    Lookup(src, w.original, w.segments, w.legacy);
    Lookup(src, newOriginal, segments, legacy);
    var moved := (|w.legacy| + 1) * SEGMENTS + SegmentOf(src);
    Lookup(moved, newOriginal, segments, legacy);
  }

  /** A true piece stays true under another number of the same source. */
  lemma {:induction false} Renumbered(p: Piece, src: nat, S: Sources, T: Sources)
    requires TruePiece(p, S) && src in T && T[src] == S[p.src]
    ensures TruePiece(p.(src := src), T) && PieceBytes(p.(src := src), T) == PieceBytes(p, S)
  {
    hide AggOf;
    hide Count;
  }

  // ----- what a translation must keep ----------------------------------------------------------------

  /** `d` denotes after the save what `c` denoted before, and its copied summary is the one of its bytes. */
  ghost predicate Keeps(c: Content, d: Content, S: Sources, T: Sources) {
    && AllTrue(d.pieces, T) && TrueContent(d, T)
    && Doc(d.pieces, T) == Doc(c.pieces, S)
    && d.Agg() == c.Agg() && d.tailChars == c.tailChars
  }

  ghost predicate AllKept(cs: seq<Content>, ds: seq<Content>, S: Sources, T: Sources) {
    |cs| == |ds| && forall i :: 0 <= i < |cs| ==> Keeps(cs[i], ds[i], S, T)
  }

  ghost predicate TrueContents(cs: seq<Content>, S: Sources) {
    forall i :: 0 <= i < |cs| ==> TrueContent(cs[i], S)
  }

  /** Other pieces for the same bytes; the summary is copied (`_with_pieces`). */
  function WithPieces(c: Content, pieces: seq<Piece>): Content {
    c.(pieces := pieces)
  }

  lemma {:induction false} CopiedSummary(c: Content, pieces: seq<Piece>, S: Sources, T: Sources)
    requires TrueContent(c, S) && AllTrue(pieces, T) && Doc(pieces, T) == Doc(c.pieces, S)
    ensures Keeps(c, WithPieces(c, pieces), S, T)
  {
    hide Doc;
    hide AllTrue;
    hide AggOf;
  }

  lemma {:induction false} KeptSnoc(cs: seq<Content>, ds: seq<Content>, i: nat, d: Content, S: Sources, T: Sources)
    requires i < |cs| && |ds| == i && AllKept(cs[..i], ds, S, T) && Keeps(cs[i], d, S, T)
    ensures AllKept(cs[..i + 1], ds + [d], S, T)
  {
    hide Keeps;
  }

  lemma {:induction false} TrueContentAt(cs: seq<Content>, i: nat, S: Sources)
    requires TrueContents(cs, S) && i < |cs|
    ensures TrueContent(cs[i], S) && AllTrue(cs[i].pieces, S)
  {
    hide AllTrue;
  }

  /** The plan of a save: the history is given up only when no generation is free, else everything is kept. */
  ghost predicate GoodPlan(plan: Plan, contents: seq<Content>, w: World, newOriginal: Source, maxGeneration: nat) {
    && (plan.clearHistory ==> plan.contents == [] && plan.retained == None && |w.legacy| + 1 > maxGeneration)
    && (plan.retained.Some? ==> plan.retained == Some(Legacy(w.original, w.segments)) && |w.legacy| + 1 <= maxGeneration)
    && (!plan.clearHistory ==>
          AllKept(contents, plan.contents, w.All(), NewSources(w, newOriginal, plan.store.segments, plan.retained)))
  }

  /** A piece refers to a file that the table still has: a live segment, an older generation, or the one kept by this save. */
  ghost predicate Refers(p: Piece, w: World, segments: seq<Bytes>, retained: Option<Legacy>) {
    var generation, segment := GenerationOf(p.src), SegmentOf(p.src);
    if generation == 0 then segment <= |segments|
    else if generation <= |w.legacy| then segment <= |w.legacy[generation - 1].segments|
    else generation == |w.legacy| + 1 && retained.Some? && segment <= |retained.value.segments|
  }

  /**
   Whatever plan a save makes, no piece of its contents refers to a dropped source, and each lies inside the source it
   refers to: the files of before the save are referred to only when the plan keeps them.
   */
  lemma {:induction false} NoDroppedSource(plan: Plan, contents: seq<Content>, w: World, newOriginal: Source, maxGeneration: nat, i: nat, p: Piece)
    requires GoodPlan(plan, contents, w, newOriginal, maxGeneration) && i < |plan.contents| && p in plan.contents[i].pieces
    ensures Refers(p, w, plan.store.segments, plan.retained)
    ensures Readable(p, NewSources(w, newOriginal, plan.store.segments, plan.retained))
  {
    hide AggOf;
    hide Count;
    hide Doc;
    hide TrueContent;
    hide SourcesOf;
    var T := NewSources(w, newOriginal, plan.store.segments, plan.retained);
    assert Keeps(contents[i], plan.contents[i], w.All(), T);
    var k :| 0 <= k < |plan.contents[i].pieces| && p == plan.contents[i].pieces[k];
    assert TruePiece(plan.contents[i].pieces[k], T);
    Lookup(p.src, newOriginal, plan.store.segments, w.legacy + if plan.retained.Some? then [plan.retained.value] else []);
  }

  // ----- keeping everything ----------------------------------------------------------------------------

  /** Piece `p` under the retained generation when it was live. */
  function InGeneration(p: Piece, generation: nat): Piece {
    if GenerationOf(p.src) == 0 then p.(src := generation * SEGMENTS + SegmentOf(p.src)) else p
  }

  function AllInGeneration(ps: seq<Piece>, generation: nat): seq<Piece> {
    seq(|ps|, i requires 0 <= i < |ps| => InGeneration(ps[i], generation))
  }

  /** Renumbering every live piece keeps truth and bytes. */
  lemma {:induction false} GenerationKeeps(ps: seq<Piece>, w: World, newOriginal: Source, segments: seq<Bytes>)
    requires AllTrue(ps, w.All())
    ensures var T := NewSources(w, newOriginal, segments, Some(Legacy(w.original, w.segments)));
            var qs := AllInGeneration(ps, |w.legacy| + 1);
            AllTrue(qs, T) && Doc(qs, T) == Doc(ps, w.All())
  {
    hide *;
    var S := w.All();
    var T := NewSources(w, newOriginal, segments, Some(Legacy(w.original, w.segments)));
    var qs := AllInGeneration(ps, |w.legacy| + 1);
    if ps == [] {
      NothingMoved(|w.legacy| + 1, S, T);
    } else {
      var n := |ps| - 1;
      AllTrueParts(ps, n, S);
      AllTrueAt(ps, n, S);
      GenerationKeeps(ps[..n], w, newOriginal, segments);
      Navigation.PieceFacts(ps[n], S);
      LiveAt(ps[n], S);
      OldSourcesMove(w, newOriginal, segments, Some(Legacy(w.original, w.segments)), ps[n].src);
      var q := InGeneration(ps[n], |w.legacy| + 1);
      MovedIs(ps[n], |w.legacy| + 1);
      Renumbered(ps[n], q.src, S, T);
      MovedSnoc(ps, |w.legacy| + 1);
      var front := AllInGeneration(ps[..n], |w.legacy| + 1);
      Navigation.PieceFacts(q, T);
      PieceDoc(q, T);
      PieceDoc(ps[n], S);
      DocConcat(front, [q], T);
      DocConcat(ps[..n], [ps[n]], S);
      AllTrueTwo(q, q, T);
      AllTrueJoin(front, [q], T);
    }
  }

  lemma {:induction false} NothingMoved(generation: nat, S: Sources, T: Sources)
    ensures AllInGeneration([], generation) == [] && AllTrue([], T) && Doc([], T) == Doc([], S) == []
  {
  }

  lemma {:induction false} LiveAt(p: Piece, S: Sources)
    requires Readable(p, S)
    ensures p.src in S
  {
  }

  lemma {:induction false} MovedIs(p: Piece, generation: nat)
    ensures var q := InGeneration(p, generation);
            q == p.(src := q.src) && q.src == if GenerationOf(p.src) == 0 then generation * SEGMENTS + SegmentOf(p.src) else p.src
  {
  }

  lemma {:induction false} MovedSnoc(ps: seq<Piece>, generation: nat)
    requires ps != []
    ensures var n := |ps| - 1;
            && ps == ps[..n] + [ps[n]]
            && AllInGeneration(ps, generation) == AllInGeneration(ps[..n], generation) + [InGeneration(ps[n], generation)]
  {
  }

  /** `retain_all`: always correct, only wasteful. */
  method RetainAll(contents: seq<Content>, store: StoreView, oldFiles: Option<Legacy>, w: World, maxGeneration: nat, newOriginal: Source)
      returns (r: Result<Plan>)
    requires TrueContents(contents, w.All())
    requires oldFiles.Some? ==> oldFiles.value == Legacy(w.original, w.segments)
    ensures r.Ok? ==> GoodPlan(r.value, contents, w, newOriginal, maxGeneration) && r.value.store == store
    ensures r.Ok? ==> (r.value.clearHistory <==> |w.legacy| + 1 > maxGeneration) && (r.value.clearHistory || r.value.retained.Some?)
    ensures r.Err? <==> |w.legacy| + 1 <= maxGeneration && oldFiles.None?
    ensures r.Err? ==> r == Err(ValueError)
  {
    hide *;
    var generation := |w.legacy| + 1;
    if generation > maxGeneration {
      r := Ok(Plan([], store, None, true, 0));
      ClearedPlan(r.value, contents, w, newOriginal, maxGeneration);
      return;
    }
    if oldFiles.None? {
      return Err(ValueError);
    }
    ghost var S, T := w.All(), NewSources(w, newOriginal, store.segments, oldFiles);
    var moved: seq<Content>, i := [], 0;
    KeptNone(contents, S, T);
    while i < |contents|
      invariant 0 <= i <= |contents| && |moved| == i && AllKept(contents[..i], moved, S, T)
    {
      var c := contents[i];
      TrueContentAt(contents, i, S);
      GenerationKeeps(c.pieces, w, newOriginal, store.segments);
      CopiedSummary(c, AllInGeneration(c.pieces, generation), S, T);
      KeptSnoc(contents, moved, i, WithPieces(c, AllInGeneration(c.pieces, generation)), S, T);
      moved := moved + [WithPieces(c, AllInGeneration(c.pieces, generation))];
      i := i + 1;
    }
    assert contents[..i] == contents;
    r := Ok(Plan(moved, store, oldFiles, false, 0));
    KeptPlan(r.value, contents, w, newOriginal, maxGeneration);
  }

  lemma {:induction false} KeptNone(contents: seq<Content>, S: Sources, T: Sources)
    ensures AllKept(contents[..0], [], S, T)
  {
  }

  lemma {:induction false} ClearedPlan(plan: Plan, contents: seq<Content>, w: World, newOriginal: Source, maxGeneration: nat)
    requires plan.clearHistory && plan.contents == [] && plan.retained == None && |w.legacy| + 1 > maxGeneration
    ensures GoodPlan(plan, contents, w, newOriginal, maxGeneration)
  {
  }

  lemma {:induction false} KeptPlan(plan: Plan, contents: seq<Content>, w: World, newOriginal: Source, maxGeneration: nat)
    requires !plan.clearHistory
    requires plan.retained.Some? ==> plan.retained == Some(Legacy(w.original, w.segments)) && |w.legacy| + 1 <= maxGeneration
    requires AllKept(contents, plan.contents, w.All(), NewSources(w, newOriginal, plan.store.segments, plan.retained))
    ensures GoodPlan(plan, contents, w, newOriginal, maxGeneration)
  {
    hide AllKept;
    hide NewSources;
  }

  // ----- what the file lacks ---------------------------------------------------------------------------

  /** A piece of one of the contents that refers to the table's own files. */
  ghost predicate Live(p: Piece, contents: seq<Content>) {
    GenerationOf(p.src) == 0 && exists i :: 0 <= i < |contents| && p in contents[i].pieces
  }

  /** A range of the piece that the new file holds nothing of, as long as it can be. */
  ghost predicate Gap(o: Orphan, p: Piece, runs: seq<Written>) {
    && o.src == p.src && p.a <= o.a < o.b <= p.b
    && (forall y :: o.a <= y < o.b ==> !CoveredBy(runs, o.src, y))
    && (o.a > p.a ==> CoveredBy(runs, o.src, o.a - 1))
    && (o.b < p.b ==> CoveredBy(runs, o.src, o.b))
  }

  /** The list holds every range that the contents need and the new file lacks, each once, and no other. */
  ghost predicate Lacks(orphans: seq<Orphan>, contents: seq<Content>, runs: seq<Written>) {
    && (forall i, j :: 0 <= i < j < |orphans| ==> orphans[i] != orphans[j])
    && (forall o :: o in orphans ==> exists p :: Live(p, contents) && Gap(o, p, runs))
    && (forall o, p :: Live(p, contents) && Gap(o, p, runs) ==> o in orphans)
  }

  /** The length of all the distinct ranges that the new file lacks. */
  ghost predicate LackedBytes(n: nat, contents: seq<Content>, runs: seq<Written>) {
    exists orphans: seq<Orphan> :: Lacks(orphans, contents, runs) && n == Total(orphans)
  }

  /** The order in which the ranges are met does not matter: there is one such length. */
  lemma {:induction false} OneLength(m: nat, n: nat, contents: seq<Content>, runs: seq<Written>)
    requires LackedBytes(m, contents, runs) && LackedBytes(n, contents, runs)
    ensures m == n
  {
    hide Gap;
    hide Live;
    hide Total;
    var xs: seq<Orphan> :| Lacks(xs, contents, runs) && m == Total(xs);
    var ys: seq<Orphan> :| Lacks(ys, contents, runs) && n == Total(ys);
    forall o
      ensures o in xs <==> o in ys
    {
      if o in xs {
        var p :| Live(p, contents) && Gap(o, p, runs);
      }
      if o in ys {
        var p :| Live(p, contents) && Gap(o, p, runs);
      }
    }
    SameTotal(xs, ys);
  }

  lemma {:induction false} SameTotal(xs: seq<Orphan>, ys: seq<Orphan>)
    requires forall i, j :: 0 <= i < j < |xs| ==> xs[i] != xs[j]
    requires forall i, j :: 0 <= i < j < |ys| ==> ys[i] != ys[j]
    requires forall o :: o in xs <==> o in ys
    ensures Total(xs) == Total(ys)
    decreases |xs|
  {
    assert ys != [] ==> ys[0] in ys;
    if xs != [] {
      var n := |xs| - 1;
      assert xs[n] in ys;
      var k :| 0 <= k < |ys| && ys[k] == xs[n];
      var rest := ys[..k] + ys[k + 1..];
      TotalWithout(ys, k);
      forall o
        ensures o in xs[..n] <==> o in rest
      {
        WithoutHas(xs, n, o);
        WithoutHas(ys, k, o);
        assert xs[..n] + xs[n + 1..] == xs[..n];
      }
      SameTotal(xs[..n], rest);
    }
  }

  lemma {:induction false} WithoutHas(ys: seq<Orphan>, k: nat, o: Orphan)
    requires k < |ys| && forall i, j :: 0 <= i < j < |ys| ==> ys[i] != ys[j]
    ensures o in ys[..k] + ys[k + 1..] <==> o in ys && o != ys[k]
  {
    if o in ys && o != ys[k] {
      var i :| 0 <= i < |ys| && ys[i] == o;
      assert i < k ==> ys[..k][i] == o;
      assert i > k ==> ys[k + 1..][i - k - 1] == o;
    }
  }

  lemma {:induction false} TotalWithout(ys: seq<Orphan>, k: nat)
    requires k < |ys|
    ensures Total(ys) == Total(ys[..k] + ys[k + 1..]) + ys[k].b - ys[k].a
    decreases |ys|
  {
    var n := |ys| - 1;
    if k < n {
      var zs := ys[..n];
      TotalWithout(zs, k);
      var rest := ys[..k] + ys[k + 1..];
      assert rest[..n - 1] == zs[..k] + zs[k + 1..];
      assert rest[n - 1] == ys[n];
    } else {
      assert ys[..k] + ys[k + 1..] == ys[..n];
    }
  }

  /** The orphan parts of a piece are its gaps. */
  lemma {:induction false} OrphansAreGaps(p: Piece, parts: seq<Part>, runs: seq<Written>, i: nat)
    requires GoodParts(p, parts, runs) && i < |parts| && !parts[i].present
    ensures Gap(Orphan(p.src, parts[i].a, parts[i].b), p, runs)
  {
    hide FoundAt;
    hide CoveredBy;
    hide Tiles;
    TilesAt(parts, p.a, p.b, i);
    assert TruePart(parts[i], p.src, runs);
    if parts[i].a > p.a {
      TilesBefore(parts, p.a, p.b, i);
      TilesAt(parts, p.a, p.b, i - 1);
      EdgeCovered(parts[i - 1], p.src, runs, parts[i].a - 1);
    }
    if parts[i].b < p.b {
      TilesAt(parts, p.a, p.b, i + 1);
      EdgeCovered(parts[i + 1], p.src, runs, parts[i].b);
    }
  }

  lemma {:induction false} TilesBefore(parts: seq<Part>, a: nat, b: nat, i: nat)
    requires Tiles(parts, a, b) && i < |parts| && parts[i].a > a
    ensures i > 0
  {
    TilesAt(parts, a, b, i);
    assert parts[..0] == [];
  }

  lemma {:induction false} EdgeCovered(p: Part, src: nat, runs: seq<Written>, y: nat)
    requires p.present && TruePart(p, src, runs) && p.a <= y < p.b
    ensures CoveredBy(runs, src, y)
  {
    assert FoundAt(runs, src, y, p);
    var k: nat :| Owns(runs, src, k, y) && p.out + y - p.a == PlaceOf(runs[k], y);
    if !CoveredBy(runs, src, y) {
      NotOwned(runs, src, y);
    }
  }

  /** Every gap of a piece is one of its orphan parts. */
  lemma {:induction false} GapsAreOrphans(o: Orphan, p: Piece, parts: seq<Part>, runs: seq<Written>) returns (i: nat)
    requires GoodParts(p, parts, runs) && Gap(o, p, runs)
    ensures i < |parts| && !parts[i].present && o == Orphan(p.src, parts[i].a, parts[i].b)
  {
    hide FoundAt;
    hide CoveredBy;
    hide Tiles;
    i := TileOf(parts, p.a, p.b, o.a);
    TilesAt(parts, p.a, p.b, i);
    assert TruePart(parts[i], p.src, runs);
    if parts[i].present {
      EdgeCovered(parts[i], p.src, runs, o.a);
    }
    OrphansAreGaps(p, parts, runs, i);
    SameGap(o, Orphan(p.src, parts[i].a, parts[i].b), p, runs);
  }

  lemma {:induction false} SameGap(o: Orphan, q: Orphan, p: Piece, runs: seq<Written>)
    requires Gap(o, p, runs) && Gap(q, p, runs) && q.a <= o.a < q.b
    ensures o == q
  {
    hide CoveredBy;
    assert q.a < o.a ==> !CoveredBy(runs, q.src, o.a - 1);
    assert o.b < q.b ==> !CoveredBy(runs, q.src, o.b);
    assert q.b < o.b ==> !CoveredBy(runs, o.src, q.b);
  }

  lemma {:induction false} TileOf(parts: seq<Part>, a: nat, b: nat, y: nat) returns (i: nat)
    requires Tiles(parts, a, b) && a <= y < b
    ensures i < |parts| && parts[i].a <= y < parts[i].b
    decreases |parts|
  {
    i := |parts| - 1;
    if y < parts[i].a {
      i := TileOf(parts[..|parts| - 1], a, parts[i].a, y);
    }
  }

  /** What the first pass collects is what the file lacks. */
  lemma {:induction false} CollectedLacks(orphans: seq<Orphan>, contents: seq<Content>, parts: PartMap, runs: seq<Written>, S: Sources)
    requires GoodOrphans(orphans, S) && Needed(orphans, parts, runs) && OnlyLive(parts, contents)
    requires Splits(parts, runs) && AllListed(parts, orphans) && ContentsSplit(contents, parts)
    ensures Lacks(orphans, contents, runs)
  {
    hide Gap;
    hide GoodParts;
    hide GoodOrphan;
    forall o | o in orphans
      ensures exists p :: Live(p, contents) && Gap(o, p, runs)
    {
      var p :| p in parts && Gap(o, p, runs);
      assert Live(p, contents);
    }
    forall o, p | Live(p, contents) && Gap(o, p, runs)
      ensures o in orphans
    {
      LiveIsSplit(p, contents, parts);
      var i := GapsAreOrphans(o, p, parts[p], runs);
      assert Listed(parts[p], p.src, orphans);
      assert HasOrphan(orphans, p.src, parts[p][i]);
    }
  }

  lemma {:induction false} LiveIsSplit(p: Piece, contents: seq<Content>, parts: PartMap)
    requires Live(p, contents) && ContentsSplit(contents, parts)
    ensures p in parts
  {
    var i :| 0 <= i < |contents| && p in contents[i].pieces;
    assert AllSplit(contents[i].pieces, parts);
  }

  // ----- what the first pass collects ------------------------------------------------------------------

  type PartMap = map<Piece, seq<Part>>

  ghost predicate GoodParts(p: Piece, parts: seq<Part>, runs: seq<Written>) {
    Tiles(parts, p.a, p.b) && TrueParts(parts, p.src, runs) && Apart(parts)
  }

  /** No two orphan parts lie side by side: each is as long as it can be. */
  ghost predicate Apart(parts: seq<Part>) {
    forall i :: 0 < i < |parts| ==> parts[i - 1].present || parts[i].present
  }

  /** The orphan ranges met so far are gaps of pieces that were split. */
  ghost predicate Needed(orphans: seq<Orphan>, parts: PartMap, runs: seq<Written>) {
    forall o :: o in orphans ==> exists p :: p in parts && Gap(o, p, runs)
  }

  /** Only live pieces of the contents were split. */
  ghost predicate OnlyLive(parts: PartMap, contents: seq<Content>) {
    forall p :: p in parts ==> Live(p, contents)
  }

  ghost predicate Splits(parts: PartMap, runs: seq<Written>) {
    forall p :: p in parts ==> GoodParts(p, parts[p], runs)
  }

  predicate HasOrphan(orphans: seq<Orphan>, src: nat, p: Part) {
    p.present || Orphan(src, p.a, p.b) in orphans
  }

  ghost predicate Listed(parts: seq<Part>, src: nat, orphans: seq<Orphan>) {
    forall i :: 0 <= i < |parts| ==> HasOrphan(orphans, src, parts[i])
  }

  ghost predicate AllListed(parts: PartMap, orphans: seq<Orphan>) {
    forall p :: p in parts ==> Listed(parts[p], p.src, orphans)
  }

  /** An orphan is a readable range of an old live source, and none is listed twice. */
  ghost predicate GoodOrphans(orphans: seq<Orphan>, S: Sources) {
    && (forall i :: 0 <= i < |orphans| ==> GoodOrphan(orphans[i], S))
    && (forall i, j :: 0 <= i < j < |orphans| ==> orphans[i] != orphans[j])
  }

  ghost predicate GoodOrphan(o: Orphan, S: Sources) {
    o.src in S && GenerationOf(o.src) == 0 && o.a < o.b <= |S[o.src].data|
  }

  /** Every live piece has been split. */
  ghost predicate AllSplit(ps: seq<Piece>, parts: PartMap) {
    forall i :: 0 <= i < |ps| && GenerationOf(ps[i].src) == 0 ==> ps[i] in parts
  }

  ghost predicate ContentsSplit(cs: seq<Content>, parts: PartMap) {
    forall i :: 0 <= i < |cs| ==> AllSplit(cs[i].pieces, parts)
  }

  function Total(orphans: seq<Orphan>): int {
    if orphans == [] then 0 else Total(orphans[..|orphans| - 1]) + orphans[|orphans| - 1].b - orphans[|orphans| - 1].a
  }

  lemma {:induction false} TotalBounds(orphans: seq<Orphan>, S: Sources)
    requires GoodOrphans(orphans, S)
    ensures |orphans| <= Total(orphans)
  {
    if orphans != [] {
      var n := |orphans| - 1;
      assert GoodOrphan(orphans[n], S);
      assert GoodOrphans(orphans[..n], S);
      TotalBounds(orphans[..n], S);
    }
  }

  /** Orphans only join at the end. */
  lemma {:induction false} ListedMore(parts: PartMap, orphans: seq<Orphan>, more: seq<Orphan>)
    requires AllListed(parts, orphans) && orphans <= more
    ensures AllListed(parts, more)
  {
    forall p, i | p in parts && 0 <= i < |parts[p]|
      ensures HasOrphan(more, p.src, parts[p][i])
    {
      assert Listed(parts[p], p.src, orphans) && HasOrphan(orphans, p.src, parts[p][i]);
    }
  }

  ghost predicate OrphanOf(o: Orphan, src: nat, parts: seq<Part>) {
    exists i :: 0 <= i < |parts| && !parts[i].present && o == Orphan(src, parts[i].a, parts[i].b)
  }

  /** The orphans of one piece join the list, each once. */
  method AddOrphans(orphans: seq<Orphan>, piece: Piece, parts: seq<Part>, ghost S: Sources) returns (more: seq<Orphan>)
    requires GoodOrphans(orphans, S) && Readable(piece, S) && GenerationOf(piece.src) == 0 && Tiles(parts, piece.a, piece.b)
    ensures orphans <= more && GoodOrphans(more, S) && Listed(parts, piece.src, more)
    ensures forall o :: o in more ==> o in orphans || OrphanOf(o, piece.src, parts)
  {
    more := orphans;
    var i := 0;
    while i < |parts|
      invariant 0 <= i <= |parts| && orphans <= more && GoodOrphans(more, S) && Listed(parts[..i], piece.src, more)
      invariant forall o :: o in more ==> o in orphans || OrphanOf(o, piece.src, parts)
    {
      var part := parts[i];
      TilesAt(parts, piece.a, piece.b, i);
      if !part.present && Orphan(piece.src, part.a, part.b) !in more {
        assert OrphanOf(Orphan(piece.src, part.a, part.b), piece.src, parts);
        more := more + [Orphan(piece.src, part.a, part.b)];
      }
      i := i + 1;
    }
    assert parts[..i] == parts;
  }

  /** Part `i` begins where the parts before it end. */
  lemma {:induction false} TilesAt(parts: seq<Part>, a: nat, b: nat, i: nat)
    requires Tiles(parts, a, b) && i < |parts|
    ensures Tiles(parts[..i], a, parts[i].a) && a <= parts[i].a < parts[i].b <= b
    ensures i + 1 == |parts| ==> parts[i].b == b
    ensures i + 1 < |parts| ==> parts[i + 1].a == parts[i].b
  {
    var n := |parts| - 1;
    if i < n {
      assert parts[..n][..i] == parts[..i];
      TilesAt(parts[..n], a, parts[n].a, i);
    } else {
      TilesStart(parts[..n], a, parts[n].a);
    }
  }

  lemma {:induction false} TilesStart(parts: seq<Part>, a: nat, b: nat)
    requires Tiles(parts, a, b)
    ensures a <= b
  {
    if parts != [] {
      TilesStart(parts[..|parts| - 1], a, parts[|parts| - 1].a);
    }
  }

  /** Copied orphans are true pieces of the new sources with the bytes of the old range. */
  ghost predicate Copies(copied: map<Orphan, Piece>, S: Sources, T: Sources) {
    forall o :: o in copied ==> Copy(o, copied[o], S, T)
  }

  ghost predicate Copy(o: Orphan, p: Piece, S: Sources, T: Sources) {
    && o.src in S && o.a < o.b <= |S[o.src].data|
    && TruePiece(p, T) && PieceBytes(p, T) == S[o.src].data[o.a..o.b]
  }

  lemma {:induction false} CopiesGrow(copied: map<Orphan, Piece>, S: Sources, T: Sources, U: Sources)
    requires Copies(copied, S, T) && Grows(T, U)
    ensures Copies(copied, S, U)
  {
    hide AggOf;
    hide Count;
    hide Grows;
    forall o | o in copied
      ensures Copy(o, copied[o], S, U)
    {
      assert Copy(o, copied[o], S, T);
      TrueSurvivesGrowth(copied[o], T, U);
    }
  }

  /** A rewritten or an untouched piece. */
  datatype Built = Built(piece: Piece, rewritten: bool)

  function PiecesOf(built: seq<Built>): seq<Piece> {
    seq(|built|, i requires 0 <= i < |built| => built[i].piece)
  }

  lemma {:induction false} PiecesOfSnoc(built: seq<Built>, b: Built)
    ensures PiecesOf(built + [b]) == PiecesOf(built) + [b.piece] && PiecesOf([]) == [] && PiecesOf([b]) == [b.piece]
  {
  }

  lemma {:induction false} RunSplit(src: nat, a: nat, m: nat, b: nat)
    requires a <= m <= b
    ensures RunPlaces(Run(src, a, b)) == RunPlaces(Run(src, a, m)) + RunPlaces(Run(src, m, b))
    ensures RunPlaces(Run(src, a, a)) == []
  {
  }

  lemma {:induction false} PieceRun(p: Piece)
    ensures Addr1(p) == RunPlaces(Run(p.src, p.a, p.b))
  {
  }

  /** Joining two neighbours of the list of built pieces, as `_rewrite` does, keeps truth and places. */
  method MergeBuilt(built: seq<Built>, ghost T: Sources) returns (pieces: seq<Piece>)
    requires AllTrue(PiecesOf(built), T)
    ensures AllTrue(pieces, T) && Addr(pieces) == Addr(PiecesOf(built))
    ensures exists merged :: Tight(merged, built) && pieces == PiecesOf(merged)
    ensures (forall i :: 0 <= i < |built| ==> built[i].rewritten) ==> Merged(pieces)
  {
    hide *;
    var merged: seq<Built> := [];
    TightNone(built);
    var i := 0;
    assert built[..0] == [];
    PiecesOfSnoc([], Built(Piece(0, 0, 0, 0, 0, false, false), false));
    NoneTrue(T);
    while i < |built|
      invariant 0 <= i <= |built| && AllTrue(PiecesOf(merged), T) && Addr(PiecesOf(merged)) == Addr(PiecesOf(built[..i]))
      invariant Tight(merged, built)
    {
      var b := built[i];
      BuiltAt(built, i, T);
      assert b in built;
      AppendFacts(PiecesOf(merged), b.piece, T);
      AppendPlain(PiecesOf(merged), b.piece, T);
      var joined := if merged != [] && b.rewritten && merged[|merged| - 1].rewritten
                    then MergePieces(merged[|merged| - 1].piece, b.piece) else None;
      MergedBuilt(merged, b);
      PiecesOfSnoc(merged, b);
      TightSnoc(merged, built, b);
      if joined.Some? {
        merged := merged[..|merged| - 1] + [Built(joined.value, true)];
      } else {
        merged := merged + [b];
      }
      i := i + 1;
    }
    assert built[..i] == built;
    pieces := PiecesOf(merged);
    TightMerged(merged, built);
  }

  /** No two rewritten neighbours are contiguous, and what was not rewritten is as it was. */
  ghost predicate Tight(merged: seq<Built>, built: seq<Built>) {
    && (forall i :: 0 < i < |merged| && merged[i - 1].rewritten && merged[i].rewritten ==> MergePieces(merged[i - 1].piece, merged[i].piece).None?)
    && (forall b :: b in merged && !b.rewritten ==> b in built)
  }

  lemma {:induction false} TightNone(built: seq<Built>)
    ensures Tight([], built)
  {
  }

  lemma {:induction false} TightSnoc(merged: seq<Built>, built: seq<Built>, b: Built)
    requires Tight(merged, built) && b in built
    ensures var joined := if merged != [] && b.rewritten && merged[|merged| - 1].rewritten
                          then MergePieces(merged[|merged| - 1].piece, b.piece) else None;
            Tight(if joined.Some? then merged[..|merged| - 1] + [Built(joined.value, true)] else merged + [b], built)
  {
  }

  lemma {:induction false} TightMerged(merged: seq<Built>, built: seq<Built>)
    requires Tight(merged, built)
    ensures (forall i :: 0 <= i < |built| ==> built[i].rewritten) ==> Merged(PiecesOf(merged))
  {
    hide MergePieces;
    if forall i :: 0 <= i < |built| ==> built[i].rewritten {
      forall i | 0 <= i < |merged|
        ensures merged[i].rewritten
      {
        assert merged[i] in merged;
      }
    }
  }

  lemma {:induction false} NoneTrue(T: Sources)
    ensures AllTrue([], T) && Addr([]) == []
  {
  }

  lemma {:induction false} BuiltAt(built: seq<Built>, i: nat, T: Sources)
    requires i < |built| && AllTrue(PiecesOf(built), T)
    ensures TruePiece(built[i].piece, T) && Addr(PiecesOf(built[..i + 1])) == Addr(PiecesOf(built[..i])) + Addr1(built[i].piece)
  {
    hide TruePiece;
    hide Addr;
    assert TruePiece(PiecesOf(built)[i], T);
    assert built[..i + 1] == built[..i] + [built[i]];
    PiecesOfSnoc(built[..i], built[i]);
    AddrConcat(PiecesOf(built[..i]), [built[i].piece]);
    Addr1Is(built[i].piece);
  }

  lemma {:induction false} AppendPlain(front: seq<Piece>, p: Piece, T: Sources)
    requires AllTrue(front, T) && TruePiece(p, T)
    ensures AllTrue(front + [p], T) && Addr(front + [p]) == Addr(front) + Addr1(p)
  {
    hide *;
    AllTrueTwo(p, p, T);
    AllTrueJoin(front, [p], T);
    AddrConcat(front, [p]);
    Addr1Is(p);
  }

  lemma {:induction false} MergedBuilt(merged: seq<Built>, b: Built)
    ensures |PiecesOf(merged)| == |merged|
    ensures merged != [] && MergePieces(merged[|merged| - 1].piece, b.piece).Some? ==>
              PiecesOf(merged[..|merged| - 1] + [Built(MergePieces(merged[|merged| - 1].piece, b.piece).value, true)])
              == Appended(PiecesOf(merged), b.piece)
  {
    if merged != [] && MergePieces(merged[|merged| - 1].piece, b.piece).Some? {
      var m := MergePieces(merged[|merged| - 1].piece, b.piece).value;
      assert PiecesOf(merged)[..|merged| - 1] == PiecesOf(merged[..|merged| - 1]);
      assert PiecesOf(merged[..|merged| - 1] + [Built(m, true)]) == PiecesOf(merged[..|merged| - 1]) + [m];
    }
  }

  // ----- the rebaser -------------------------------------------------------------------------------------

  class Rebaser {
    const layout: SaveLayout
    const old_: World
    const newOriginal: Source
    const storeLimit: nat
    const limit: nat
    const maxGeneration: nat
    const oldFiles: Option<Legacy>
    /** Reading this range of an old source fails, or gives less. */
    const broken: Orphan -> bool
    var store: StoreView
    /** Interval tables by source, made once. */
    var tables: map<nat, seq<Interval>>

    ghost predicate Valid()
      reads this, layout
    {
      && layout.Valid() && store.Valid() && storeLimit > 0
      && TrueRuns(layout.Runs(), old_.All(), newOriginal.data)
      && (oldFiles.Some? ==> oldFiles.value == Legacy(old_.original, old_.segments))
      && (forall src :: src in tables ==> FirstOccurrences(tables[src], layout.Runs(), src))
    }

    constructor (layout: SaveLayout, old_: World, newOriginal: Source, store: StoreView, storeLimit: nat, limit: nat,
                 maxGeneration: nat, oldFiles: Option<Legacy>, broken: Orphan -> bool)
      requires layout.Valid() && store.Valid() && storeLimit > 0
      requires TrueRuns(layout.Runs(), old_.All(), newOriginal.data)
      requires oldFiles.Some? ==> oldFiles.value == Legacy(old_.original, old_.segments)
      ensures Valid() && this.layout == layout && this.old_ == old_ && this.newOriginal == newOriginal && this.store == store
      ensures this.limit == limit && this.maxGeneration == maxGeneration && this.oldFiles == oldFiles && this.storeLimit == storeLimit
      ensures this.broken == broken
    {
      this.layout, this.old_, this.newOriginal, this.store := layout, old_, newOriginal, store;
      this.storeLimit, this.limit, this.maxGeneration, this.oldFiles, this.broken := storeLimit, limit, maxGeneration, oldFiles, broken;
      tables := map[];
    }

    lemma {:induction false} Parts()
      requires Valid()
      ensures layout.Valid() && store.Valid() && storeLimit > 0 && TrueRuns(layout.Runs(), old_.All(), newOriginal.data)
      ensures oldFiles.Some? ==> oldFiles.value == Legacy(old_.original, old_.segments)
      ensures forall src :: src in tables ==> FirstOccurrences(tables[src], layout.Runs(), src)
    {
      hide TrueRuns;
      hide FirstOccurrences;
    }

    /** `_table`: the intervals of a source, computed at the first use. */
    method Table(src: nat) returns (ivs: seq<Interval>)
      requires Valid()
      modifies this`tables
      ensures Valid() && FirstOccurrences(ivs, layout.Runs(), src)
    {
      hide FirstOccurrences;
      hide TrueRuns;
      if src in tables {
        return tables[src];
      }
      ivs := layout.Intervals(src);
      tables := tables[src := ivs];
    }

    /** `_split`: cut a piece into the ranges the file holds and the ranges it does not. */
    method Split(piece: Piece) returns (found: seq<Part>)
      requires Valid() && piece.a < piece.b
      modifies this`tables
      ensures Valid() && GoodParts(piece, found, layout.Runs())
    {
      hide *;
      var ivs := Table(piece.src);
      Parts();
      AscendingOf(ivs, layout.Runs(), piece.src);
      ghost var runs := layout.Runs();
      var ends: seq<nat> := seq(|ivs|, i requires 0 <= i < |ivs| => ivs[i].b);
      assert forall j :: 0 <= j < |ivs| ==> ivs[j].b == ends[j];
      var index := BisectRight(ends, piece.a);
      var cursor := piece.a;
      found := [];
      NoParts(piece, runs);
      while index < |ivs| && ivs[index].a < piece.b
        invariant index <= |ivs| && piece.a <= cursor <= piece.b && Valid() && layout.Runs() == runs
        invariant forall j :: 0 <= j < index ==> ivs[j].b <= cursor || cursor == piece.b
        invariant index < |ivs| ==> ivs[index].b > cursor
        invariant index < |ivs| && ivs[index].a < piece.b ==> cursor < piece.b
        invariant Tiles(found, piece.a, cursor) && TrueParts(found, piece.src, runs)
        invariant Apart(found) && (found == [] || found[|found| - 1].present)
        decreases |ivs| - index
      {
        var low := if ivs[index].a > cursor then ivs[index].a else cursor;
        if low > cursor {
          OrphanPart(ivs, index, cursor, low, piece.src, runs);
          TilesSnoc(found, piece.a, cursor, Part(false, cursor, low, 0), piece.src, runs);
          ApartSnoc(found, Part(false, cursor, low, 0));
          found := found + [Part(false, cursor, low, 0)];
        }
        var high := if ivs[index].b < piece.b then ivs[index].b else piece.b;
        var part := Part(true, low, high, ivs[index].out + low - ivs[index].a);
        PresentPart(ivs, index, low, high, piece.src, runs);
        TilesSnoc(found, piece.a, low, part, piece.src, runs);
        ApartSnoc(found, part);
        found := found + [part];
        cursor := high;
        index := index + 1;
      }
      if cursor < piece.b {
        OrphanPart(ivs, index, cursor, piece.b, piece.src, runs);
        TilesSnoc(found, piece.a, cursor, Part(false, cursor, piece.b, 0), piece.src, runs);
        ApartSnoc(found, Part(false, cursor, piece.b, 0));
        found := found + [Part(false, cursor, piece.b, 0)];
      }
      IsGood(piece, found, runs);
    }

    static lemma {:induction false} AscendingOf(ivs: seq<Interval>, runs: seq<Written>, src: nat)
      requires FirstOccurrences(ivs, runs, src)
      ensures forall i :: 0 <= i < |ivs| ==> ivs[i].a < ivs[i].b
      ensures forall i, j :: 0 <= i < j < |ivs| ==> ivs[i].b <= ivs[j].a
    {
    }

    static lemma {:induction false} NoParts(piece: Piece, runs: seq<Written>)
      ensures Tiles([], piece.a, piece.a) && TrueParts([], piece.src, runs) && Apart([])
    {
    }

    static lemma {:induction false} ApartSnoc(parts: seq<Part>, p: Part)
      requires Apart(parts) && (parts == [] || parts[|parts| - 1].present || p.present)
      ensures Apart(parts + [p])
    {
    }

    static lemma {:induction false} IsGood(piece: Piece, parts: seq<Part>, runs: seq<Written>)
      requires Tiles(parts, piece.a, piece.b) && TrueParts(parts, piece.src, runs) && Apart(parts)
      ensures GoodParts(piece, parts, runs)
    {
    }

    // ----- the first pass -----------------------------------------------------------------------------------

    /** The first pass over one content. */
    method SplitContent(pieces: seq<Piece>, parts: PartMap, orphans: seq<Orphan>) returns (ps: PartMap, os: seq<Orphan>)
      requires Valid() && AllTrue(pieces, old_.All())
      requires Splits(parts, layout.Runs()) && AllListed(parts, orphans) && GoodOrphans(orphans, old_.All())
      requires Needed(orphans, parts, layout.Runs())
      modifies this`tables
      ensures Valid() && Splits(ps, layout.Runs()) && AllListed(ps, os) && GoodOrphans(os, old_.All()) && Needed(os, ps, layout.Runs())
      ensures AllSplit(pieces, ps) && (forall p :: p in parts ==> p in ps) && MoreOf(parts, ps, pieces)
    {
      hide *;
      Parts();
      ps, os := parts, orphans;
      var i := 0;
      ghost var S, runs := old_.All(), layout.Runs();
      assert pieces[..0] == [];
      NoneSplit(ps, pieces);
      while i < |pieces|
        invariant 0 <= i <= |pieces| && Valid() && layout.Valid() && layout.Runs() == runs
        invariant Splits(ps, runs) && AllListed(ps, os) && GoodOrphans(os, S) && Needed(os, ps, runs) && MoreOf(parts, ps, pieces)
        invariant AllSplit(pieces[..i], ps) && forall p :: p in parts ==> p in ps
      {
        var piece := pieces[i];
        AllTrueAt(pieces, i, S);
        Navigation.PieceFacts(piece, S);
        assert pieces[..i + 1] == pieces[..i] + [piece];
        SplitSnoc(pieces[..i], piece, ps, ps);
        if GenerationOf(piece.src) == 0 && piece !in ps {
          TrueNonEmpty(piece, S);
          var found := Split(piece);
          GoodIs(piece, found, runs);
          var more := AddOrphans(os, piece, found, S);
          ListedMore(ps, os, more);
          OneMoreSplit(ps, piece, found, runs, more);
          NeededMore(os, more, ps, piece, found, runs);
          MoreOfSnoc(parts, ps, pieces, i, found);
          SplitSnoc(pieces[..i], piece, ps, ps[piece := found]);
          ps, os := ps[piece := found], more;
        }
        i := i + 1;
      }
      assert pieces[..i] == pieces;
    }

    static lemma {:induction false} GoodIs(piece: Piece, parts: seq<Part>, runs: seq<Written>)
      requires GoodParts(piece, parts, runs)
      ensures Tiles(parts, piece.a, piece.b) && TrueParts(parts, piece.src, runs)
    {
    }

    static lemma {:induction false} NoneSplit(ps: PartMap, pieces: seq<Piece>)
      ensures AllSplit([], ps) && MoreOf(ps, ps, pieces)
    {
    }

    /** What was split beyond the given map are live pieces of this content. */
    static ghost predicate MoreOf(parts: PartMap, ps: PartMap, pieces: seq<Piece>) {
      forall p :: p in ps ==> p in parts || (p in pieces && GenerationOf(p.src) == 0)
    }

    static lemma {:induction false} MoreOfSnoc(parts: PartMap, ps: PartMap, pieces: seq<Piece>, i: nat, found: seq<Part>)
      requires MoreOf(parts, ps, pieces) && i < |pieces| && GenerationOf(pieces[i].src) == 0
      ensures MoreOf(parts, ps[pieces[i] := found], pieces)
    {
    }

    static lemma {:induction false} NeededMore(os: seq<Orphan>, more: seq<Orphan>, ps: PartMap, piece: Piece, found: seq<Part>, runs: seq<Written>)
      requires Needed(os, ps, runs) && GoodParts(piece, found, runs) && piece !in ps
      requires forall o :: o in more ==> o in os || OrphanOf(o, piece.src, found)
      ensures Needed(more, ps[piece := found], runs)
    {
      hide GoodParts;
      hide Gap;
      var next := ps[piece := found];
      forall o | o in more
        ensures exists p :: p in next && Gap(o, p, runs)
      {
        if o in os {
          var p :| p in ps && Gap(o, p, runs);
          assert p in next;
        } else {
          var i :| 0 <= i < |found| && !found[i].present && o == Orphan(piece.src, found[i].a, found[i].b);
          OrphansAreGaps(piece, found, runs, i);
          assert piece in next;
        }
      }
    }

    static lemma {:induction false} SplitSnoc(pieces: seq<Piece>, piece: Piece, ps: PartMap, more: PartMap)
      requires AllSplit(pieces, ps) && forall p :: p in ps ==> p in more
      ensures GenerationOf(piece.src) != 0 || piece in more ==> AllSplit(pieces + [piece], more)
      ensures AllSplit(pieces, more)
    {
    }

    static lemma {:induction false} OneMoreSplit(ps: PartMap, piece: Piece, found: seq<Part>, runs: seq<Written>, os: seq<Orphan>)
      requires Splits(ps, runs) && GoodParts(piece, found, runs) && AllListed(ps, os) && Listed(found, piece.src, os)
      ensures Splits(ps[piece := found], runs) && AllListed(ps[piece := found], os)
    {
      hide GoodParts;
      hide Listed;
    }

    /** The first pass: the parts of every live piece and the distinct orphans. */
    method Collect(contents: seq<Content>) returns (parts: PartMap, orphans: seq<Orphan>)
      requires Valid() && TrueContents(contents, old_.All())
      modifies this`tables
      ensures Valid() && Splits(parts, layout.Runs()) && AllListed(parts, orphans) && GoodOrphans(orphans, old_.All())
      ensures ContentsSplit(contents, parts) && Lacks(orphans, contents, layout.Runs())
    {
      hide *;
      Parts();
      parts, orphans := map[], [];
      ghost var S, runs := old_.All(), layout.Runs();
      NothingCollected(contents, runs, S);
      var i := 0;
      while i < |contents|
        invariant 0 <= i <= |contents| && Valid() && layout.Valid() && layout.Runs() == runs
        invariant Splits(parts, runs) && AllListed(parts, orphans) && GoodOrphans(orphans, S) && Needed(orphans, parts, runs)
        invariant ContentsSplit(contents[..i], parts) && OnlyLive(parts, contents)
      {
        TrueContentAt(contents, i, S);
        ghost var before := parts;
        parts, orphans := SplitContent(contents[i].pieces, parts, orphans);
        ContentsSplitSnoc(contents, i, before, parts);
        StillLive(contents, i, before, parts);
        i := i + 1;
      }
      assert contents[..i] == contents;
      CollectedLacks(orphans, contents, parts, runs, S);
    }

    static lemma {:induction false} NothingCollected(contents: seq<Content>, runs: seq<Written>, S: Sources)
      ensures Splits(map[], runs) && AllListed(map[], []) && GoodOrphans([], S) && ContentsSplit(contents[..0], map[])
      ensures Needed([], map[], runs) && OnlyLive(map[], contents)
    {
    }

    static lemma {:induction false} StillLive(contents: seq<Content>, i: nat, before: PartMap, parts: PartMap)
      requires i < |contents| && OnlyLive(before, contents) && MoreOf(before, parts, contents[i].pieces)
      ensures OnlyLive(parts, contents)
    {
    }

    static lemma {:induction false} ContentsSplitSnoc(contents: seq<Content>, i: nat, before: PartMap, parts: PartMap)
      requires i < |contents| && ContentsSplit(contents[..i], before) && AllSplit(contents[i].pieces, parts)
      requires forall p :: p in before ==> p in parts
      ensures ContentsSplit(contents[..i + 1], parts)
    {
      var cs := contents[..i + 1];
      forall j | 0 <= j < |cs|
        ensures AllSplit(cs[j].pieces, parts)
      {
        if j < i {
          assert contents[..i][j] == contents[j];
          assert AllSplit(contents[..i][j].pieces, before);
        }
      }
    }

    // ----- copying orphans ----------------------------------------------------------------------------------

    /** The new sources when `retained` joins the generations. */
    ghost function After(retained: Option<Legacy>): Sources
      reads this
    {
      NewSources(old_, newOriginal, store.segments, retained)
    }

    /** Append every orphan to the new store. It fails exactly when reading one of them does. */
    method CopyOrphans(orphans: seq<Orphan>) returns (r: Result<map<Orphan, Piece>>)
      requires Valid() && GoodOrphans(orphans, old_.All()) && |store.segments| + |orphans| < SEGMENTS
      modifies this`store
      ensures Valid()
      ensures r.Ok? ==> Copies(r.value, old_.All(), After(None)) && forall i :: 0 <= i < |orphans| ==> orphans[i] in r.value
      ensures r.Err? <==> exists i :: 0 <= i < |orphans| && broken(orphans[i])
    {
      hide *;
      Parts();
      ghost var S := old_.All();
      var copied: map<Orphan, Piece> := map[];
      NothingCopied(S, After(None));
      var i := 0;
      while i < |orphans|
        invariant 0 <= i <= |orphans| && Valid() && |store.segments| + |orphans| - i < SEGMENTS
        invariant Copies(copied, S, After(None)) && forall j :: 0 <= j < i ==> orphans[j] in copied && !broken(orphans[j])
      {
        var o := orphans[i];
        OrphanIs(orphans, i, S);
        Parts();
        var source := old_.All()[o.src];
        var data := source.Read(o.a, o.b);
        ReadIsSlice(source, o.a, o.b);
        if broken(o) {
          return Err(SourceChanged);
        }
        AfterIs(None);
        ghost var T := After(None);
        AppendToFacts(store, storeLimit, data);
        SegmentsAdded(store, storeLimit, data);
        var placed := AppendTo(store, storeLimit, data).value;
        AfterGrows(store.segments, placed.store.segments);
        store := placed.store;
        AfterIs(None);
        StillValid(placed.store);
        CopiesGrow(copied, S, T, After(None));
        SegmentIn(placed.span.segment);
        var segment := SegmentSource(store.segments[placed.span.segment - 1]);
        MakePieceTrue(After(None), placed.span.segment, placed.span.a, placed.span.b);
        var piece := MakePiece(segment, placed.span.segment, placed.span.a, placed.span.b).value;
        CopyIs(o, piece, S, After(None));
        CopiesSnoc(copied, o, piece, S, After(None));
        copied := copied[o := piece];
        i := i + 1;
      }
      r := Ok(copied);
    }

    lemma {:induction false} AfterIs(retained: Option<Legacy>)
      ensures After(retained) == NewSources(old_, newOriginal, store.segments, retained)
    {
      hide NewSources;
    }

    static lemma {:induction false} NothingCopied(S: Sources, T: Sources)
      ensures Copies(map[], S, T)
    {
    }

    static lemma {:induction false} OrphanIs(orphans: seq<Orphan>, i: nat, S: Sources)
      requires GoodOrphans(orphans, S) && i < |orphans|
      ensures var o := orphans[i]; o.src in S && GenerationOf(o.src) == 0 && o.a < o.b <= |S[o.src].data|
    {
      assert GoodOrphan(orphans[i], S);
    }

    static lemma {:induction false} ReadIsSlice(source: Source, a: nat, b: nat)
      requires a < b <= |source.data|
      ensures source.Read(a, b) == source.data[a..b] && source.Read(a, b) != []
    {
    }

    static lemma {:induction false} SegmentsAdded(store: StoreView, limit: nat, data: Bytes)
      requires store.Valid() && AppendTo(store, limit, data).Ok?
      ensures var p := AppendTo(store, limit, data).value;
              |p.store.segments| <= |store.segments| + 1 && p.span.segment <= |p.store.segments|
    {
    }

    lemma {:induction false} AfterGrows(segments: seq<Bytes>, more: seq<Bytes>)
      requires SegmentsGrow(segments, more)
      ensures Grows(NewSources(old_, newOriginal, segments, None), NewSources(old_, newOriginal, more, None))
    {
      hide SourcesOf;
      assert old_.legacy + [] <= old_.legacy + [];
      SourcesGrow(newOriginal, segments, old_.legacy + [], newOriginal, more, old_.legacy + []);
    }

    lemma {:induction false} StillValid(next: StoreView)
      requires layout.Valid() && next.Valid() && storeLimit > 0 && store == next
      requires TrueRuns(layout.Runs(), old_.All(), newOriginal.data)
      requires oldFiles.Some? ==> oldFiles.value == Legacy(old_.original, old_.segments)
      requires forall src :: src in tables ==> FirstOccurrences(tables[src], layout.Runs(), src)
      ensures Valid()
    {
    }

    /** A segment of the new store under its number. */
    lemma {:induction false} SegmentIn(k: nat)
      requires 1 <= k <= |store.segments| && k < SEGMENTS
      ensures var T := After(None);
              k in T && T[k] == SegmentSource(store.segments[k - 1]) && T[k].data == store.segments[k - 1] && T[k].mute == {}
    {
      hide SourcesOf;
      LiveSources(newOriginal, store.segments, old_.legacy + [], k);
    }

    static lemma {:induction false} CopyIs(o: Orphan, p: Piece, S: Sources, T: Sources)
      requires o.src in S && o.a < o.b <= |S[o.src].data| && TruePiece(p, T)
      requires p.src in T && p.a <= p.b <= |T[p.src].data| && T[p.src].data[p.a..p.b] == S[o.src].data[o.a..o.b]
      ensures Copy(o, p, S, T)
    {
      hide AggOf;
      hide Count;
    }

    static lemma {:induction false} CopiesSnoc(copied: map<Orphan, Piece>, o: Orphan, p: Piece, S: Sources, T: Sources)
      requires Copies(copied, S, T) && Copy(o, p, S, T)
      ensures Copies(copied[o := p], S, T)
    {
      hide Copy;
    }

    // ----- rewriting ------------------------------------------------------------------------------------------

    /** What the second pass relies on: the copies when nothing is retained, else the old files. */
    ghost predicate Ready(copied: map<Orphan, Piece>, orphans: seq<Orphan>, retained: Option<Legacy>)
      reads this
    {
      && (retained.Some? ==> retained == Some(Legacy(old_.original, old_.segments)) && copied == map[])
      && (retained.None? ==> Copies(copied, old_.All(), After(None)) && forall i :: 0 <= i < |orphans| ==> orphans[i] in copied)
    }

    /**
     A row oracle refuses an offset that this piece needs: one at a byte of it in the saved file, or, when the old files
     are kept, one inside it in its old source.
     */
    ghost predicate MuteFor(p: Piece, keep: bool)
      reads this, layout
      requires layout.Valid()
    {
      || (exists k: nat, y :: p.a <= y < p.b && Owns(layout.Runs(), p.src, k, y) && MutePlace(PlaceOf(layout.Runs()[k], y)))
      || (keep && p.src in old_.All() && exists x :: p.a <= x <= p.b && x in old_.All()[p.src].mute)
    }

    predicate MutePlace(place: int) {
      place in newOriginal.mute || place + 1 in newOriginal.mute
    }

    /** A row oracle refuses an offset that a live piece needs. */
    ghost predicate SomeMute(contents: seq<Content>, keep: bool)
      reads this, layout
      requires layout.Valid()
    {
      exists p :: Live(p, contents) && MuteFor(p, keep)
    }

    /** The edges of a present part are edges of bytes of its piece in the saved file. */
    lemma {:induction false} MutePresent(p: Piece, part: Part, keep: bool)
      requires layout.Valid() && part.present && TruePart(part, p.src, layout.Runs()) && p.a <= part.a < part.b <= p.b
      ensures part.out in newOriginal.mute || part.out + part.b - part.a in newOriginal.mute ==> MuteFor(p, keep)
    {
      hide SourcesOf;
      var runs := layout.Runs();
      assert FoundAt(runs, p.src, part.a, part);
      assert FoundAt(runs, p.src, part.b - 1, part);
      var k: nat :| Owns(runs, p.src, k, part.a) && part.out == PlaceOf(runs[k], part.a);
      var j: nat :| Owns(runs, p.src, j, part.b - 1) && part.out + part.b - 1 - part.a == PlaceOf(runs[j], part.b - 1);
      assert part.out in newOriginal.mute ==> MutePlace(PlaceOf(runs[k], part.a));
      assert part.out + part.b - part.a in newOriginal.mute ==> MutePlace(PlaceOf(runs[j], part.b - 1));
    }

    lemma {:induction false} MuteKept(p: Piece, x: nat)
      requires layout.Valid() && p.src in old_.All() && p.a <= x <= p.b && x in old_.All()[p.src].mute
      ensures MuteFor(p, true)
    {
      hide SourcesOf;
    }

    lemma {:induction false} MuteIn(contents: seq<Content>, i: nat, p: Piece, keep: bool)
      requires layout.Valid() && i < |contents| && p in contents[i].pieces && GenerationOf(p.src) == 0 && MuteFor(p, keep)
      ensures SomeMute(contents, keep)
    {
      hide MuteFor;
    }

    /** `_kept`: the orphan part as a piece of the retained generation. */
    method Kept(piece: Piece, part: Part, retained: Option<Legacy>) returns (r: Result<Piece>)
      requires Valid() && TruePiece(piece, old_.All()) && GenerationOf(piece.src) == 0
      requires piece.a <= part.a < part.b <= piece.b
      requires retained == Some(Legacy(old_.original, old_.segments))
      ensures r.Ok? ==>
                && TruePiece(r.value, After(retained)) && Readable(r.value, After(retained))
                && piece.src in old_.All() && part.b <= |old_.All()[piece.src].data|
                && PieceBytes(r.value, After(retained)) == old_.All()[piece.src].data[part.a..part.b]
      ensures r.Err? ==> MuteFor(piece, true)
    {
      hide *;
      ghost var S, T := old_.All(), After(retained);
      Parts();
      Navigation.TrueParts(piece, S);
      OldSourcesMove(old_, newOriginal, store.segments, retained, piece.src);
      AfterIs(retained);
      var src := MakeSrc(|old_.legacy| + 1, SegmentOf(piece.src)).value;
      if part.a == piece.a && part.b == piece.b {
        Renumbered(piece, src, S, T);
        Navigation.PieceFacts(piece.(src := src), T);
        return Ok(piece.(src := src));
      }
      MakePieceTrue(T, src, part.a, part.b);
      r := MakePiece(old_.All()[piece.src], src, part.a, part.b);
      if r.Ok? {
        Navigation.TrueParts(r.value, T);
      } else {
        MuteKept(piece, if part.a in S[piece.src].mute then part.a else part.b);
      }
    }

    /** The piece that stands for one part. */
    method MakePart(piece: Piece, part: Part, copied: map<Orphan, Piece>, orphans: seq<Orphan>, retained: Option<Legacy>)
        returns (r: Result<Piece>)
      requires Valid() && TruePiece(piece, old_.All()) && GenerationOf(piece.src) == 0 && Ready(copied, orphans, retained)
      requires piece.a <= part.a < part.b <= piece.b && TruePart(part, piece.src, layout.Runs()) && HasOrphan(orphans, piece.src, part)
      ensures r.Ok? ==>
                && TruePiece(r.value, After(retained))
                && Carried(RunPlaces(Run(piece.src, part.a, part.b)), Addr1(r.value), old_.All(), After(retained), layout.Runs())
      ensures r.Err? ==> MuteFor(piece, retained.Some?)
    {
      hide *;
      Parts();
      ghost var S, T, runs := old_.All(), After(retained), layout.Runs();
      Navigation.TrueParts(piece, S);
      ReadyParts(copied, orphans, retained);
      HasOrphanIs(orphans, piece.src, part);
      SavedFile(retained);
      if part.present {
        PresentInside(piece.src, part, runs, S, newOriginal.data);
        r := MakePiece(newOriginal, 0, part.out, part.out + part.b - part.a);
        MakePieceTrue(T, 0, part.out, part.out + part.b - part.a);
        MutePresent(piece, part, retained.Some?);
        if r.Err? {
          return;
        }
        CarryPresent(piece.src, part, r.value, S, T, runs, newOriginal.data);
        return;
      }
      var o := Orphan(piece.src, part.a, part.b);
      if o in copied {
        CopiesAt(copied, o, S, T);
        r := Ok(copied[o]);
      } else {
        r := Kept(piece, part, retained);
      }
      if r.Ok? {
        Navigation.PieceFacts(r.value, T);
        CarryOrphan(piece.src, part, r.value, S, T, runs);
      }
    }

    lemma {:induction false} ReadyParts(copied: map<Orphan, Piece>, orphans: seq<Orphan>, retained: Option<Legacy>)
      requires Ready(copied, orphans, retained)
      ensures retained.Some? ==> retained == Some(Legacy(old_.original, old_.segments)) && copied == map[]
      ensures retained.None? ==> Copies(copied, old_.All(), After(retained)) && forall i :: 0 <= i < |orphans| ==> orphans[i] in copied
    {
      hide Copies;
      hide After;
    }

    static lemma {:induction false} HasOrphanIs(orphans: seq<Orphan>, src: nat, part: Part)
      requires HasOrphan(orphans, src, part)
      ensures part.present || Orphan(src, part.a, part.b) in orphans
    {
    }

    static lemma {:induction false} CopiesAt(copied: map<Orphan, Piece>, o: Orphan, S: Sources, T: Sources)
      requires Copies(copied, S, T) && o in copied
      ensures TruePiece(copied[o], T) && Readable(copied[o], T) && o.src in S && o.a < o.b <= |S[o.src].data|
      ensures PieceBytes(copied[o], T) == S[o.src].data[o.a..o.b]
    {
      hide AggOf;
      hide Count;
      assert Copy(o, copied[o], S, T);
    }

    lemma {:induction false} SavedFile(retained: Option<Legacy>)
      ensures 0 in After(retained) && After(retained)[0] == newOriginal
    {
      hide SourcesOf;
      OriginalSource0(newOriginal, store.segments, old_.legacy + if retained.Some? then [retained.value] else []);
    }

    /** A present part lies inside the saved file. */
    static lemma {:induction false} PresentInside(src: nat, part: Part, runs: seq<Written>, S: Sources, file: Bytes)
      requires part.present && TruePart(part, src, runs) && TrueRuns(runs, S, file) && part.a < part.b
      ensures part.out + part.b - part.a <= |file|
    {
      assert FoundAt(runs, src, part.b - 1, part);
      var k: nat :| Owns(runs, src, k, part.b - 1) && part.out + part.b - 1 - part.a == PlaceOf(runs[k], part.b - 1);
      assert TrueRun(runs[k], S, file);
    }

    /** The pieces that stand for one live piece. */
    method RewritePiece(piece: Piece, parts: seq<Part>, copied: map<Orphan, Piece>, orphans: seq<Orphan>, retained: Option<Legacy>)
        returns (r: Result<seq<Built>>)
      requires Valid() && TruePiece(piece, old_.All()) && GenerationOf(piece.src) == 0 && Ready(copied, orphans, retained)
      requires GoodParts(piece, parts, layout.Runs()) && Listed(parts, piece.src, orphans)
      ensures r.Ok? ==> AllTrue(PiecesOf(r.value), After(retained)) && AllRewritten(r.value)
      ensures r.Ok? ==> Carried(Addr1(piece), Addr(PiecesOf(r.value)), old_.All(), After(retained), layout.Runs())
      ensures r.Err? ==> MuteFor(piece, retained.Some?)
    {
      hide *;
      Parts();
      ghost var S, T, runs := old_.All(), After(retained), layout.Runs();
      GoodIs(piece, parts, runs);
      TrueNonEmpty(piece, S);
      var built: seq<Built>, i := [], 0;
      RewrittenIs([]);
      ghost var pos := piece.a;
      NoneTrue(T);
      PiecesOfSnoc([], Built(piece, false));
      RunSplit(piece.src, piece.a, piece.a, piece.b);
      NothingCarried(S, T, runs);
      TilesFirst(parts, piece.a, piece.b);
      while i < |parts|
        invariant 0 <= i <= |parts| && piece.a <= pos <= piece.b
        invariant pos == if i < |parts| then parts[i].a else piece.b
        invariant AllTrue(PiecesOf(built), T) && AllRewritten(built)
        invariant Carried(RunPlaces(Run(piece.src, piece.a, pos)), Addr(PiecesOf(built)), S, T, runs)
      {
        var part := parts[i];
        TilesAt(parts, piece.a, piece.b, i);
        PartAt(parts, i, piece.src, runs, orphans);
        var made := MakePart(piece, part, copied, orphans, retained);
        if made.Err? {
          return Err(made.error);
        }
        AppendPlain(PiecesOf(built), made.value, T);
        PiecesOfSnoc(built, Built(made.value, true));
        RunSplit(piece.src, piece.a, pos, part.b);
        CarriedJoin(RunPlaces(Run(piece.src, piece.a, pos)), RunPlaces(Run(piece.src, part.a, part.b)),
                    Addr(PiecesOf(built)), Addr1(made.value), S, T, runs);
        RewrittenIs([Built(made.value, true)]);
        RewrittenJoin(built, [Built(made.value, true)]);
        built := built + [Built(made.value, true)];
        pos := part.b;
        i := i + 1;
      }
      PieceRun(piece);
      r := Ok(built);
    }

    static lemma {:induction false} TilesFirst(parts: seq<Part>, a: nat, b: nat)
      requires Tiles(parts, a, b)
      ensures a <= b && (parts == [] ==> a == b) && (parts != [] ==> parts[0].a == a)
    {
      TilesStart(parts, a, b);
      if parts != [] {
        TilesAt(parts, a, b, 0);
        assert parts[..0] == [];
      }
    }

    static lemma {:induction false} NothingCarried(S: Sources, T: Sources, runs: seq<Written>)
      ensures Carried([], [], S, T, runs)
    {
    }

    static lemma {:induction false} PartAt(parts: seq<Part>, i: nat, src: nat, runs: seq<Written>, orphans: seq<Orphan>)
      requires TrueParts(parts, src, runs) && Listed(parts, src, orphans) && i < |parts|
      ensures TruePart(parts[i], src, runs) && HasOrphan(orphans, src, parts[i])
    {
      hide TruePart;
      hide HasOrphan;
    }

    /** `_rewrite`: the pieces of one content after the save, contiguous rewritten neighbours joined. */
    method Rewrite(content: Content, parts: PartMap, copied: map<Orphan, Piece>, orphans: seq<Orphan>, retained: Option<Legacy>)
        returns (r: Result<Content>)
      requires Valid() && TrueContent(content, old_.All()) && Ready(copied, orphans, retained)
      requires Splits(parts, layout.Runs()) && AllListed(parts, orphans) && AllSplit(content.pieces, parts)
      ensures r.Ok? ==> Keeps(content, r.value, old_.All(), After(retained))
      ensures r.Ok? ==> Carried(Addr(content.pieces), Addr(r.value.pieces), old_.All(), After(retained), layout.Runs())
      ensures r.Err? ==> exists p :: p in content.pieces && GenerationOf(p.src) == 0 && MuteFor(p, retained.Some?)
      ensures r.Ok? && (forall p :: p in content.pieces ==> GenerationOf(p.src) == 0) ==> Merged(r.value.pieces)
    {
      hide *;
      Parts();
      ghost var S, T, runs := old_.All(), After(retained), layout.Runs();
      ContentPieces(content, S);
      var built: seq<Built>, i := [], 0;
      RewrittenIs(built);
      NoneTrue(T);
      PiecesOfSnoc([], Built(Piece(0, 0, 0, 0, 0, false, false), false));
      NothingCarried(S, T, runs);
      assert content.pieces[..0] == [];
      while i < |content.pieces|
        invariant 0 <= i <= |content.pieces| && AllTrue(PiecesOf(built), T)
        invariant Carried(Addr(content.pieces[..i]), Addr(PiecesOf(built)), S, T, runs)
        invariant (forall p :: p in content.pieces ==> GenerationOf(p.src) == 0) ==> AllRewritten(built)
      {
        var piece := content.pieces[i];
        assert piece in content.pieces;
        AllTrueAt(content.pieces, i, S);
        OneMorePiece(content.pieces, i);
        var more: seq<Built>;
        if GenerationOf(piece.src) != 0 {
          LegacyStays(piece, retained);
          PiecesOfSnoc([], Built(piece, false));
          AllTrueTwo(piece, piece, T);
          Addr1Is(piece);
          more := [Built(piece, false)];
        } else {
          PartsOf(content.pieces, i, parts, runs, orphans);
          var made := RewritePiece(piece, parts[piece], copied, orphans, retained);
          if made.Err? {
            return Err(made.error);
          }
          more := made.value;
        }
        AllTrueJoin(PiecesOf(built), PiecesOf(more), T);
        PiecesOfJoin(built, more);
        RewrittenJoin(built, more);
        AddrConcat(PiecesOf(built), PiecesOf(more));
        CarriedJoin(Addr(content.pieces[..i]), Addr1(piece), Addr(PiecesOf(built)), Addr(PiecesOf(more)), S, T, runs);
        built := built + more;
        i := i + 1;
      }
      assert content.pieces[..i] == content.pieces;
      RewrittenIs(built);
      var pieces := MergeBuilt(built, T);
      CarriedBytes(Addr(content.pieces), Addr(pieces), S, T, runs);
      DocOf(content.pieces, S);
      DocOf(pieces, T);
      CopiedSummary(content, pieces, S, T);
      WithPiecesIs(content, pieces);
      r := Ok(WithPieces(content, pieces));
    }

    static ghost predicate AllRewritten(built: seq<Built>) {
      forall i :: 0 <= i < |built| ==> built[i].rewritten
    }

    static lemma {:induction false} RewrittenIs(built: seq<Built>)
      ensures AllRewritten(built) <==> forall i :: 0 <= i < |built| ==> built[i].rewritten
    {
    }

    static lemma {:induction false} RewrittenJoin(a: seq<Built>, b: seq<Built>)
      ensures AllRewritten(a) && AllRewritten(b) ==> AllRewritten(a + b)
    {
    }

    static lemma {:induction false} WithPiecesIs(c: Content, pieces: seq<Piece>)
      ensures WithPieces(c, pieces).pieces == pieces
    {
    }

    static lemma {:induction false} DocOf(ps: seq<Piece>, S: Sources)
      ensures Doc(ps, S) == BytesAt(Addr(ps), S)
    {
    }

    static lemma {:induction false} ContentPieces(content: Content, S: Sources)
      requires TrueContent(content, S)
      ensures AllTrue(content.pieces, S)
    {
      hide AllTrue;
    }

    static lemma {:induction false} OneMorePiece(ps: seq<Piece>, i: nat)
      requires i < |ps|
      ensures Addr(ps[..i + 1]) == Addr(ps[..i]) + Addr1(ps[i])
    {
      hide *;
      assert ps[..i + 1] == ps[..i] + [ps[i]];
      AddrConcat(ps[..i], [ps[i]]);
      Addr1Is(ps[i]);
    }

    static lemma {:induction false} PiecesOfJoin(a: seq<Built>, b: seq<Built>)
      ensures PiecesOf(a + b) == PiecesOf(a) + PiecesOf(b)
    {
    }

    static lemma {:induction false} PartsOf(ps: seq<Piece>, i: nat, parts: PartMap, runs: seq<Written>, orphans: seq<Orphan>)
      requires i < |ps| && GenerationOf(ps[i].src) == 0 && AllSplit(ps, parts) && Splits(parts, runs) && AllListed(parts, orphans)
      ensures ps[i] in parts && GoodParts(ps[i], parts[ps[i]], runs) && Listed(parts[ps[i]], ps[i].src, orphans)
    {
      hide GoodParts;
      hide Listed;
    }

    /** A piece of an older generation needs no change. */
    lemma {:induction false} LegacyStays(piece: Piece, retained: Option<Legacy>)
      requires Valid() && TruePiece(piece, old_.All()) && GenerationOf(piece.src) > 0
      ensures TruePiece(piece, After(retained))
      ensures Carried(Addr1(piece), Addr1(piece), old_.All(), After(retained), layout.Runs())
    {
      hide *;
      Parts();
      ghost var S, T := old_.All(), After(retained);
      Navigation.TrueParts(piece, S);
      AfterIs(retained);
      OldSourcesMove(old_, newOriginal, store.segments, retained, piece.src);
      Renumbered(piece, piece.src, S, T);
      SamePiece(piece);
      CarryLegacy(piece, S, T, layout.Runs());
    }

    static lemma {:induction false} SamePiece(piece: Piece)
      ensures piece.(src := piece.src) == piece
    {
    }

    // ----- the translation --------------------------------------------------------------------------------------

    /**
     `_translate`: rewrite all contents, or give the history up when the old files would have to be kept and no
     generation is free. It fails only for what `Hindered` names, and a range that cannot be read is never passed over.
     */
    method TranslateAll(contents: seq<Content>) returns (r: Result<Plan>)
      requires Valid() && TrueContents(contents, old_.All()) && |store.segments| + limit < SEGMENTS
      modifies this`tables, this`store
      ensures Valid()
      ensures r.Ok? ==> GoodPlan(r.value, contents, old_, newOriginal, maxGeneration) && r.value.store == store
      ensures r.Ok? ==> Thrifty(r.value, contents)
      ensures r.Err? ==> Hindered(contents)
      ensures r.Ok? ==> r.value.clearHistory || r.value.retained.Some? || !ReadFails(contents)
    {
      hide *;
      Parts();
      var parts, orphans := Collect(contents);
      Parts();
      ghost var S, runs := old_.All(), layout.Runs();
      TotalBounds(orphans, S);
      var total: nat := Total(orphans);
      LackedIs(orphans, contents, runs);
      var keepOld := total > limit;
      if keepOld && |old_.legacy| + 1 > maxGeneration {
        r := Ok(Plan([], store, None, true, total));
        ClearedPlan(r.value, contents, old_, newOriginal, maxGeneration);
        ThriftyIs(r.value, contents);
        return;
      }
      if keepOld && oldFiles.None? {
        IsHindered(contents, total);
        return Err(ValueError);
      }
      var copied: map<Orphan, Piece> := map[];
      var retained := if keepOld then oldFiles else None;
      if !keepOld {
        var done := CopyOrphans(orphans);
        ReadsAre(orphans, contents);
        if done.Err? {
          IsHindered(contents, total);
          return Err(done.error);
        }
        copied := done.value;
      }
      Parts();
      IsReady(copied, orphans, retained);
      var translated := RewriteEach(contents, parts, copied, orphans, retained);
      if translated.Err? {
        IsHindered(contents, total);
        return Err(translated.error);
      }
      AfterIs(retained);
      r := Ok(Plan(translated.value, store, retained, false, total));
      KeptPlan(r.value, contents, old_, newOriginal, maxGeneration);
      ThriftyIs(r.value, contents);
    }

    /** Reading some range that the contents need and the new file lacks fails. */
    ghost predicate ReadFails(contents: seq<Content>)
      reads this, layout
      requires layout.Valid()
    {
      exists o, p :: Live(p, contents) && Gap(o, p, layout.Runs()) && broken(o)
    }

    lemma {:induction false} ReadsAre(orphans: seq<Orphan>, contents: seq<Content>)
      requires layout.Valid() && Lacks(orphans, contents, layout.Runs())
      ensures ReadFails(contents) <==> exists i :: 0 <= i < |orphans| && broken(orphans[i])
    {
      hide Live;
      hide Gap;
      var runs := layout.Runs();
      if ReadFails(contents) {
        var o, p :| Live(p, contents) && Gap(o, p, runs) && broken(o);
        assert o in orphans;
      }
      if exists i :: 0 <= i < |orphans| && broken(orphans[i]) {
        var i :| 0 <= i < |orphans| && broken(orphans[i]);
        assert orphans[i] in orphans;
        var p :| Live(p, contents) && Gap(orphans[i], p, runs);
      }
    }

    /**
     What can stand in the way: when the missing ranges are copied, a read that fails or an oracle that refuses; when the
     old files are kept, that they are not given or an oracle that refuses. Nothing does when the history is given up.
     */
    ghost predicate Hindered(contents: seq<Content>)
      reads this, layout
      requires layout.Valid()
    {
      exists n: nat :: LackedBytes(n, contents, layout.Runs()) && HinderedAt(n, contents)
    }

    ghost predicate HinderedAt(n: nat, contents: seq<Content>)
      reads this, layout
      requires layout.Valid()
    {
      if n <= limit then ReadFails(contents) || SomeMute(contents, false)
      else |old_.legacy| + 1 <= maxGeneration && (oldFiles.None? || SomeMute(contents, true))
    }

    lemma {:induction false} IsHindered(contents: seq<Content>, n: nat)
      requires layout.Valid() && LackedBytes(n, contents, layout.Runs())
      ensures n <= limit && (ReadFails(contents) || SomeMute(contents, false)) ==> Hindered(contents)
      ensures n > limit && |old_.legacy| + 1 <= maxGeneration && (oldFiles.None? || SomeMute(contents, true)) ==> Hindered(contents)
    {
      hide LackedBytes;
      hide ReadFails;
      hide SomeMute;
    }

    /**
     No more is kept than must be: every byte that the new file holds is taken from its first occurrence there, and
     the old files stay, or the history goes, exactly when the distinct ranges that the contents need and the new file
     lacks are more than `limit` bytes.
     */
    ghost predicate Thrifty(plan: Plan, contents: seq<Content>)
      reads this, layout
      requires layout.Valid()
    {
      && LackedBytes(plan.orphanBytes, contents, layout.Runs())
      && (plan.clearHistory || plan.retained.Some? <==> plan.orphanBytes > limit)
      && (!plan.clearHistory ==>
            && |plan.contents| == |contents|
            && forall i :: 0 <= i < |contents| && i < |plan.contents| ==>
                 Carried(Addr(contents[i].pieces), Addr(plan.contents[i].pieces), old_.All(), After(plan.retained), layout.Runs()))
    }

    lemma {:induction false} ThriftyIs(plan: Plan, contents: seq<Content>)
      requires layout.Valid()
      ensures Thrifty(plan, contents) <==>
                && LackedBytes(plan.orphanBytes, contents, layout.Runs())
                && (plan.clearHistory || plan.retained.Some? <==> plan.orphanBytes > limit)
                && (!plan.clearHistory ==>
                      && |plan.contents| == |contents|
                      && forall i :: 0 <= i < |contents| && i < |plan.contents| ==>
                           Carried(Addr(contents[i].pieces), Addr(plan.contents[i].pieces), old_.All(), After(plan.retained), layout.Runs()))
    {
      hide Carried;
      hide After;
      hide Addr;
      hide LackedBytes;
    }

    static lemma {:induction false} LackedIs(orphans: seq<Orphan>, contents: seq<Content>, runs: seq<Written>)
      requires Lacks(orphans, contents, runs) && Total(orphans) >= 0
      ensures LackedBytes(Total(orphans), contents, runs)
    {
      hide Lacks;
    }

    lemma {:induction false} IsReady(copied: map<Orphan, Piece>, orphans: seq<Orphan>, retained: Option<Legacy>)
      requires retained.Some? ==> retained == Some(Legacy(old_.original, old_.segments)) && copied == map[]
      requires retained.None? ==> Copies(copied, old_.All(), After(None)) && forall i :: 0 <= i < |orphans| ==> orphans[i] in copied
      ensures Ready(copied, orphans, retained)
    {
      hide Copies;
      hide After;
    }

    method RewriteEach(contents: seq<Content>, parts: PartMap, copied: map<Orphan, Piece>, orphans: seq<Orphan>, retained: Option<Legacy>)
        returns (r: Result<seq<Content>>)
      requires Valid() && TrueContents(contents, old_.All()) && Ready(copied, orphans, retained)
      requires Splits(parts, layout.Runs()) && AllListed(parts, orphans) && ContentsSplit(contents, parts)
      ensures r.Ok? ==> AllKept(contents, r.value, old_.All(), After(retained)) && |r.value| == |contents|
      ensures r.Ok? ==> forall i :: 0 <= i < |contents| ==>
                Carried(Addr(contents[i].pieces), Addr(r.value[i].pieces), old_.All(), After(retained), layout.Runs())
      ensures r.Err? ==> SomeMute(contents, retained.Some?)
    {
      hide *;
      Parts();
      ghost var S, T, runs := old_.All(), After(retained), layout.Runs();
      var out: seq<Content>, i := [], 0;
      KeptNone(contents, S, T);
      while i < |contents|
        invariant 0 <= i <= |contents| && |out| == i && AllKept(contents[..i], out, S, T)
        invariant forall j :: 0 <= j < i ==> Carried(Addr(contents[j].pieces), Addr(out[j].pieces), S, T, runs)
      {
        TrueContentAt(contents, i, S);
        SplitAt(contents, i, parts);
        var c := Rewrite(contents[i], parts, copied, orphans, retained);
        if c.Err? {
          ghost var p :| p in contents[i].pieces && GenerationOf(p.src) == 0 && MuteFor(p, retained.Some?);
          MuteIn(contents, i, p, retained.Some?);
          return Err(c.error);
        }
        KeptSnoc(contents, out, i, c.value, S, T);
        out := out + [c.value];
        i := i + 1;
      }
      assert contents[..i] == contents;
      r := Ok(out);
    }

    static lemma {:induction false} SplitAt(contents: seq<Content>, i: nat, parts: PartMap)
      requires ContentsSplit(contents, parts) && i < |contents|
      ensures AllSplit(contents[i].pieces, parts)
    {
    }

    /**
     `translate`: whatever fails on the way, every content denotes afterwards the bytes it denoted before, or the
     history is given up because no generation is free. Everything is kept as it was only when something stood in the
     way of the translation.
     */
    method Translate(contents: seq<Content>) returns (r: Result<Plan>)
      requires Valid() && TrueContents(contents, old_.All()) && |store.segments| + limit < SEGMENTS
      modifies this`tables, this`store
      ensures Valid() && layout.Valid()
      ensures r.Ok? ==> GoodPlan(r.value, contents, old_, newOriginal, maxGeneration) && r.value.store == store
      ensures r.Err? ==> r == Err(ValueError) && oldFiles.None? && |old_.legacy| + 1 <= maxGeneration && Hindered(contents)
      ensures !Hindered(contents) ==> r.Ok? && Thrifty(r.value, contents)
      ensures r.Ok? && ReadFails(contents) ==> r.value.clearHistory || r.value.retained.Some?
    {
      hide *;
      Parts();
      r := TranslateAll(contents);
      Parts();
      if r.Err? {
        r := RetainAll(contents, store, oldFiles, old_, maxGeneration, newOriginal);
      }
    }
  }
}
