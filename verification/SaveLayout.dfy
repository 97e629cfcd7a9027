/**
 Which part of the saved file came from which source range (`save_layout.py`), and the sweep that turns the
 recorded runs into the map of first occurrences.
 */
module SaveLayout {
  import opened Rows

  /** The part `[a, b)` of source `src`, written at offset `out` of the new file. */
  datatype Written = Written(src: nat, a: nat, b: nat, out: nat)

  /** Source bytes `[a, b)` found at `out` of the new file. */
  datatype Interval = Interval(a: nat, b: nat, out: nat)

  predicate Covers(w: Written, src: nat, y: int) {
    w.src == src && w.a <= y < w.b
  }

  /** Run `k` is the earliest recorded one that holds byte `y` of `src`. */
  ghost predicate Owns(runs: seq<Written>, src: nat, k: nat, y: int) {
    k < |runs| && Covers(runs[k], src, y) && forall j :: 0 <= j < k ==> !Covers(runs[j], src, y)
  }

  predicate Holds(iv: Interval, y: int) {
    iv.a <= y < iv.b
  }

  function PlaceIn(iv: Interval, y: int): int {
    iv.out + y - iv.a
  }

  function PlaceOf(w: Written, y: int): int {
    w.out + y - w.a
  }

  /** Non-empty, disjoint and ascending. */
  ghost predicate Ascending(ivs: seq<Interval>) {
    && (forall i :: 0 <= i < |ivs| ==> ivs[i].a < ivs[i].b)
    && (forall i, j :: 0 <= i < j < |ivs| ==> ivs[i].b <= ivs[j].a)
  }

  ghost predicate EndBefore(ivs: seq<Interval>, high: int) {
    forall i :: 0 <= i < |ivs| ==> ivs[i].b <= high
  }

  /** Every held byte is sent to its place in the earliest run that covers it. */
  ghost predicate Sends(ivs: seq<Interval>, runs: seq<Written>, src: nat) {
    forall i, y :: 0 <= i < |ivs| && Holds(ivs[i], y) ==> Sent(ivs[i], runs, src, y)
  }

  ghost predicate Sent(iv: Interval, runs: seq<Written>, src: nat, y: int) {
    exists k: nat :: Owns(runs, src, k, y) && PlaceIn(iv, y) == PlaceOf(runs[k], y)
  }

  /** Every byte in front of `high` that some run covers is held. */
  ghost predicate Complete(ivs: seq<Interval>, runs: seq<Written>, src: nat, high: int) {
    forall k, y :: 0 <= k < |runs| && Covers(runs[k], src, y) && y < high ==> HeldBy(ivs, y)
  }

  ghost predicate HeldBy(ivs: seq<Interval>, y: int) {
    exists i :: 0 <= i < |ivs| && Holds(ivs[i], y)
  }

  /** The map of first occurrences. */
  ghost predicate FirstOccurrences(ivs: seq<Interval>, runs: seq<Written>, src: nat) {
    && Ascending(ivs)
    && Sends(ivs, runs, src)
    && (forall y :: HeldBy(ivs, y) <==> CoveredBy(runs, src, y))
  }

  ghost predicate CoveredBy(runs: seq<Written>, src: nat, y: int) {
    exists k :: 0 <= k < |runs| && Covers(runs[k], src, y)
  }

  // ----- sorting -----------------------------------------------------------------------------------

  /** Ascending without repetition. */
  predicate Strict(s: seq<nat>) {
    forall i, j :: 0 <= i < j < |s| ==> s[i] < s[j]
  }

  /** `sorted` of a set of bounds, built one value at a time. */
  method InsertBound(s: seq<nat>, v: nat) returns (t: seq<nat>)
    requires Strict(s)
    ensures Strict(t) && forall x :: x in t <==> x in s || x == v
  {
    var i := 0;
    while i < |s| && s[i] < v
      invariant 0 <= i <= |s| && forall j :: 0 <= j < i ==> s[j] < v
    {
      i := i + 1;
    }
    if i < |s| && s[i] == v {
      return s;
    }
    t := s[..i] + [v] + s[i..];
    forall x
      ensures x in t <==> x in s || x == v
    {
      InInserted(s, i, v, x);
    }
  }

  lemma {:induction false} InInserted(s: seq<nat>, i: nat, v: nat, x: nat)
    requires i <= |s|
    ensures x in s[..i] + [v] + s[i..] <==> x in s || x == v
  {
    assert s == s[..i] + s[i..];
  }

  /** Ascending by the start of the run. */
  ghost predicate ByStart(rows: seq<nat>, starts: seq<nat>) {
    && (forall i :: 0 <= i < |rows| ==> rows[i] < |starts|)
    && (forall i, j :: 0 <= i < j < |rows| ==> rows[i] < |starts| && rows[j] < |starts| && starts[rows[i]] <= starts[rows[j]])
  }

  /** `sorted` by start, stable: an equal start goes behind. */
  method InsertRow(rows: seq<nat>, k: nat, starts: seq<nat>) returns (t: seq<nat>)
    requires ByStart(rows, starts) && k < |starts|
    ensures ByStart(t, starts) && forall x :: x in t <==> x in rows || x == k
  {
    var i := |rows|;
    while i > 0 && starts[rows[i - 1]] > starts[k]
      invariant 0 <= i <= |rows| && forall j :: i <= j < |rows| ==> starts[rows[j]] > starts[k]
    {
      i := i - 1;
    }
    t := rows[..i] + [k] + rows[i..];
    forall x
      ensures x in t <==> x in rows || x == k
    {
      InInserted(rows, i, k, x);
    }
  }

  // ----- one cell of the sweep ------------------------------------------------------------------------

  /** No run begins or ends strictly inside `[x, next)`. */
  ghost predicate Cell(runs: seq<Written>, src: nat, x: int, next: int) {
    x < next && forall k :: 0 <= k < |runs| && runs[k].src == src ==> !(x < runs[k].a < next) && !(x < runs[k].b < next)
  }

  /** What was swept so far is the map of first occurrences in front of `high`. */
  ghost predicate Swept(ivs: seq<Interval>, runs: seq<Written>, src: nat, high: int) {
    Ascending(ivs) && EndBefore(ivs, high) && Sends(ivs, runs, src) && Complete(ivs, runs, src, high)
  }

  lemma {:induction false} CellSame(runs: seq<Written>, src: nat, x: int, next: int, k: nat, y: int)
    requires Cell(runs, src, x, next) && x <= y < next && k < |runs|
    ensures Covers(runs[k], src, y) <==> Covers(runs[k], src, x)
  {
  }

  lemma {:induction false} CellOwner(runs: seq<Written>, src: nat, x: int, next: int, k: nat, y: int)
    requires Cell(runs, src, x, next) && x <= y < next && Owns(runs, src, k, x)
    ensures Owns(runs, src, k, y)
  {
    CellSame(runs, src, x, next, k, y);
    forall j | 0 <= j < k
      ensures !Covers(runs[j], src, y)
    {
      CellSame(runs, src, x, next, j, y);
    }
  }

  /** A cell that no run covers adds nothing. */
  lemma {:induction false} EmptyCell(ivs: seq<Interval>, runs: seq<Written>, src: nat, x: int, next: int)
    requires Swept(ivs, runs, src, x) && Cell(runs, src, x, next)
    requires forall k :: 0 <= k < |runs| ==> !Covers(runs[k], src, x)
    ensures Swept(ivs, runs, src, next)
  {
    forall k, y | 0 <= k < |runs| && x <= y < next
      ensures !Covers(runs[k], src, y)
    {
      CellSame(runs, src, x, next, k, y);
    }
  }

  /** A cell is appended as an interval of its own. */
  lemma {:induction false} NewInterval(ivs: seq<Interval>, runs: seq<Written>, src: nat, x: nat, next: nat, k: nat)
    requires Swept(ivs, runs, src, x) && Cell(runs, src, x, next) && Owns(runs, src, k, x)
    ensures Swept(ivs + [Interval(x, next, runs[k].out + x - runs[k].a)], runs, src, next)
  {
    var iv := Interval(x, next, runs[k].out + x - runs[k].a);
    var all := ivs + [iv];
    forall i, y | 0 <= i < |all| && Holds(all[i], y)
      ensures Sent(all[i], runs, src, y)
    {
      if i == |ivs| {
        CellOwner(runs, src, x, next, k, y);
        assert PlaceIn(iv, y) == PlaceOf(runs[k], y);
      } else {
        assert all[i] == ivs[i] && Holds(ivs[i], y);
      }
    }
    forall j, y | 0 <= j < |runs| && Covers(runs[j], src, y) && y < next
      ensures HeldBy(all, y)
    {
      if y >= x {
        assert Holds(all[|ivs|], y);
      } else {
        assert HeldBy(ivs, y);
        var i :| 0 <= i < |ivs| && Holds(ivs[i], y);
        assert Holds(all[i], y);
      }
    }
  }

  /** A cell of the same run, right behind the last interval, extends it. */
  lemma {:induction false} LongerInterval(ivs: seq<Interval>, runs: seq<Written>, src: nat, x: nat, next: nat, k: nat)
    requires Swept(ivs, runs, src, x) && Cell(runs, src, x, next) && Owns(runs, src, k, x)
    requires ivs != [] && ivs[|ivs| - 1].b == x && ivs[|ivs| - 1].out + runs[k].a == runs[k].out + ivs[|ivs| - 1].a
    ensures Swept(ivs[..|ivs| - 1] + [ivs[|ivs| - 1].(b := next)], runs, src, next)
  {
    var n := |ivs| - 1;
    var iv := ivs[n].(b := next);
    var all := ivs[..n] + [iv];
    forall i, y | 0 <= i < |all| && Holds(all[i], y)
      ensures Sent(all[i], runs, src, y)
    {
      if i == n && y >= x {
        CellOwner(runs, src, x, next, k, y);
        assert PlaceIn(iv, y) == PlaceOf(runs[k], y);
      } else {
        assert Holds(ivs[i], y) && Sent(ivs[i], runs, src, y);
        var j: nat :| Owns(runs, src, j, y) && PlaceIn(ivs[i], y) == PlaceOf(runs[j], y);
        assert PlaceIn(all[i], y) == PlaceIn(ivs[i], y);
      }
    }
    forall j, y | 0 <= j < |runs| && Covers(runs[j], src, y) && y < next
      ensures HeldBy(all, y)
    {
      if y >= x {
        assert Holds(all[n], y);
      } else {
        assert HeldBy(ivs, y);
        var i :| 0 <= i < |ivs| && Holds(ivs[i], y);
        assert Holds(all[i], y);
      }
    }
  }

  /** At the last bound everything is swept. */
  lemma {:induction false} SweptAll(ivs: seq<Interval>, runs: seq<Written>, src: nat, high: int)
    requires Swept(ivs, runs, src, high)
    requires forall k :: 0 <= k < |runs| && runs[k].src == src ==> runs[k].b <= high
    ensures FirstOccurrences(ivs, runs, src)
  {
    forall y
      ensures HeldBy(ivs, y) <==> CoveredBy(runs, src, y)
    {
      if HeldBy(ivs, y) {
        var i :| 0 <= i < |ivs| && Holds(ivs[i], y);
        assert Sent(ivs[i], runs, src, y);
        var k: nat :| Owns(runs, src, k, y) && PlaceIn(ivs[i], y) == PlaceOf(runs[k], y);
        assert Covers(runs[k], src, y);
      }
      if CoveredBy(runs, src, y) {
        var k :| 0 <= k < |runs| && Covers(runs[k], src, y);
        assert HeldBy(ivs, y);
      }
    }
  }

  /** The head of the heap: the run recorded first. */
  method Least(h: set<nat>) returns (k: nat)
    requires h != {}
    ensures k in h && forall j :: j in h ==> k <= j
  {
    k :| k in h;
    var rest := h - {k};
    while rest != {}
      invariant k in h && rest <= h
      invariant forall j :: j in h && j !in rest ==> k <= j
      decreases |rest|
    {
      var j :| j in rest;
      rest := rest - {j};
      if j < k {
        k := j;
      }
    }
  }

  // ----- the recorder ---------------------------------------------------------------------------------

  class SaveLayout {
    var src: seq<nat>
    var a: seq<nat>
    var b: seq<nat>
    var out: seq<nat>

    ghost predicate Valid()
      reads this
    {
      && |src| == |a| == |b| == |out|
      && forall k :: 0 <= k < |a| ==> a[k] <= b[k]
    }

    /** The recorded runs in add order. */
    ghost function Runs(): seq<Written>
      requires Valid()
      reads this
    {
      RunsOf(src, a, b, out)
    }

    static ghost function RunsOf(src: seq<nat>, a: seq<nat>, b: seq<nat>, out: seq<nat>): seq<Written>
      requires |src| == |a| == |b| == |out|
    {
      seq(|src|, k requires 0 <= k < |src| => Written(src[k], a[k], b[k], out[k]))
    }

    constructor ()
      ensures Valid() && Runs() == []
    {
      src, a, b, out := [], [], [], [];
    }

    method Add(s: nat, lo: nat, hi: nat, at: nat)
      requires Valid() && lo <= hi
      modifies this
      ensures Valid() && Runs() == old(Runs()) + [Written(s, lo, hi, at)]
    {
      src, a, b, out := src + [s], a + [lo], b + [hi], out + [at];
      assert Runs() == old(Runs()) + [Written(s, lo, hi, at)];
    }

    lemma {:induction false} RunAt(k: nat)
      requires Valid() && k < |src|
      ensures |Runs()| == |src| && Runs()[k] == Written(src[k], a[k], b[k], out[k]) && a[k] <= b[k]
    {
    }

    /** The runs of one source by ascending start, and all their bounds. */
    method Sorted(s: nat) returns (byStart: seq<nat>, bounds: seq<nat>)
      requires Valid()
      ensures ByStart(byStart, a) && Strict(bounds)
      ensures forall k :: k in byStart <==> 0 <= k < |src| && src[k] == s
      ensures forall k :: k in byStart ==> k < |a| && a[k] in bounds && b[k] in bounds
    {
      hide ByStart;
      hide Strict;
      byStart, bounds := [], [];
      var k := 0;
      NothingSorted(a);
      while k < |src|
        invariant 0 <= k <= |src| && ByStart(byStart, a) && Strict(bounds)
        invariant forall j :: j in byStart <==> 0 <= j < k && src[j] == s
        invariant forall j :: j in byStart ==> j < |a| && a[j] in bounds && b[j] in bounds
      {
        if src[k] == s {
          byStart := InsertRow(byStart, k, a);
          bounds := InsertBound(bounds, a[k]);
          bounds := InsertBound(bounds, b[k]);
        }
        k := k + 1;
      }
    }

    static lemma {:induction false} NothingSorted(starts: seq<nat>)
      ensures ByStart([], starts) && Strict([])
    {
    }

    /** The runs that started in front of the sweep position and have not ended before it are in the heap. */
    ghost predicate HeapAt(heap: set<nat>, s: nat, p: int)
      requires Valid()
      reads this
    {
      && (forall k :: k in heap ==> k < |src| && src[k] == s && a[k] < p)
      && (forall k :: 0 <= k < |src| && src[k] == s && a[k] < p && b[k] >= p ==> k in heap)
    }

    /** Runs in front of `cursor` start before `p`, the others at or behind it. */
    ghost predicate CursorAt(byStart: seq<nat>, cursor: nat, p: int)
      requires Valid()
      reads this
    {
      && cursor <= |byStart|
      && (forall j :: 0 <= j < |byStart| ==> byStart[j] < |a|)
      && (forall j :: 0 <= j < cursor ==> a[byStart[j]] < p)
      && (forall j :: cursor <= j < |byStart| ==> a[byStart[j]] >= p)
    }

    /** Push the runs that start at the sweep position, then drop ended runs while they are at the head. */
    method Sweep(byStart: seq<nat>, cursor: nat, heap: set<nat>, s: nat, x: nat) returns (c: nat, h: set<nat>, head: Option<nat>)
      requires Valid() && ByStart(byStart, a) && CursorAt(byStart, cursor, x) && HeapAt(heap, s, x)
      requires forall k :: k in byStart <==> 0 <= k < |src| && src[k] == s
      ensures CursorAt(byStart, c, x + 1)
      ensures forall k :: k in h ==> k < |src| && src[k] == s && a[k] < x + 1
      ensures forall k :: 0 <= k < |src| && src[k] == s && a[k] < x + 1 && b[k] > x ==> k in h
      ensures head.None? ==> forall k :: 0 <= k < |Runs()| ==> !Covers(Runs()[k], s, x)
      ensures head.Some? ==> head.value < |src| && Owns(Runs(), s, head.value, x)
    {
      hide *;
      c, h := Push(byStart, cursor, heap, s, x);
      head := None;
      Columns();
      while h != {}
        invariant forall k :: k in h ==> k < |src| && src[k] == s && a[k] < x + 1
        invariant forall k :: 0 <= k < |src| && src[k] == s && a[k] < x + 1 && b[k] > x ==> k in h
        decreases |h|
      {
        var k := Least(h);
        if b[k] > x {
          head := Some(k);
          HeadOwns(h, k, s, x);
          return;
        }
        h := h - {k};
      }
      NoneCovers(s, x);
    }

    method Push(byStart: seq<nat>, cursor: nat, heap: set<nat>, s: nat, x: nat) returns (c: nat, h: set<nat>)
      requires Valid() && ByStart(byStart, a) && CursorAt(byStart, cursor, x) && HeapAt(heap, s, x)
      requires forall k :: k in byStart <==> 0 <= k < |src| && src[k] == s
      ensures CursorAt(byStart, c, x + 1) && |src| == |a| == |b|
      ensures forall k :: k in h ==> k < |src| && src[k] == s && a[k] < x + 1
      ensures forall k :: 0 <= k < |src| && src[k] == s && a[k] < x + 1 && b[k] > x ==> k in h
    {
      hide ByStart;
      c, h := cursor, heap;
      while c < |byStart| && a[byStart[c]] <= x
        invariant cursor <= c <= |byStart|
        invariant forall j :: 0 <= j < c ==> a[byStart[j]] < x + 1
        invariant forall k :: k in h ==> k < |src| && src[k] == s && a[k] < x + 1
        invariant forall k :: 0 <= k < |src| && src[k] == s && a[k] < x && b[k] >= x ==> k in h
        invariant forall j :: cursor <= j < c ==> byStart[j] in h
      {
        assert byStart[c] in byStart;
        h := h + {byStart[c]};
        c := c + 1;
      }
      AllPushed(byStart, cursor, c, h, s, x);
    }

    lemma {:induction false} NoneCovers(s: nat, x: nat)
      requires Valid() && forall k :: 0 <= k < |src| && src[k] == s && a[k] < x + 1 ==> b[k] <= x
      ensures |Runs()| == |src| && forall k :: 0 <= k < |src| ==> !Covers(Runs()[k], s, x)
    {
    }

    lemma {:induction false} AllPushed(byStart: seq<nat>, cursor: nat, c: nat, h: set<nat>, s: nat, x: nat)
      requires Valid() && ByStart(byStart, a) && cursor <= c <= |byStart| && CursorAt(byStart, cursor, x)
      requires c < |byStart| ==> a[byStart[c]] > x
      requires forall k :: k in byStart <==> 0 <= k < |src| && src[k] == s
      requires forall k :: 0 <= k < |src| && src[k] == s && a[k] < x && b[k] >= x ==> k in h
      requires forall j :: cursor <= j < c ==> byStart[j] in h
      ensures forall j :: c <= j < |byStart| ==> a[byStart[j]] >= x + 1
      ensures forall k :: 0 <= k < |src| && src[k] == s && a[k] < x + 1 && b[k] > x ==> k in h
    {
      forall j | c <= j < |byStart|
        ensures a[byStart[j]] >= x + 1
      {
        assert j > c ==> a[byStart[c]] <= a[byStart[j]];
      }
      forall k | 0 <= k < |src| && src[k] == s && a[k] < x + 1 && b[k] > x
        ensures k in h
      {
        assert k in byStart;
        var j :| 0 <= j < |byStart| && byStart[j] == k;
        assert j < c;
      }
    }

    lemma {:induction false} HeadOwns(h: set<nat>, k: nat, s: nat, x: nat)
      requires Valid() && k in h && forall j :: j in h ==> k <= j
      requires k < |src| && src[k] == s && a[k] < x + 1 && b[k] > x
      requires forall k :: 0 <= k < |src| && src[k] == s && a[k] < x + 1 && b[k] > x ==> k in h
      ensures Owns(Runs(), s, k, x)
    {
      forall j | 0 <= j < k
        ensures !Covers(Runs()[j], s, x)
      {
        RunAt(j);
      }
    }

    /**
     `intervals`: the ranges of source `s` that the new file holds. Each byte is sent to its place in the earliest
     recorded run that covers it.
     */
    method Intervals(s: nat) returns (result: seq<Interval>)
      requires Valid()
      ensures FirstOccurrences(result, Runs(), s)
    {
      hide *;
      Columns();
      var byStart, bounds := Sorted(s);
      var heap: set<nat>, cursor, owner: Option<nat> := {}, 0, None;
      result := [];
      var i := 0;
      SweepStarts(byStart, bounds, s);
      while i + 1 < |bounds|
        invariant 0 <= i && (i < |bounds| || bounds == [])
        invariant bounds != [] ==> CursorAt(byStart, cursor, bounds[i]) && HeapAt(heap, s, bounds[i])
        invariant Swept(result, Runs(), s, if bounds == [] then 0 else bounds[i])
        invariant owner.Some? ==>
                    && result != [] && owner.value < |src|
                    && result[|result| - 1].out + a[owner.value] == out[owner.value] + result[|result| - 1].a
      {
        var x, next := bounds[i], bounds[i + 1];
        var head: Option<nat>;
        cursor, heap, head := Sweep(byStart, cursor, heap, s, x);
        NextBound(byStart, bounds, cursor, heap, s, i);
        if head.None? {
          AllRuns();
          EmptyCell(result, Runs(), s, x, next);
        } else {
          var k := head.value;
          RunAt(k);
          StartsFirst(k, s, x);
          if owner == Some(k) && result[|result| - 1].b == x {
            LongerInterval(result, Runs(), s, x, next, k);
            result := result[..|result| - 1] + [result[|result| - 1].(b := next)];
          } else {
            NewInterval(result, Runs(), s, x, next, k);
            result := result + [Interval(x, next, out[k] + x - a[k])];
            owner := Some(k);
          }
        }
        i := i + 1;
      }
      SweepEnds(byStart, bounds, s, i);
      SweptAll(result, Runs(), s, if bounds == [] then 0 else bounds[i]);
    }

    lemma {:induction false} Columns()
      requires Valid()
      ensures |src| == |a| == |b| == |out|
    {
    }

    lemma {:induction false} AllRuns()
      requires Valid()
      ensures |Runs()| == |src|
    {
    }

    lemma {:induction false} StartsFirst(k: nat, s: nat, x: nat)
      requires Valid() && Owns(Runs(), s, k, x)
      ensures k < |src| && a[k] <= x
    {
    }

    lemma {:induction false} SweepStarts(byStart: seq<nat>, bounds: seq<nat>, s: nat)
      requires Valid() && ByStart(byStart, a) && Strict(bounds)
      requires forall k :: k in byStart <==> 0 <= k < |src| && src[k] == s
      requires forall k :: k in byStart ==> k < |a| && a[k] in bounds && b[k] in bounds
      ensures bounds != [] ==> CursorAt(byStart, 0, bounds[0]) && HeapAt({}, s, bounds[0])
      ensures Swept([], Runs(), s, if bounds == [] then 0 else bounds[0])
    {
      if bounds != [] {
        forall k | 0 <= k < |src| && src[k] == s
          ensures a[k] >= bounds[0]
        {
          assert k in byStart;
          assert a[k] in bounds;
        }
        forall j | 0 <= j < |byStart|
          ensures byStart[j] < |a| && a[byStart[j]] >= bounds[0]
        {
          assert byStart[j] in byStart;
        }
      }
      forall k, y | 0 <= k < |Runs()| && Covers(Runs()[k], s, y)
        ensures bounds != [] && y >= bounds[0]
      {
        RunAt(k);
        assert k in byStart;
        assert a[k] in bounds;
      }
    }

    /** Between two neighbouring bounds nothing begins or ends. */
    lemma {:induction false} NextBound(byStart: seq<nat>, bounds: seq<nat>, cursor: nat, heap: set<nat>, s: nat, i: nat)
      requires Valid() && Strict(bounds) && i + 1 < |bounds|
      requires forall k :: k in byStart <==> 0 <= k < |src| && src[k] == s
      requires forall k :: k in byStart ==> k < |a| && a[k] in bounds && b[k] in bounds
      requires CursorAt(byStart, cursor, bounds[i] + 1)
      requires forall k :: k in heap ==> k < |src| && src[k] == s && a[k] < bounds[i] + 1
      requires forall k :: 0 <= k < |src| && src[k] == s && a[k] < bounds[i] + 1 && b[k] > bounds[i] ==> k in heap
      ensures bounds[i] < bounds[i + 1] && Cell(Runs(), s, bounds[i], bounds[i + 1])
      ensures CursorAt(byStart, cursor, bounds[i + 1]) && HeapAt(heap, s, bounds[i + 1])
    {
      forall v | v in bounds
        ensures v <= bounds[i] || v >= bounds[i + 1]
      {
        var j :| 0 <= j < |bounds| && bounds[j] == v;
      }
      forall j | cursor <= j < |byStart|
        ensures a[byStart[j]] >= bounds[i + 1]
      {
        assert byStart[j] in byStart;
      }
      forall k | 0 <= k < |src| && src[k] == s
        ensures a[k] in bounds && b[k] in bounds
      {
        assert k in byStart;
      }
    }

    lemma {:induction false} SweepEnds(byStart: seq<nat>, bounds: seq<nat>, s: nat, i: nat)
      requires Valid() && Strict(bounds) && i + 1 >= |bounds| && (i < |bounds| || bounds == [])
      requires forall k :: k in byStart <==> 0 <= k < |src| && src[k] == s
      requires forall k :: k in byStart ==> k < |a| && a[k] in bounds && b[k] in bounds
      ensures forall k :: 0 <= k < |Runs()| && Runs()[k].src == s ==> Runs()[k].b <= if bounds == [] then 0 else bounds[i]
    {
      forall k | 0 <= k < |Runs()| && Runs()[k].src == s
        ensures Runs()[k].b <= if bounds == [] then 0 else bounds[i]
      {
        RunAt(k);
        assert k in byStart;
        assert b[k] in bounds;
      }
    }
  }
}
