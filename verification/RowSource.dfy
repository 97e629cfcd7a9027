/** The pieces of one row as a byte source of its own (`row_source.py`), read piece by piece. */
module RowSource {
  import opened Rows
  import opened Pieces
  import opened SparseRows

  /** The non-empty pieces as ranges. */
  function Ranges(ps: seq<Piece>): seq<Run> {
    if ps == [] then []
    else
      var p := ps[|ps| - 1];
      Ranges(ps[..|ps| - 1]) + if p.b > p.a then [Run(p.src, p.a, p.b)] else []
  }

  /** The ranges place the bytes of the pieces. */
  lemma {:induction false} RangesPlaces(ps: seq<Piece>, S: Sources)
    requires forall i :: 0 <= i < |ps| ==> ps[i].src in S && ps[i].b <= |S[ps[i].src].data|
    ensures RunsPlaces(Ranges(ps)) == Addr(ps) && GoodRuns(Ranges(ps), S)
    decreases |ps|
  {
    hide Addr;
    hide Addr1;
    hide RunPlaces;
    hide RunsPlaces;
    NoRuns();
    NoAddr();
    if ps != [] {
      var front, p := ps[..|ps| - 1], ps[|ps| - 1];
      RangesPlaces(front, S);
      assert ps == front + [p];
      AddrConcat(front, [p]);
      Addr1Is(p);
      SamePlaces(p);
      assert Ranges(front) + [] == Ranges(front) && Addr(front) + [] == Addr(front);
      RunsSnoc(Ranges(front), Run(p.src, p.a, p.b));
    }
  }

  lemma {:induction false} NoAddr()
    ensures Addr([]) == []
  {
  }

  lemma {:induction false} SamePlaces(p: Piece)
    ensures Addr1(p) == RunPlaces(Run(p.src, p.a, p.b)) && (p.b <= p.a ==> Addr1(p) == [])
  {
  }

  class RowSource {
    const parts: seq<Run>
    const offsets: seq<nat>
    /** What the sources held when the row was taken. */
    ghost const sources: Sources

    ghost predicate Valid() {
      && GoodRuns(parts, sources) && |offsets| == |parts| + 1
      && forall i :: 0 <= i < |offsets| ==> offsets[i] == |RunsPlaces(parts[..i])|
    }

    /** The row. */
    ghost function Text(): Bytes {
      BytesAt(RunsPlaces(parts), sources)
    }

    constructor (pieces: seq<Piece>, ghost S: Sources)
      requires forall i :: 0 <= i < |pieces| ==> pieces[i].src in S && pieces[i].b <= |S[pieces[i].src].data|
      ensures Valid() && Text() == Doc(pieces, S) && sources == S
    {
      hide RunPlaces;
      hide RunsPlaces;
      hide Doc;
      hide BytesAt;
      var made: seq<Run>, ends: seq<nat>, k := [], [0], 0;
      NoRuns();
      while k < |pieces|
        invariant 0 <= k <= |pieces| && made == Ranges(pieces[..k]) && |ends| == |made| + 1
        invariant forall i :: 0 <= i < |ends| ==> ends[i] == |RunsPlaces(made[..i])|
      {
        var p := pieces[k];
        assert pieces[..k + 1][..k] == pieces[..k];
        if p.b > p.a {
          RunsSnoc(made, Run(p.src, p.a, p.b));
          RunLength(Run(p.src, p.a, p.b));
          LongerEnds(made, ends, Run(p.src, p.a, p.b));
          made, ends := made + [Run(p.src, p.a, p.b)], ends + [ends[|ends| - 1] + p.b - p.a];
        }
        k := k + 1;
      }
      assert pieces[..k] == pieces;
      RangesPlaces(pieces, S);
      DocIs(pieces, S);
      parts, offsets, sources := made, ends, S;
    }

    static lemma {:induction false} RunLength(r: Run)
      ensures r.a < r.b ==> |RunPlaces(r)| == r.b - r.a
    {
    }

    static lemma {:induction false} DocIs(ps: seq<Piece>, S: Sources)
      ensures Doc(ps, S) == BytesAt(Addr(ps), S)
    {
    }

    static lemma {:induction false} LongerEnds(made: seq<Run>, ends: seq<nat>, r: Run)
      requires |ends| == |made| + 1 && r.a < r.b && forall i :: 0 <= i < |ends| ==> ends[i] == |RunsPlaces(made[..i])|
      ensures var all, more := made + [r], ends + [ends[|ends| - 1] + r.b - r.a];
              forall i :: 0 <= i < |more| ==> more[i] == |RunsPlaces(all[..i])|
    {
      hide RunPlaces;
      hide RunsPlaces;
      var all := made + [r];
      RunsSnoc(made, r);
      RunLength(r);
      assert made[..|made|] == made && all[..|all|] == all;
      forall i | 0 <= i < |ends|
        ensures all[..i] == made[..i]
      {
      }
    }

    lemma {:induction false} OffsetsRise()
      requires Valid()
      ensures offsets[0] == 0 && offsets[|parts|] == |Text()|
      ensures forall i :: 0 <= i < |parts| ==> offsets[i + 1] == offsets[i] + parts[i].b - parts[i].a && parts[i].a < parts[i].b
      ensures forall i, j :: 0 <= i < j < |offsets| ==> offsets[i] < offsets[j]
    {
      hide RunPlaces;
      hide RunsPlaces;
      hide BytesAt;
      NoRuns();
      assert parts[..0] == [] && parts[..|parts|] == parts;
      BytesJoin(RunsPlaces(parts), [], sources);
      forall i | 0 <= i < |parts|
        ensures offsets[i + 1] == offsets[i] + parts[i].b - parts[i].a && parts[i].a < parts[i].b
      {
        RunInRuns(parts, i, sources);
      }
      forall i, j | 0 <= i < j < |offsets|
        ensures offsets[i] < offsets[j]
      {
        Rise(i, j);
      }
    }

    lemma {:induction false} Rise(i: nat, j: nat)
      requires i < j < |offsets| == |parts| + 1
      requires forall k :: 0 <= k < |parts| ==> offsets[k + 1] == offsets[k] + parts[k].b - parts[k].a && parts[k].a < parts[k].b
      ensures offsets[i] < offsets[j]
    {
      assert offsets[j] > offsets[j - 1];
      if i < j - 1 {
        Rise(i, j - 1);
      }
    }

    method Length() returns (n: nat)
      requires Valid()
      ensures n == |Text()|
    {
      OffsetsRise();
      n := offsets[|offsets| - 1];
    }

    /** The part that holds `offset`. */
    method Locate(offset: nat) returns (index: nat)
      requires Valid() && offset < |Text()|
      ensures index < |parts| && |offsets| == |parts| + 1 && offsets[index] <= offset < offsets[index + 1]
    {
      hide *;
      IsValid();
      OffsetsRise();
      var slot := BisectRight(offsets, offset);
      index := slot - 1;
    }

    lemma {:induction false} OffsetStep(i: nat)
      requires Valid() && i < |parts|
      ensures |offsets| == |parts| + 1 && offsets[i + 1] == offsets[i] + parts[i].b - parts[i].a && parts[i].a < parts[i].b
      ensures offsets[i + 1] <= |Text()| && (i + 1 < |parts| ==> offsets[i + 1] < offsets[i + 2]) && (i + 1 == |parts| ==> offsets[i + 1] == |Text()|)
    {
      hide *;
      IsValid();
      OffsetsRise();
    }

    /** One piece source: the bytes asked for, or only `most` of them when it lost some. */
    method ReadPiece(now: Sources, src: nat, lo: nat, hi: nat, most: nat) returns (chunk: Bytes)
      requires src in now && lo < hi <= |now[src].data|
      ensures chunk <= now[src].data[lo..hi] && |chunk| == if most < hi - lo then most else hi - lo
    {
      var n := if most < hi - lo then most else hi - lo;
      chunk := now[src].data[lo..lo + n];
      SubSlice(now[src].data, lo, hi, 0, n);
    }

    /**
     How far a read from `position` to `end` comes that begins in part `index`, when piece read number `k` gives at most
     `gives(k)` bytes: it ends at the first read that comes back short, and breaks at one that comes back with nothing.
     */
    ghost function Reached(position: nat, end: nat, index: nat, k: nat, gives: nat -> nat): Option<nat>
      requires |offsets| == |parts| + 1
      decreases |parts| - index
    {
      if index >= |parts| || end <= position then Some(position)
      else
        var stop := if end < offsets[index + 1] then end else offsets[index + 1];
        if gives(k) == 0 then None
        else if stop <= position then Some(position)
        else if gives(k) < stop - position then Some(position + gives(k))
        else Reached(stop, end, index + 1, k + 1, gives)
    }

    /** Pieces that keep their bytes are read to the end, across all parts. */
    lemma {:induction false} AllGiven(position: nat, end: nat, index: nat, k: nat, gives: nat -> nat, size: nat)
      requires Valid() && size > 0 && forall i :: gives(i) >= size
      requires index < |parts| && |offsets| == |parts| + 1 && offsets[index] <= position < offsets[index + 1]
      requires position < end <= |Text()| && end - position <= size
      ensures Reached(position, end, index, k, gives) == Some(end)
      decreases |parts| - index
    {
      hide *;
      OffsetStep(index);
      ReachedIs(position, end, index, k, gives);
      if offsets[index + 1] < end {
        OffsetStep(index + 1);
        AllGiven(offsets[index + 1], end, index + 1, k + 1, gives, size);
      } else {
        ReachedEnd(end, index + 1, k + 1, gives);
      }
    }

    lemma {:induction false} ReachedIs(position: nat, end: nat, index: nat, k: nat, gives: nat -> nat)
      requires |offsets| == |parts| + 1 && index < |parts| && position < end && position < offsets[index + 1]
      ensures var stop := if end < offsets[index + 1] then end else offsets[index + 1];
              Reached(position, end, index, k, gives)
              == if gives(k) == 0 then None else if gives(k) < stop - position then Some(position + gives(k))
                 else Reached(stop, end, index + 1, k + 1, gives)
    {
    }

    lemma {:induction false} ReachedEnd(end: nat, index: nat, k: nat, gives: nat -> nat)
      requires |offsets| == |parts| + 1
      ensures Reached(end, end, index, k, gives) == Some(end)
    {
    }

    /** The part that holds an offset. */
    ghost predicate InPartAt(index: nat, offset: int) {
      index < |parts| && |offsets| == |parts| + 1 && offsets[index] <= offset < offsets[index + 1]
    }

    /**
     `read` at any later time, when the add segments may have grown: the bytes of the row as it was, exactly as far as
     the piece sources give them, and an error exactly when one gives nothing. What the sources give is settled
     beforehand by `gives`; when they keep their bytes the whole range comes back.
     */
    method Read(now: Sources, offset: int, size: int, gives: nat -> nat) returns (r: Result<Bytes>)
      requires Valid() && Grows(sources, now)
      ensures r == Err(ValueError) <==> offset < 0 || size < 0
      ensures offset >= 0 && size >= 0 ==>
                var end := if offset + size < |Text()| then offset + size else |Text()|;
                if end <= offset then r == Ok([])
                else exists index ::
                  && InPartAt(index, offset)
                  && var reached := Reached(offset, end, index, 0, gives);
                     if reached.None? then r == Err(SourceChanged)
                     else offset < reached.value <= end && r == Ok(Text()[offset..reached.value])
      ensures size > 0 && offset >= 0 && (forall k :: gives(k) >= size) ==>
                var end := if offset + size < |Text()| then offset + size else |Text()|;
                r == Ok(if end <= offset then [] else Text()[offset..end])
    {
      hide *;
      if offset < 0 || size < 0 {
        return Err(ValueError);
      }
      var length := Length();
      var end := if offset + size < length then offset + size else length;
      if end <= offset {
        return Ok([]);
      }
      var index := Locate(offset);
      InPartIs(index, offset);
      if forall k :: gives(k) >= size {
        AllGiven(offset, end, index, 0, gives, size);
      }
      r := ReadFrom(now, offset, end, index, gives);
    }

    /** The pieces from part `index` on that hold `[offset, end)`. */
    method ReadFrom(now: Sources, offset: nat, end: nat, first: nat, gives: nat -> nat) returns (r: Result<Bytes>)
      requires Valid() && Grows(sources, now) && InPartAt(first, offset) && offset < end <= |Text()|
      ensures var reached := Reached(offset, end, first, 0, gives);
              if reached.None? then r == Err(SourceChanged)
              else offset < reached.value <= end && r == Ok(Text()[offset..reached.value])
    {
      hide *;
      InPartIs(first, offset);
      var index := first;
      ghost var goal, text := Reached(offset, end, index, 0, gives), Text();
      var position, i := offset, 0;
      var data: Bytes := [];
      assert text[offset..offset] == [];
      while position < end
        invariant offset <= position <= end <= |text| && data == text[offset..position] && 0 <= index && (position > offset || i == 0)
        invariant position < end ==> index < |parts| && offsets[index] <= position < offsets[index + 1]
        invariant goal == Reached(position, end, index, i, gives)
        decreases end - position
      {
        OffsetStep(index);
        ReachedIs(position, end, index, i, gives);
        var part, base := parts[index], offsets[index];
        var stop := if end < base + (part.b - part.a) then end else base + (part.b - part.a);
        var take := stop - position;
        var lo := part.a + position - base;
        InPart(now, index, position, take);
        var chunk := ReadPiece(now, part.src, lo, lo + take, gives(i));
        if chunk == [] {
          return Err(SourceChanged);
        }
        Extended(text, offset, position, position + take, chunk);
        data := data + chunk;
        position := position + |chunk|;
        if |chunk| < take {
          return Ok(data);
        }
        index, i := index + 1, i + 1;
      }
      ReachedEnd(end, index, i, gives);
      r := Ok(data);
    }

    lemma {:induction false} InPartIs(index: nat, offset: int)
      ensures InPartAt(index, offset) <==> index < |parts| && |offsets| == |parts| + 1 && offsets[index] <= offset < offsets[index + 1]
    {
    }

    lemma {:induction false} IsValid()
      requires Valid()
      ensures |offsets| == |parts| + 1
    {
    }

    static lemma {:induction false} Extended(s: Bytes, from: nat, at: nat, stop: nat, chunk: Bytes)
      requires from <= at <= stop <= |s| && chunk <= s[at..stop]
      ensures at + |chunk| <= stop && s[from..at] + chunk == s[from..at + |chunk|]
    {
      assert chunk == s[at..stop][..|chunk|];
      SubSlice(s, at, stop, 0, |chunk|);
    }

    /** Bytes of the row inside one part, in the sources of a later time. */
    lemma {:induction false} InPart(now: Sources, index: nat, position: nat, take: nat)
      requires Valid() && Grows(sources, now) && index < |parts| && |offsets| == |parts| + 1
      requires offsets[index] <= position && position + take <= offsets[index + 1]
      ensures var part := parts[index];
              var lo := part.a + position - offsets[index];
              && part.src in now && lo + take <= |now[part.src].data| && position + take <= |Text()|
              && now[part.src].data[lo..lo + take] == Text()[position..position + take]
    {
      hide RunPlaces;
      hide RunsPlaces;
      hide BytesAt;
      RunInRuns(parts, index, sources);
      var part, at, text := parts[index], offsets[index], Text();
      var d, e := sources[part.src].data, now[part.src].data;
      var x := position - at;
      SubSlice(d, part.a, part.b, x, x + take);
      SubSlice(text, at, at + part.b - part.a, x, x + take);
      assert d <= e;
      assert e[part.a + x..part.a + x + take] == d[part.a + x..part.a + x + take];
    }
  }
}
