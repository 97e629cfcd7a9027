/** The row-boundary scanner shared by the line index and the save thread (`row_scanner.py`). */
module RowScanner {
  import opened Rows
  import opened SparseRows

  /** Everything the scanner has found up to `f` in `s`. */
  ghost predicate Found(s: Bytes, stride: nat, threshold: nat, f: nat, count: nat, prev: nat, entries: seq<nat>, longs: seq<LongRow>) {
    && f <= |s| && stride > 0
    && count == Count(s, f) + 1
    && prev == OpenRow(s, f)
    && entries == Entries(s, stride, f)
    && longs == Longs(s, threshold, f)
  }

  /** Index of the first `b` in `block` at or after `from`, -1 when there is none. */
  function Find(block: Bytes, b: Byte, from: nat): (i: int)
    ensures i == -1 || (from <= i < |block| && block[i] == b)
    ensures forall j :: from <= j < |block| && (i == -1 || j < i) ==> block[j] != b
    decreases |block| - from
  {
    if from >= |block| then -1 else if block[from] == b then from else Find(block, b, from + 1)
  }

  ghost predicate EndsInCr(s: Bytes) {
    |s| > 0 && s[|s| - 1] == CR
  }

  class RowScanner {
    const stride: nat
    const threshold: nat
    var count: nat
    var prev: nat
    var carry: bool
    var entries: seq<nat>
    var longs: seq<LongRow>
    /** All bytes fed so far, whether the last block was among them, and what was taken away already. */
    ghost var seen: Bytes
    ghost var done: bool
    ghost var takenEntries: seq<nat>
    ghost var takenLongs: seq<LongRow>

    /** What has been found is that of the bytes seen; a final CR is held back until the next byte is known. */
    ghost predicate Valid()
      reads this
    {
      && stride > 0
      && (carry <==> !done && EndsInCr(seen))
      && Found(seen, stride, threshold, Frontier(), count, prev, takenEntries + entries, takenLongs + longs)
    }

    ghost function Frontier(): int
      reads this
    {
      if carry then |seen| - 1 else |seen|
    }

    constructor (stride: nat, threshold: nat)
      requires stride > 0
      ensures Valid() && seen == [] && !done && takenEntries == [] && takenLongs == [] && entries == [] && longs == []
      ensures this.stride == stride && this.threshold == threshold
    {
      this.stride, this.threshold := stride, threshold;
      count, prev, carry, entries, longs := 1, 0, false, [], [];
      seen, done, takenEntries, takenLongs := [], false, [], [];
      new;
      LongsNone([], threshold);
      EntriesNone([], stride);
    }

    /** `_boundary`: the row that began at `prev` ends at `nxt`. */
    method Boundary(nxt: nat, ghost s: Bytes, ghost at: nat)
      requires Found(s, stride, threshold, at, count, prev, takenEntries + entries, takenLongs + longs)
      requires at < nxt <= |s| && EndsAt(s, nxt) && forall p :: at < p < nxt ==> !EndsAt(s, p)
      modifies this`count, this`prev, this`entries, this`longs
      ensures Found(s, stride, threshold, nxt, count, prev, takenEntries + entries, takenLongs + longs)
    {
      hide Count;
      hide Entries;
      hide Longs;
      hide OpenRow;
      hide EndsAt;
      EntriesStep(s, stride, at, nxt);
      LongsStep(s, threshold, at, nxt);
      if nxt - prev > threshold {
        longs := longs + [LongRow(count - 1, prev, nxt)];
      }
      if count % stride == 0 {
        entries := entries + [nxt];
      }
      count := count + 1;
      prev := nxt;
    }

    /** `feed`: scan the next block; `final` marks the last one. */
    method Feed(block: Bytes, base: nat, final: bool)
      requires Valid() && !done && block != [] && base == |seen|
      modifies this
      ensures Valid() && seen == old(seen) + block && done == final
      ensures takenEntries == old(takenEntries) && takenLongs == old(takenLongs)
    {
      hide Count;
      hide Entries;
      hide Longs;
      hide OpenRow;
      ghost var s := seen + block;
      ghost var at := Frontier();
      FoundGrows(seen, block, stride, threshold, at, count, prev, takenEntries + entries, takenLongs + longs);
      var begin := 0;
      if carry {
        carry := false;
        begin := if block[0] == LF then 1 else 0;
        CarriedBoundary(seen, block, begin);
        Boundary(base + begin, s, at);
        at := base + begin;
      }
      seen := s;
      done := final;
      if Find(block, CR, begin) == -1 {
        ScanLf(block, base, begin);
      } else {
        ScanMixed(block, base, begin, final);
      }
    }

    /** What was found stays true of the longer string, because a final CR was held back. */
    static lemma {:induction false} FoundGrows(s: Bytes, t: Bytes, stride: nat, threshold: nat, f: int, count: nat, prev: nat,
                                               entries: seq<nat>, longs: seq<LongRow>)
      requires 0 <= f <= |s| && Found(s, stride, threshold, f, count, prev, entries, longs)
      requires f == |s| ==> !EndsInCr(s)
      ensures Found(s + t, stride, threshold, f, count, prev, entries, longs)
    {
      if f < |s| {
        EntriesPrefix(s, t, stride, f);
        LongsPrefix(s, t, threshold, f);
      } else if f > 0 {
        EntriesPrefix(s, t, stride, f - 1);
        LongsPrefix(s, t, threshold, f - 1);
        assert EndsAt(s + t, f) <==> EndsAt(s, f);
      }
    }

    static lemma {:induction false} CarriedBoundary(s: Bytes, block: Bytes, begin: nat)
      requires EndsInCr(s) && block != [] && begin == if block[0] == LF then 1 else 0
      ensures EndsAt(s + block, |s| + begin) && forall p :: |s| - 1 < p < |s| + begin ==> !EndsAt(s + block, p)
    {
    }

    /** `_scan_lf`: the fast path for a block without CR. */
    method ScanLf(block: Bytes, base: nat, begin: nat)
      requires begin <= |block| && base + |block| == |seen| && seen[base..] == block && Find(block, CR, begin) == -1
      requires !carry && Found(seen, stride, threshold, base + begin, count, prev, takenEntries + entries, takenLongs + longs)
      requires block != [] && (begin == |block| ==> block[|block| - 1] != CR)
      modifies this`count, this`prev, this`entries, this`longs
      ensures Valid()
    {
      hide Count;
      hide Entries;
      hide Longs;
      hide OpenRow;
      var i := Find(block, LF, begin);
      ghost var at := begin;
      var count_: nat, prev_: nat := count, prev;
      while i != -1
        invariant begin <= at <= |block| && i == Find(block, LF, at)
        invariant Found(seen, stride, threshold, base + at, count_, prev_, takenEntries + entries, takenLongs + longs)
        decreases |block| - at
      {
        var nxt := base + i + 1;
        NextLf(seen, block, base, begin, at, i);
        EntriesStep(seen, stride, base + at, nxt);
        LongsStep(seen, threshold, base + at, nxt);
        if nxt - prev_ > threshold {
          longs := longs + [LongRow(count_ - 1, prev_, nxt)];
        }
        if count_ % stride == 0 {
          entries := entries + [nxt];
        }
        count_ := count_ + 1;
        prev_ := nxt;
        at := i + 1;
        i := Find(block, LF, i + 1);
      }
      NextLf(seen, block, base, begin, at, |block|);
      EntriesQuiet(seen, stride, base + at, |seen|);
      LongsQuiet(seen, threshold, base + at, |seen|);
      LastByte(seen, block, base, begin);
      count, prev := count_, prev_;
    }

    /** Without a CR the next terminator end is behind the next LF. */
    static lemma {:induction false} NextLf(s: Bytes, block: Bytes, base: nat, begin: nat, at: nat, i: int)
      requires base + |block| == |s| && s[base..] == block && begin <= at <= i <= |block|
      requires Find(block, CR, begin) == -1
      requires forall j :: at <= j < i ==> block[j] != LF
      ensures forall p :: base + at < p <= base + i ==> !EndsAt(s, p)
      ensures i < |block| && block[i] == LF ==> EndsAt(s, base + i + 1)
    {
      forall p | base + at < p <= base + i
        ensures !EndsAt(s, p)
      {
        assert s[p - 1] == block[p - 1 - base];
      }
      if i < |block| && block[i] == LF {
        assert s[base + i] == block[i];
      }
    }

    static lemma {:induction false} LastByte(s: Bytes, block: Bytes, base: nat, begin: nat)
      requires base + |block| == |s| && s[base..] == block && block != [] && begin <= |block|
      requires Find(block, CR, begin) == -1 && (begin == |block| ==> block[|block| - 1] != CR)
      ensures !EndsInCr(s)
    {
      assert s[|s| - 1] == block[|block| - 1];
    }

    /** `_scan_mixed`: every terminator, except a CR at the edge of a block that is not the last. */
    method ScanMixed(block: Bytes, base: nat, begin: nat, final: bool)
      requires begin <= |block| && base + |block| == |seen| && seen[base..] == block
      requires !carry && Found(seen, stride, threshold, base + begin, count, prev, takenEntries + entries, takenLongs + longs)
      requires done == final && block != [] && (begin == |block| ==> block[|block| - 1] != CR)
      modifies this`count, this`prev, this`entries, this`longs, this`carry
      ensures Valid()
    {
      hide Count;
      hide Entries;
      hide Longs;
      hide OpenRow;
      hide Search;
      var at := begin;
      var m := Search(block, at);
      EndOf(seen, block, base);
      while m.Some?
        invariant begin <= at <= |block| && m == Search(block, at) && !carry
        invariant Found(seen, stride, threshold, base + at, count, prev, takenEntries + entries, takenLongs + longs)
        invariant at == |block| ==> final || block[|block| - 1] != CR
        decreases |block| - at
      {
        var start, end := m.value.start, m.value.end;
        NextMatch(seen, block, base, at, end);
        EdgeCr(block, start, end);
        if end == |block| && !final && block[start..end] == [CR] {
          carry := true;
          EntriesQuiet(seen, stride, base + at, base + end - 1);
          LongsQuiet(seen, threshold, base + at, base + end - 1);
          return;
        }
        Boundary(base + end, seen, base + at);
        at := end;
        m := Search(block, at);
      }
      NoMatch(seen, block, base, at);
      EntriesQuiet(seen, stride, base + at, |seen|);
      LongsQuiet(seen, threshold, base + at, |seen|);
    }

    static lemma {:induction false} EndOf(s: Bytes, block: Bytes, base: nat)
      requires base + |block| == |s| && s[base..] == block && block != []
      ensures EndsInCr(s) <==> block[|block| - 1] == CR
    {
      assert s[|s| - 1] == block[|block| - 1];
    }

    static lemma {:induction false} EdgeCr(block: Bytes, start: nat, end: nat)
      requires start < end <= |block| && IsTerminator(block[start..end])
      ensures block[start..end] == [CR] <==> block[end - 1] == CR
    {
      var t := block[start..end];
      assert t[|t| - 1] == block[end - 1];
    }

    /** Terminators of the block, found alone, are those of the whole from its start on. */
    static lemma {:induction false} NextMatch(s: Bytes, block: Bytes, base: nat, at: nat, end: nat)
      requires base + |block| == |s| && s[base..] == block && at < end <= |block| && EndsAt(block, end)
      requires forall p :: at < p < end ==> !EndsAt(block, p)
      ensures EndsAt(s, base + end) && forall p :: base + at < p < base + end ==> !EndsAt(s, p)
    {
      SameEnds(s, block, base);
      forall p | base + at < p < base + end
        ensures !EndsAt(s, p)
      {
        assert !EndsAt(block, p - base);
      }
    }

    static lemma {:induction false} NoMatch(s: Bytes, block: Bytes, base: nat, at: nat)
      requires base + |block| == |s| && s[base..] == block && at <= |block|
      requires forall p :: at < p <= |block| ==> !EndsAt(block, p)
      ensures forall p :: base + at < p <= |s| ==> !EndsAt(s, p)
      ensures at < |block| ==> !EndsInCr(s)
    {
      SameEnds(s, block, base);
      forall p | base + at < p <= |s|
        ensures !EndsAt(s, p)
      {
        assert !EndsAt(block, p - base);
      }
      if at < |block| {
        assert !EndsAt(block, |block|);
        assert s[|s| - 1] == block[|block| - 1];
      }
    }

    static lemma {:induction false} SameEnds(s: Bytes, block: Bytes, base: nat)
      requires base + |block| == |s| && s[base..] == block
      ensures forall p :: 0 < p <= |block| ==> (EndsAt(block, p) <==> EndsAt(s, base + p))
    {
      forall p | 0 < p <= |block|
        ensures EndsAt(block, p) <==> EndsAt(s, base + p)
      {
        assert block[p - 1] == s[base + p - 1];
        if p < |block| {
          assert block[p] == s[base + p];
        }
      }
    }

    /** `take`: hand over what was found since the last call. */
    method Take() returns (es: seq<nat>, ls: seq<LongRow>)
      requires Valid()
      modifies this`entries, this`longs, this`takenEntries, this`takenLongs
      ensures Valid() && entries == [] && longs == []
      ensures takenEntries == old(takenEntries) + es && takenLongs == old(takenLongs) + ls
      ensures es == old(entries) && ls == old(longs)
    {
      hide Found;
      es, ls := entries, longs;
      takenEntries, takenLongs := takenEntries + es, takenLongs + ls;
      entries, longs := [], [];
      assert takenEntries + entries == old(takenEntries + entries) && takenLongs + longs == old(takenLongs + longs);
    }

    /** `finish`: the last row, when it is a long one. */
    method Finish(length: nat) returns (ls: seq<LongRow>)
      requires Valid() && (done || seen == []) && length == |seen|
      ensures takenLongs + longs + ls == AllLongs(seen, threshold)
      ensures count == Breaks(seen) + 1 && prev == RowStart(seen, Breaks(seen))
      ensures takenEntries + entries == Entries(seen, stride, |seen|)
    {
      OpenRowIs(seen, |seen|);
      hide Longs;
      hide Entries;
      hide OpenRow;
      ls := LastLong(count - 1, prev, length, threshold);
    }
  }

  function Concat(blocks: seq<Bytes>): Bytes {
    if blocks == [] then [] else Concat(blocks[..|blocks| - 1]) + blocks[|blocks| - 1]
  }

  /** What a complete scan reports. */
  datatype ScanResult = ScanResult(count: nat, entries: seq<nat>, longs: seq<LongRow>)

  /**
   Scanning does not depend on the chunking: however `data` is cut into non-empty blocks, with whatever
   `take` in between, the totals are those of the unsplit bytes.
   */
  method ScanBlocks(blocks: seq<Bytes>, stride: nat, threshold: nat) returns (r: ScanResult)
    requires stride > 0 && forall i :: 0 <= i < |blocks| ==> blocks[i] != []
    ensures var d := Concat(blocks);
            r == ScanResult(Breaks(d) + 1, Entries(d, stride, |d|), AllLongs(d, threshold))
  {
    hide Entries;
    hide Longs;
    hide OpenRow;
    hide Count;
    var scanner := new RowScanner(stride, threshold);
    var i, pos := 0, 0;
    var entries: seq<nat>, longs: seq<LongRow> := [], [];
    assert blocks[..0] == [];
    while i < |blocks|
      invariant 0 <= i <= |blocks| && pos == |Concat(blocks[..i])|
      invariant scanner.Valid() && fresh(scanner) && scanner.stride == stride && scanner.threshold == threshold
      invariant scanner.seen == Concat(blocks[..i]) && (scanner.done <==> i == |blocks| && i > 0)
      invariant scanner.takenEntries == entries && scanner.takenLongs == longs && (i > 0 ==> scanner.entries == [] && scanner.longs == [])
    {
      assert blocks[..i + 1][..i] == blocks[..i];
      scanner.Feed(blocks[i], pos, i == |blocks| - 1);
      pos := pos + |blocks[i]|;
      var es, ls := scanner.Take();
      entries, longs := entries + es, longs + ls;
      i := i + 1;
    }
    assert blocks[..i] == blocks;
    if i == 0 {
      EmptyScan(stride, threshold);
      return ScanResult(1, [], []);
    }
    var last := scanner.Finish(pos);
    r := ScanResult(scanner.count, entries, longs + last);
    assert entries + [] == entries && longs + [] == longs;
  }

  lemma {:induction false} EmptyScan(stride: nat, threshold: nat)
    requires stride > 0
    ensures Breaks([]) == 0 && Entries([], stride, 0) == [] && AllLongs([], threshold) == []
  {
  }
}
