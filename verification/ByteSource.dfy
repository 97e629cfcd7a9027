/**
 Reading the original file (`byte_source.py`): `pread` behind a small cache of blocks in order of use, with change
 detection. Other threads may use the same source between any two of its critical sections.
 */
module ByteSource {
  import opened Rows

  datatype ChangeKind = Modified | Truncated | Unreadable

  datatype ReadError = Refused | Changed(kind: ChangeKind)

  datatype ReadResult = Bytes_(value: Bytes) | Fails(error: ReadError)

  /** A cached block and its number. */
  datatype Block = Block(index: nat, data: Bytes)

  /**
   The file behind the descriptor; others may write to it. What the system does is settled beforehand: system call
   number `k` fails exactly when `fails(k)`, and else gives at most `gives(k)` bytes, but at least one.
   */
  class File {
    var data: Bytes
    var mtime: int
    const fails: nat -> bool
    const gives: nat -> nat
    /** How many reads have been asked of the system. */
    var calls: nat

    constructor (data: Bytes, mtime: int, fails: nat -> bool, gives: nat -> nat)
      ensures this.data == data && this.mtime == mtime && this.fails == fails && this.gives == gives && calls == 0
    {
      this.data, this.mtime, this.fails, this.gives, calls := data, mtime, fails, gives, 0;
    }

    /** Some call from number `from` up to `to` failed. */
    ghost predicate Broke(from: nat, to: nat) {
      exists k :: from <= k < to && fails(k)
    }

    /** `os.pread`: some of the bytes asked for, none at the end of the file, or an error. */
    method Pread(size: nat, offset: nat) returns (r: Option<Bytes>)
      requires size > 0
      modifies this`calls
      ensures calls == old(calls) + 1 && (r.None? <==> fails(old(calls)))
      ensures r.Some? ==> (r.value == [] <==> offset >= |data|)
      ensures r.Some? && r.value != [] ==>
                |r.value| <= size && offset + |r.value| <= |data| && r.value == data[offset..offset + |r.value|]
    {
      calls := calls + 1;
      if fails(calls - 1) {
        return None;
      }
      if offset >= |data| {
        return Some([]);
      }
      var most := if size < |data| - offset then size else |data| - offset;
      var n := if 1 <= gives(calls - 1) <= most then gives(calls - 1) else most;
      r := Some(data[offset..offset + n]);
    }
  }

  /** Bytes `[offset, offset + size)` as far as they exist. */
  function Clip(s: Bytes, offset: nat, size: nat): Bytes {
    var end := if offset + size < |s| then offset + size else |s|;
    if offset < end then s[offset..end] else []
  }

  class PreadSource {
    const file: File
    /** What the file held when it was opened, and the settings. */
    const held: Bytes
    const mtime: int
    const blockSize: nat
    const maxBlocks: nat
    /** No other thread uses the source. */
    const alone: bool
    var cache: seq<Block>
    var failed: Option<ReadError>
    var closing: bool

    predicate GoodBlock(b: Block) {
      blockSize > 0 && b.data == Clip(held, b.index * blockSize, blockSize)
    }

    predicate GoodCache(blocks: seq<Block>) {
      && |blocks| <= maxBlocks
      && (forall i :: 0 <= i < |blocks| ==> GoodBlock(blocks[i]))
      && (forall i, j :: 0 <= i < j < |blocks| ==> blocks[i].index != blocks[j].index)
    }

    /** Cached blocks are those of the opened file, at most `maxBlocks` of them, each once. */
    predicate Valid()
      reads this
    {
      blockSize > 0 && maxBlocks > 0 && GoodCache(cache) && (failed.Some? ==> failed.value.Changed?)
    }

    /** The descriptor still shows the size and the time recorded when it was opened. */
    predicate LooksSame()
      reads file
    {
      |file.data| == |held| && file.mtime == mtime
    }

    /** A change of the bytes shows in the size or the time. */
    predicate Honest()
      reads file
    {
      LooksSame() ==> file.data == held
    }

    constructor (file: File, blockSize: nat, maxBlocks: nat, alone: bool)
      requires blockSize > 0 && maxBlocks > 0
      ensures Valid() && failed.None? && !closing && cache == [] && this.file == file && held == file.data && mtime == file.mtime
      ensures this.blockSize == blockSize && this.maxBlocks == maxBlocks && this.alone == alone
    {
      this.file, held, mtime, this.blockSize, this.maxBlocks, this.alone := file, file.data, file.mtime, blockSize, maxBlocks, alone;
      cache, failed, closing := [], None, false;
    }

    /** Other threads between two critical sections: the cache is any valid one, the source may have failed or be closing. */
    method Others()
      requires Valid()
      modifies this
      ensures Valid() && (old(failed).Some? ==> failed == old(failed)) && (old(closing) ==> closing)
      ensures alone ==> cache == old(cache) && failed == old(failed) && closing == old(closing)
    {
      if alone {
        return;
      }
      var blocks: seq<Block>, kind: ChangeKind, fails: bool, closes: bool := *, *, *, *;
      if GoodCache(blocks) {
        cache := blocks;
      }
      if fails && failed.None? {
        failed := Some(Changed(kind));
      }
      closing := closing || closes;
    }

    /** `_fail`: the first failure stays. */
    method Fail(error: ReadError) returns (first: ReadError)
      requires Valid() && error.Changed?
      modifies this`failed
      ensures Valid() && failed == Some(first) && first == if old(failed).Some? then old(failed).value else error
    {
      if failed.None? {
        failed := Some(error);
      }
      first := failed.value;
    }

    /** `_check`: an earlier failure, or a size or time that changed. */
    method Check() returns (error: Option<ReadError>)
      requires Valid()
      modifies this
      ensures Valid() && (old(failed).Some? ==> failed == error == old(failed))
      ensures old(failed).None? ==> (error.Some? <==> !LooksSame()) && (error.Some? ==> failed == error)
      ensures old(closing) ==> closing
      ensures alone ==> cache == old(cache) && closing == old(closing)
      ensures alone && old(failed).None? && error.Some? ==> error == Some(Changed(if |file.data| < |held| then Truncated else Modified))
      ensures error.None? ==> cache == old(cache) && failed == old(failed) && closing == old(closing)
    {
      if failed.Some? {
        return failed;
      }
      if !LooksSame() {
        Others();
        var first := Fail(Changed(if |file.data| < |held| then Truncated else Modified));
        return Some(first);
      }
      error := None;
    }

    /**
     `_pread_raw`: exactly the bytes asked for, unless the file is too short or one of the system calls made for it
     failed. A read that gives only a part is continued; no more calls are made than bytes are asked for.
     */
    method PreadRaw(offset: nat, size: nat) returns (r: ReadResult)
      modifies file`calls
      ensures old(file.calls) <= file.calls <= old(file.calls) + size
      ensures r.Bytes_? <==> !file.Broke(old(file.calls), file.calls) && (size == 0 || offset + size <= |file.data|)
      ensures r.Bytes_? ==> r.value == Clip(file.data, offset, size) && |r.value| == size
      ensures r.Fails? ==> r.error == Changed(if file.Broke(old(file.calls), file.calls) then Unreadable else Truncated)
      ensures file.Broke(old(file.calls), file.calls) ==> file.calls > 0 && file.fails(file.calls - 1)
    {
      var data: Bytes := [];
      while |data| < size
        invariant |data| <= size && (data != [] ==> offset + |data| <= |file.data| && data == file.data[offset..offset + |data|])
        invariant old(file.calls) <= file.calls <= old(file.calls) + |data|
        invariant forall k :: old(file.calls) <= k < file.calls ==> !file.fails(k)
        decreases size - |data|
      {
        ghost var k := file.calls;
        var chunk := file.Pread(size - |data|, offset + |data|);
        if chunk.None? {
          assert file.fails(k);
          return Fails(Changed(Unreadable));
        }
        if chunk.value == [] {
          return Fails(Changed(Truncated));
        }
        data := data + chunk.value;
      }
      r := Bytes_(data);
    }

    /** `_pread_exact`: a failure fails the source. */
    method PreadExact(offset: nat, size: nat) returns (r: ReadResult)
      requires Valid() && offset + size <= |held| && file.data == held
      modifies this, file`calls
      ensures Valid() && (old(failed).Some? ==> failed == old(failed)) && (old(closing) ==> closing)
      ensures old(file.calls) <= file.calls <= old(file.calls) + size
      ensures r.Bytes_? ==> r.value == held[offset..offset + size]
      ensures (r.Fails? <==> file.Broke(old(file.calls), file.calls)) && (r.Fails? ==> failed == Some(r.error))
      ensures alone ==> cache == old(cache) && closing == old(closing) && (r.Bytes_? ==> failed == old(failed))
      ensures alone && old(failed).None? && r.Fails? ==> r == Fails(Changed(Unreadable))
    {
      r := PreadRaw(offset, size);
      Others();
      if r.Fails? {
        var first := Fail(r.error);
        r := Fails(first);
      }
    }

    /** The place of block `index` in the cache, -1 when it is not there. */
    function Place(blocks: seq<Block>, index: nat): (i: int)
      ensures -1 <= i < |blocks| && (i >= 0 ==> blocks[i].index == index)
      ensures i == -1 ==> forall j :: 0 <= j < |blocks| ==> blocks[j].index != index
    {
      if blocks == [] then -1
      else if blocks[|blocks| - 1].index == index then |blocks| - 1
      else Place(blocks[..|blocks| - 1], index)
    }

    /** The cache after block `b` was used: `b` is the last, the others keep their order, the oldest ones go. */
    function Used(blocks: seq<Block>, b: Block): seq<Block> {
      var i := Place(blocks, b.index);
      (if i >= 0 then blocks[..i] + blocks[i + 1..] else blocks) + [b]
    }

    lemma {:induction false} UsedIsGood(blocks: seq<Block>, b: Block)
      requires GoodCache(blocks) && GoodBlock(b) && maxBlocks > 0
      ensures var all := Used(blocks, b);
              var kept := if |all| > maxBlocks then all[1..] else all;
              GoodCache(kept) && |all| <= maxBlocks + 1 && kept != [] && kept[|kept| - 1] == b
    {
      hide GoodBlock;
      var i := Place(blocks, b.index);
      if i >= 0 {
        Without(blocks, i);
        Appended(blocks[..i] + blocks[i + 1..], b);
      } else {
        Appended(blocks, b);
      }
    }

    lemma {:induction false} Without(blocks: seq<Block>, i: nat)
      requires GoodCache(blocks) && i < |blocks|
      ensures var rest := blocks[..i] + blocks[i + 1..];
              GoodCache(rest) && forall j :: 0 <= j < |rest| ==> rest[j].index != blocks[i].index
    {
      hide GoodBlock;
      var rest := blocks[..i] + blocks[i + 1..];
      forall j | 0 <= j < |rest|
        ensures GoodBlock(rest[j]) && rest[j].index != blocks[i].index
      {
        assert rest[j] == blocks[if j < i then j else j + 1];
      }
      forall j, k | 0 <= j < k < |rest|
        ensures rest[j].index != rest[k].index
      {
        assert rest[j] == blocks[if j < i then j else j + 1] && rest[k] == blocks[if k < i then k else k + 1];
      }
    }

    lemma {:induction false} Appended(rest: seq<Block>, b: Block)
      requires GoodCache(rest) && GoodBlock(b) && maxBlocks > 0 && forall j :: 0 <= j < |rest| ==> rest[j].index != b.index
      ensures var all := rest + [b];
              var kept := if |all| > maxBlocks then all[1..] else all;
              GoodCache(kept) && kept[|kept| - 1] == b
    {
      hide GoodBlock;
    }

    /** The first critical section of `_block`: a hit moves to the end. */
    method Hit(index: nat) returns (b: Option<Bytes>)
      requires Valid()
      modifies this`cache
      ensures Valid() && (b.Some? ==> b.value == Clip(held, index * blockSize, blockSize) && cache == Used(old(cache), Block(index, b.value)))
      ensures b.None? ==> cache == old(cache)
      ensures b.Some? <==> exists i :: 0 <= i < |old(cache)| && old(cache)[i].index == index
    {
      var i := Place(cache, index);
      if i < 0 {
        return None;
      }
      b := Some(cache[i].data);
      assert GoodBlock(cache[i]);
      UsedIsGood(cache, cache[i]);
      assert |Used(cache, cache[i])| == |cache|;
      cache := Used(cache, cache[i]);
    }

    /** The second critical section of `_block`: put the block at the end, then evict from the front. */
    method Put(index: nat, data: Bytes)
      requires Valid() && data == Clip(held, index * blockSize, blockSize)
      modifies this`cache
      ensures Valid() && cache != [] && cache[|cache| - 1] == Block(index, data)
      ensures var all := Used(old(cache), Block(index, data));
              cache == if |all| > maxBlocks then all[1..] else all
    {
      var b := Block(index, data);
      UsedIsGood(cache, b);
      cache := Used(cache, b);
      while |cache| > maxBlocks
        invariant |cache| <= maxBlocks + 1
        invariant cache == Used(old(cache), b) || (|cache| == maxBlocks && |Used(old(cache), b)| > maxBlocks && cache == Used(old(cache), b)[1..])
      {
        cache := cache[1..];
      }
    }

    /**
     `_block`: block `index` of the opened file, from the cache or from the disk, whatever others do meanwhile. It is the
     last block of the cache then; a block that is in the cache costs no system call.
     */
    method GetBlock(index: nat) returns (r: ReadResult)
      requires Valid() && file.data == held && index * blockSize < |held|
      modifies this, file`calls
      ensures Valid() && (old(failed).Some? ==> failed == old(failed)) && (old(closing) ==> closing)
      ensures r.Bytes_? ==> r.value == Clip(held, index * blockSize, blockSize) && cache != [] && cache[|cache| - 1] == Block(index, r.value)
      ensures r.Bytes_? ==> old(file.calls) <= file.calls <= old(file.calls) + |r.value|
      ensures r.Fails? ==> old(file.calls) <= file.calls <= old(file.calls) + |Clip(held, index * blockSize, blockSize)|
      ensures (r.Fails? <==> file.Broke(old(file.calls), file.calls)) && (r.Fails? ==> failed == Some(r.error))
      ensures (exists i :: 0 <= i < |old(cache)| && old(cache)[i].index == index) ==> r.Bytes_? && file.calls == old(file.calls)
      ensures alone ==> closing == old(closing)
      ensures alone && r.Bytes_? ==> failed == old(failed) && cache == Kept(old(cache), Block(index, r.value))
      ensures alone && old(failed).None? && r.Fails? ==> r == Fails(Changed(Unreadable)) && cache == old(cache)
    {
      hide GoodCache;
      hide Used;
      var hit := Hit(index);
      if hit.Some? {
        HitKept(old(cache), Block(index, hit.value));
        return Bytes_(hit.value);
      }
      Others();
      var offset := index * blockSize;
      r := PreadExact(offset, if blockSize < |held| - offset then blockSize else |held| - offset);
      if r.Bytes_? {
        Put(index, r.value);
      }
    }

    /** The cache behind a use of block `b`: the last one is `b`, and the oldest went if there was no room. */
    function Kept(blocks: seq<Block>, b: Block): seq<Block> {
      var all := Used(blocks, b);
      if |all| > maxBlocks then all[1..] else all
    }

    lemma {:induction false} HitKept(blocks: seq<Block>, b: Block)
      requires GoodCache(blocks) && exists i :: 0 <= i < |blocks| && blocks[i].index == b.index
      ensures Used(blocks, b) == Kept(blocks, b) && Used(blocks, b) != [] && Used(blocks, b)[|Used(blocks, b)| - 1] == b
    {
      hide GoodBlock;
    }

    /** The joined blocks `[first, last]`. */
    method GetBlocks(first: nat, last: nat) returns (r: ReadResult)
      requires Valid() && file.data == held && first <= last && last * blockSize < |held|
      modifies this, file`calls
      ensures Valid() && (old(failed).Some? ==> failed == old(failed)) && (old(closing) ==> closing)
      ensures Edge(first) <= Edge(last + 1) <= |held|
      ensures r.Bytes_? ==> r.value == held[Edge(first)..Edge(last + 1)]
      ensures r.Bytes_? ==> cache != [] && cache[|cache| - 1] == BlockAt(last)
      ensures old(file.calls) <= file.calls <= old(file.calls) + |held|
      ensures (r.Fails? <==> file.Broke(old(file.calls), file.calls)) && (r.Fails? ==> failed == Some(r.error))
      ensures alone && old(failed).None? && r.Fails? ==> r == Fails(Changed(Unreadable))
      ensures alone ==> closing == old(closing) && (r.Bytes_? ==> failed == old(failed))
    {
      hide *;
      IsValid();
      EdgeIs(first, last);
      EdgeIs(first, last + 1);
      var data: Bytes, index := [], first;
      assert held[Edge(first)..Edge(first)] == [];
      while index <= last
        invariant first <= index <= last + 1 && Valid() && (old(failed).Some? ==> failed == old(failed)) && (old(closing) ==> closing)
        invariant Edge(first) <= Edge(index) <= |held| && data == held[Edge(first)..Edge(index)]
        invariant old(file.calls) <= file.calls <= old(file.calls) + |data|
        invariant !file.Broke(old(file.calls), file.calls)
        invariant index > first ==> cache != [] && cache[|cache| - 1] == BlockAt(index - 1)
        invariant alone ==> failed == old(failed) && closing == old(closing)
      {
        EdgeIs(first, index);
        EdgeIs(index, last);
        Others();
        ghost var k := file.calls;
        r := GetBlock(index);
        NextEdge(first, index);
        Calls(file, old(file.calls), k, file.calls);
        if r.Fails? {
          return;
        }
        data := data + r.value;
        index := index + 1;
      }
      r := Bytes_(data);
    }

    lemma {:induction false} IsValid()
      requires Valid()
      ensures blockSize > 0 && maxBlocks > 0 && !file.Broke(file.calls, file.calls)
    {
      hide GoodCache;
    }

    static lemma {:induction false} Calls(file: File, a: nat, b: nat, c: nat)
      requires a <= b <= c && !file.Broke(a, b)
      ensures file.Broke(a, c) <==> file.Broke(b, c)
    {
    }

    /** Where block `i` begins, at most the end of the file. */
    function Edge(i: nat): nat {
      Least(i * blockSize, |held|)
    }

    function BlockAt(i: nat): Block {
      Block(i, Clip(held, i * blockSize, blockSize))
    }

    lemma {:induction false} EdgeIs(i: nat, j: nat)
      requires i <= j && blockSize > 0
      ensures Edge(i) <= Edge(j) <= |held| && (j * blockSize < |held| ==> i * blockSize < |held| && Edge(i) == i * blockSize)
      ensures Edge(j + 1) == if (j + 1) * blockSize < |held| then (j + 1) * blockSize else |held|
      ensures BlockAt(j) == Block(j, Clip(held, j * blockSize, blockSize))
    {
      Before(i, j, blockSize);
    }

    lemma {:induction false} NextEdge(first: nat, i: nat)
      requires first <= i && i * blockSize < |held| && blockSize > 0
      ensures Edge(first) <= Edge(i) <= Edge(i + 1) <= |held|
      ensures held[Edge(first)..Edge(i)] + Clip(held, i * blockSize, blockSize) == held[Edge(first)..Edge(i + 1)]
      ensures |held[Edge(first)..Edge(i)]| + |Clip(held, i * blockSize, blockSize)| <= |held|
      ensures BlockAt(i) == Block(i, Clip(held, i * blockSize, blockSize))
    {
      EdgeIs(first, i);
      EdgeIs(i, i + 1);
      NextBlock(held, Edge(first), i, blockSize);
    }

    static function Least(a: nat, b: nat): nat {
      if a < b then a else b
    }

    static lemma {:induction false} Before(i: nat, j: nat, n: nat)
      requires i <= j
      ensures i * n <= j * n
    {
      if i < j {
        Before(i, j - 1, n);
        assert j * n == (j - 1) * n + n;
      }
    }

    static lemma {:induction false} NextBlock(s: Bytes, from: nat, index: nat, n: nat)
      requires from <= index * n < |s| && n > 0
      ensures (index + 1) * n == index * n + n
      ensures s[from..Least(index * n, |s|)] + Clip(s, index * n, n) == s[from..Least((index + 1) * n, |s|)]
    {
      var m := index * n;
      assert (index + 1) * n == m + n;
    }

    /**
     `read`: the slice of the opened file, or an error. While every change of the file shows, no answer mixes old and
     new bytes: whatever the cache holds and whatever others do in between, the bytes are those of the file as opened.
     */
    method Read(offset: int, size: int, cached: bool) returns (r: ReadResult)
      requires Valid() && Honest()
      modifies this, file`calls
      ensures Valid()
      ensures offset < 0 || size < 0 || old(closing) ==> r == Fails(Refused) && failed == old(failed)
      ensures r == Fails(Refused) ==> offset < 0 || size < 0 || old(closing)
      ensures r.Bytes_? ==> offset >= 0 && size >= 0 && r.value == Clip(held, offset, size) && LooksSame()
      ensures old(file.calls) <= file.calls <= old(file.calls) + |held|
      ensures offset >= 0 && size >= 0 && !old(closing) ==>
                (r.Fails? <==> old(failed).Some? || !LooksSame() || file.Broke(old(file.calls), file.calls))
      ensures offset >= 0 && size >= 0 && !old(closing) && old(failed).Some? ==> r == Fails(old(failed).value)
      ensures r.Fails? && r.error.Changed? ==> failed == Some(r.error)
      ensures alone && offset >= 0 && size >= 0 && !old(closing) && old(failed).None? && r.Fails? ==>
                r == Fails(Changed(if LooksSame() then Unreadable else if |file.data| < |held| then Truncated else Modified))
      ensures cached && 0 < size <= blockSize * maxBlocks && 0 <= offset < |held| && r.Bytes_? ==>
                cache != [] && GoodBlock(cache[|cache| - 1]) && Reaches(cache[|cache| - 1].index, if offset + size < |held| then offset + size else |held|)
    {
      hide GoodCache;
      hide GoodBlock;
      if offset < 0 || size < 0 || closing {
        return Fails(Refused);
      }
      var error := Check();
      if error.Some? {
        return Fails(error.value);
      }
      var end := if offset + size < |held| then offset + size else |held|;
      if end <= offset {
        return Bytes_([]);
      }
      if !cached || end - offset > blockSize * maxBlocks {
        r := PreadExact(offset, end - offset);
        return;
      }
      r := ReadBlocks(offset, end);
    }

    /** Block `index` holds the last byte in front of `end`. */
    predicate Reaches(index: nat, end: nat) {
      index * blockSize < end <= (index + 1) * blockSize
    }

    /** The cached path of `_read`: the blocks that hold `[offset, end)`, joined and cut. */
    method ReadBlocks(offset: nat, end: nat) returns (r: ReadResult)
      requires Valid() && blockSize > 0 && file.data == held && offset < end <= |held|
      modifies this, file`calls
      ensures Valid() && (old(failed).Some? ==> failed == old(failed)) && (old(closing) ==> closing)
      ensures r.Bytes_? ==> r.value == held[offset..end]
      ensures r.Bytes_? ==> cache != [] && GoodBlock(cache[|cache| - 1]) && Reaches(cache[|cache| - 1].index, end)
      ensures old(file.calls) <= file.calls <= old(file.calls) + |held|
      ensures (r.Fails? <==> file.Broke(old(file.calls), file.calls)) && (r.Fails? ==> failed == Some(r.error))
      ensures alone && old(failed).None? && r.Fails? ==> r == Fails(Changed(Unreadable))
    {
      hide *;
      var first, last := offset / blockSize, (end - 1) / blockSize;
      Divided(offset, end - 1, blockSize);
      BlockIs(last, end);
      EdgeIs(first, last);
      r := GetBlocks(first, last);
      if r.Fails? {
        return;
      }
      var skip := offset - first * blockSize;
      CutOut(held, first * blockSize, if (last + 1) * blockSize < |held| then (last + 1) * blockSize else |held|, offset, end);
      r := Bytes_(r.value[skip..skip + (end - offset)]);
    }

    lemma {:induction false} BlockIs(index: nat, end: nat)
      requires blockSize > 0 && index * blockSize < end <= (index + 1) * blockSize
      ensures Reaches(index, end) && GoodBlock(Block(index, Clip(held, index * blockSize, blockSize)))
    {
      hide Clip;
    }

    static lemma {:induction false} Divided(a: nat, b: nat, n: nat)
      requires a <= b && n > 0
      ensures a / n <= b / n && (a / n) * n <= a && (b / n) * n <= b < (b / n + 1) * n
    {
      if a / n > b / n {
        Before(b / n + 1, a / n, n);
      }
    }

    static lemma {:induction false} CutOut(s: Bytes, low: nat, high: nat, a: nat, b: nat)
      requires low <= a <= b <= high <= |s|
      ensures s[low..high][a - low..a - low + (b - a)] == s[a..b]
    {
      SubSlice(s, low, high, a - low, b - low);
    }

    /**
     `_read_unverified`: what the file holds now; only a file that is too short or a failed system call is an error, and
     the source stays usable.
     */
    method ReadUnverified(offset: int, size: int) returns (r: ReadResult)
      requires Valid()
      modifies file`calls
      ensures r == Fails(Refused) <==> offset < 0 || size < 0 || closing
      ensures r.Bytes_? ==> offset >= 0 && size >= 0 &&
                              var end := if offset + size < |held| then offset + size else |held|;
                              r.value == if end <= offset then [] else if end <= |file.data| then file.data[offset..end] else []
      ensures old(file.calls) <= file.calls <= old(file.calls) + |held|
      ensures offset >= 0 && size >= 0 && !closing ==>
                var end := if offset + size < |held| then offset + size else |held|;
                && (r.Bytes_? <==> end <= offset || (end <= |file.data| && !file.Broke(old(file.calls), file.calls)))
                && (r.Fails? ==> r.error == Changed(if file.Broke(old(file.calls), file.calls) then Unreadable else Truncated))
                && (end <= offset ==> file.calls == old(file.calls))
    {
      if offset < 0 || size < 0 || closing {
        return Fails(Refused);
      }
      var end := if offset + size < |held| then offset + size else |held|;
      if end <= offset {
        return Bytes_([]);
      }
      r := PreadRaw(offset, end - offset);
    }
  }
}
