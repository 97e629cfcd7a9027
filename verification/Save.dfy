/**
 The streaming atomic save (`save.py`): the planned document goes to a temporary file, which is flushed and then
 takes the place of the target in one step. Any file operation, any read of a source and any callback may fail,
 writes may be partial, and a cancel may come at any time.
 */
module Save {
  import opened Rows
  import opened Pieces
  import opened SparseRows
  import opened SaveDisk
  import Scanner = RowScanner
  import Layout = SaveLayout
  import Index = LineIndex
  import Rebase

  datatype Stage = Prepare | Writing | Flush | Replacing | Internal

  datatype Settings = Settings(chunk: nat, fsyncEvery: nat, preallocate: bool, buildIndex: bool, stride: nat, threshold: nat, cap: nat,
                               budget: nat, maxLines: nat, scanBlock: nat, walkWindow: nat) {
    predicate Valid() {
      chunk > 0 && stride > 0 && threshold > 0 && budget > 0 && maxLines > 0 && scanBlock > 0 && walkWindow > 0
    }
  }

  /** What a successful save hands over: the length, the descriptor of the new file and its line index. */
  datatype SaveResult = SaveResult(length: nat, reader: nat, index: Option<Index.LineIndex>)

  datatype Outcome = Saved(result: SaveResult) | Cancelled | Failed(stage: Stage, committed: bool)

  /** What reading a part of the plan gives: bytes, the report that the file changed, or the error of a closed source. */
  datatype Part = Got(value: Bytes) | Changed | Closed

  /** What stands in the way of a save besides the disk: a cancel, a callback, a changed or a closed source. */
  datatype Cause = Asked | Raised | Lost | Unreadable

  /** What goes wrong in the steps behind the replace. */
  datatype Finishing = Finishing(report: bool, adopt: bool, build: bool, close: bool)

  // ----- the file being written ---------------------------------------------------------------------------

  /** The first `n` bytes of the document, and the rest of what was allocated. */
  function Partly(doc: Bytes, n: nat, room: nat): Bytes
    requires n <= |doc|
  {
    doc[..n] + Zeros(if room > n then room - n else 0)
  }

  /** The temporary file holds `d`; everything else is as it was. */
  ghost predicate Scratch(fs: FileSystem, before: FileSystem, t: Temp, d: Bytes, handles: map<nat, Handle>) {
    && fs.names == before.names[t.name := t.file] && fs.dirs == before.dirs + {fs.names}
    && fs.data == before.data[t.file := d] && fs.handles == handles
    && t.file in fs.flushed && fs.flushed == before.flushed[t.file := fs.flushed[t.file]]
  }

  /** The temporary file took the place of the target; `settled` when the directory was flushed since. */
  ghost predicate Placed(fs: FileSystem, before: FileSystem, t: Temp, target: nat, d: Bytes, handles: map<nat, Handle>, settled: bool) {
    && fs.names == before.names[target := t.file]
    && fs.dirs == (if settled then {fs.names} else before.dirs + {before.names[t.name := t.file], fs.names})
    && fs.data == before.data[t.file := d] && fs.handles == handles && fs.flushed == before.flushed[t.file := d]
  }

  /** What the target shows behind the replace: the document, and a crash may undo the replace until the directory is flushed. */
  function After(v: View, d: Bytes, settled: bool): View {
    View(Some(d), if settled then {Some(d)} else v.crash + {Some(d)})
  }

  /** Between two states the target shows `v`, to a reader and after a crash. */
  ghost predicate Calm(history: seq<FileSystem>, from: nat, target: nat, v: View) {
    forall i :: from <= i < |history| ==> history[i].Shows(target) == v
  }

  /** First `v`, from some step on `d`, and from a later one `d` also after every crash, if the directory was flushed. */
  ghost predicate Switches(history: seq<FileSystem>, from: nat, target: nat, v: View, d: Bytes, settled: bool) {
    exists at: nat, safe: nat :: SwitchesAt(history, from, at, safe, target, v, d) && (settled <==> safe < |history|)
  }

  ghost predicate SwitchesAt(history: seq<FileSystem>, from: nat, at: nat, safe: nat, target: nat, v: View, d: Bytes) {
    && from <= at < safe <= |history| && Calm(history[..at], from, target, v)
    && Calm(history[..safe], at, target, After(v, d, false)) && Calm(history, safe, target, After(v, d, true))
  }

  lemma {:induction false} CalmSnoc(history: seq<FileSystem>, from: nat, target: nat, v: View, fs: FileSystem)
    requires Calm(history, from, target, v) && fs.Shows(target) == v
    ensures Calm(history + [fs], from, target, v)
  {
  }

  /** The files of the old directories are not the temporary one. */
  lemma {:induction false} OldHeld(before: FileSystem, t: Temp, target: nat, dir: map<nat, nat>, d: Bytes)
    requires before.Valid() && Fresh(t, before) && dir in before.dirs
    ensures Held(dir, before.flushed[t.file := d], target) == Held(dir, before.flushed, target)
    ensures Held(dir, before.data[t.file := d], target) == Held(dir, before.data, target)
  {
    if target in dir {
      assert dir[target] in before.data;
    }
  }

  /** While only the temporary file changes the target shows what it showed. */
  lemma {:induction false} ScratchShows(fs: FileSystem, before: FileSystem, t: Temp, d: Bytes, handles: map<nat, Handle>, target: nat)
    requires Scratch(fs, before, t, d, handles) && before.Valid() && Fresh(t, before) && target != t.name
    ensures fs.Shows(target) == before.Shows(target)
  {
    OldHeld(before, t, target, before.names, d);
    assert Held(fs.names, fs.data, target) == Held(before.names, fs.data, target);
    var f := fs.flushed[t.file];
    CrashIs(fs, target);
    CrashIs(before, target);
    OldHeld(before, t, target, before.names, f);
    assert Held(fs.names, fs.flushed, target) == Held(before.names, before.flushed, target);
    forall dir | dir in before.dirs
      ensures dir in fs.dirs && Held(dir, fs.flushed, target) == Held(dir, before.flushed, target)
    {
      OldHeld(before, t, target, dir, f);
    }
    hide FileSystem.Valid;
    assert fs.Shows(target).crash == before.Shows(target).crash;
  }

  lemma {:induction false} CrashIs(fs: FileSystem, n: nat)
    ensures forall dir :: dir in fs.dirs ==> Held(dir, fs.flushed, n) in fs.Shows(n).crash
    ensures forall x :: x in fs.Shows(n).crash ==> exists dir :: dir in fs.dirs && x == Held(dir, fs.flushed, n)
  {
  }

  lemma {:induction false} PlacedShows(fs: FileSystem, before: FileSystem, t: Temp, target: nat, d: Bytes, handles: map<nat, Handle>, settled: bool)
    requires Placed(fs, before, t, target, d, handles, settled) && before.Valid() && Fresh(t, before) && target != t.name
    ensures fs.Shows(target) == After(before.Shows(target), d, settled)
  {
    var crash := fs.Shows(target).crash;
    assert Held(fs.names, fs.flushed, target) == Some(d);
    if settled {
      assert crash == {Some(d)};
    } else {
      forall dir | dir in fs.dirs
        ensures Held(dir, fs.flushed, target) in before.Shows(target).crash + {Some(d)}
      {
        if dir != fs.names {
          var o := if dir in before.dirs then dir else before.names;
          OldHeld(before, t, target, o, d);
          assert Held(o, fs.flushed, target) == Held(dir, fs.flushed, target);
        }
      }
      forall o | o in before.dirs
        ensures Held(o, before.flushed, target) in crash
      {
        OldHeld(before, t, target, o, d);
        assert o in fs.dirs;
      }
      assert fs.names in fs.dirs;
      assert crash == before.Shows(target).crash + {Some(d)};
    }
  }

  /** The temporary file is gone or left under its name; everything else is as it was, and no descriptor is open. */
  ghost predicate Untouched(fs: FileSystem, before: FileSystem, t: Temp, left: bool) {
    && fs.names == (if left then before.names[t.name := t.file] else before.names) && fs.handles == before.handles
    && fs.dirs == before.dirs + {before.names[t.name := t.file]}
    && t.file in fs.data && fs.data == before.data[t.file := fs.data[t.file]]
    && t.file in fs.flushed && fs.flushed == before.flushed[t.file := fs.flushed[t.file]]
  }

  // ----- one step at a time ---------------------------------------------------------------------------------

  /** The state before the save, the temporary file, and where the record of this save begins. */
  datatype Ctx = Ctx(before: FileSystem, t: Temp, from: nat, target: nat) {
    ghost predicate Valid() { before.Valid() && Fresh(t, before) && t.name != target }

    function Writer(pos: nat): map<nat, Handle> { before.handles[t.fd := Handle(t.file, pos)] }
  }

  /** Up to now only the temporary file was touched, and it holds `d`. */
  ghost predicate Busy(fs: FileSystem, history: seq<FileSystem>, c: Ctx, d: Bytes, handles: map<nat, Handle>) {
    && c.Valid() && c.from <= |history|
    && Scratch(fs, c.before, c.t, d, handles)
    && Calm(history, c.from, c.target, c.before.Shows(c.target))
  }

  lemma {:induction false} BusyParts(fs: FileSystem, history: seq<FileSystem>, c: Ctx, d: Bytes, handles: map<nat, Handle>)
    requires Busy(fs, history, c, d, handles)
    ensures fs.handles == handles && c.t.file in fs.data && fs.data[c.t.file] == d && c.t.name in fs.names && fs.names[c.t.name] == c.t.file
    ensures c.t.name != c.target && c.t.fd !in c.before.handles
  {
    hide Calm;
  }

  lemma {:induction false} BusyStep(fs: FileSystem, history: seq<FileSystem>, c: Ctx, d: Bytes, handles: map<nat, Handle>,
                                    next: FileSystem, e: Bytes, moved: map<nat, Handle>)
    requires Busy(fs, history, c, d, handles) && Rewrote(fs, next, c.t.file, e, moved)
    ensures Busy(next, history + [next], c, e, moved)
  {
    hide Calm;
    hide FileSystem.Shows;
    hide FileSystem.Valid;
    assert next.data == c.before.data[c.t.file := e];
    assert next.flushed == c.before.flushed[c.t.file := next.flushed[c.t.file]];
    ScratchShows(next, c.before, c.t, e, moved, c.target);
    CalmSnoc(history, c.from, c.target, c.before.Shows(c.target), next);
  }

  /** A step that changes at most the open descriptors. */
  lemma {:induction false} BusyStay(fs: FileSystem, history: seq<FileSystem>, c: Ctx, d: Bytes, handles: map<nat, Handle>,
                                    next: FileSystem, moved: map<nat, Handle>)
    requires Busy(fs, history, c, d, handles) && next == fs.(handles := moved)
    ensures Busy(next, history + [next], c, d, moved)
  {
    hide Calm;
    hide FileSystem.Shows;
    hide FileSystem.Valid;
    ScratchShows(next, c.before, c.t, d, moved, c.target);
    CalmSnoc(history, c.from, c.target, c.before.Shows(c.target), next);
  }

  lemma {:induction false} BusyStart(fs: FileSystem, history: seq<FileSystem>, next: FileSystem, c: Ctx)
    requires fs.Valid() && c == Ctx(fs, c.t, |history|, c.target) && Fresh(c.t, fs) && c.t.name != c.target
    requires next == FileSystem(fs.names[c.t.name := c.t.file], fs.dirs + {fs.names[c.t.name := c.t.file]}, fs.data[c.t.file := []], fs.flushed[c.t.file := []],
                                fs.handles[c.t.fd := Handle(c.t.file, 0)])
    ensures Busy(next, history + [next], c, [], c.Writer(0))
  {
    hide FileSystem.Shows;
    ScratchShows(next, fs, c.t, [], c.Writer(0), c.target);
  }

  /** The replace happened: the target shows the document and showed the old file before; after a crash see `Switches`. */
  ghost predicate Done(fs: FileSystem, history: seq<FileSystem>, c: Ctx, d: Bytes, handles: map<nat, Handle>, settled: bool) {
    && c.Valid() && c.from <= |history|
    && Placed(fs, c.before, c.t, c.target, d, handles, settled)
    && Switches(history, c.from, c.target, c.before.Shows(c.target), d, settled)
  }

  lemma {:induction false} DoneStart(fs: FileSystem, history: seq<FileSystem>, c: Ctx, d: Bytes, handles: map<nat, Handle>, next: FileSystem)
    requires Busy(fs, history, c, d, handles) && c.t.file in fs.flushed && fs.flushed[c.t.file] == d
    requires next == Renamed(fs, (fs.names - {c.t.name})[c.target := c.t.file])
    ensures Done(next, history + [next], c, d, handles, false)
  {
    hide FileSystem.Shows;
    hide FileSystem.Valid;
    assert next.names == c.before.names[c.target := c.t.file];
    assert next.dirs == c.before.dirs + {fs.names, next.names};
    PlacedShows(next, c.before, c.t, c.target, d, handles, false);
    var all := history + [next];
    assert all[..|history|] == history && all[..|all|] == all;
    assert SwitchesAt(all, c.from, |history|, |all|, c.target, c.before.Shows(c.target), d);
  }

  /** The directory is flushed. */
  lemma {:induction false} DoneSettle(fs: FileSystem, history: seq<FileSystem>, c: Ctx, d: Bytes, handles: map<nat, Handle>, next: FileSystem)
    requires Done(fs, history, c, d, handles, false) && next == fs.(dirs := {fs.names})
    ensures Done(next, history + [next], c, d, handles, true)
  {
    hide FileSystem.Shows;
    hide FileSystem.Valid;
    PlacedShows(next, c.before, c.t, c.target, d, handles, true);
    var v, all := c.before.Shows(c.target), history + [next];
    var at: nat, safe: nat :| SwitchesAt(history, c.from, at, safe, c.target, v, d) && !(safe < |history|);
    assert all[..at] == history[..at] && all[..safe] == history[..safe];
    assert SwitchesAt(all, c.from, at, safe, c.target, v, d);
  }

  lemma {:induction false} DoneStay(fs: FileSystem, history: seq<FileSystem>, c: Ctx, d: Bytes, handles: map<nat, Handle>, settled: bool,
                                    next: FileSystem, moved: map<nat, Handle>)
    requires Done(fs, history, c, d, handles, settled) && next == fs.(handles := moved)
    ensures Done(next, history + [next], c, d, moved, settled)
  {
    hide FileSystem.Shows;
    hide FileSystem.Valid;
    PlacedShows(next, c.before, c.t, c.target, d, moved, settled);
    var v, all := c.before.Shows(c.target), history + [next];
    var at: nat, safe: nat :| SwitchesAt(history, c.from, at, safe, c.target, v, d) && (settled <==> safe < |history|);
    assert all[..at] == history[..at];
    if settled {
      assert all[..safe] == history[..safe];
      assert SwitchesAt(all, c.from, at, safe, c.target, v, d);
    } else {
      assert history[..safe] == history && all[..safe + 1] == all;
      assert SwitchesAt(all, c.from, at, safe + 1, c.target, v, d);
    }
  }

  // ----- bytes written piece by piece ---------------------------------------------------------------------

  lemma {:induction false} PartlyStart(doc: Bytes, room: nat)
    ensures Partly(doc, 0, room) == Zeros(room) == Grown([], room)
  {
    assert doc[..0] == [];
  }

  lemma {:induction false} PartlyDone(doc: Bytes, room: nat)
    requires room <= |doc|
    ensures Partly(doc, |doc|, room) == doc
  {
  }

  /** Writing the next bytes of the document at their place. */
  lemma {:induction false} PartlyNext(doc: Bytes, n: nat, k: nat, room: nat)
    requires n + k <= |doc|
    ensures Overwrite(Partly(doc, n, room), n, doc[n..n + k]) == Partly(doc, n + k, room)
  {
  }

  // ----- the recorded layout --------------------------------------------------------------------------------

  /** The recorded runs lie one behind the other in the new file, from its start up to `n`. */
  ghost predicate Consecutive(runs: seq<Layout.Written>, n: nat) {
    if runs == [] then n == 0
    else
      var w := runs[|runs| - 1];
      w.a <= w.b && w.out + w.b - w.a == n && Consecutive(runs[..|runs| - 1], w.out)
  }

  lemma {:induction false} Recorded(runs: seq<Layout.Written>, n: nat, p: Run, S: Sources, doc: Bytes)
    requires Consecutive(runs, n) && Rebase.TrueRuns(runs, S, doc)
    requires p.src in S && p.a < p.b <= |S[p.src].data| && n + p.b - p.a <= |doc|
    requires BytesAt(RunPlaces(p), S) == doc[n..n + p.b - p.a]
    ensures var all := runs + [Layout.Written(p.src, p.a, p.b, n)];
            Consecutive(all, n + p.b - p.a) && Rebase.TrueRuns(all, S, doc)
  {
    var w := Layout.Written(p.src, p.a, p.b, n);
    var all := runs + [w];
    assert all[..|runs|] == runs;
    RunBytes(p, S);
    forall k | 0 <= k < |all|
      ensures Rebase.TrueRun(all[k], S, doc)
    {
      if k < |runs| {
        assert Rebase.TrueRun(runs[k], S, doc);
      }
    }
  }

  // ----- the job --------------------------------------------------------------------------------------------

  /** Names of temporary files that are still to be removed; the exit hook tries again. */
  class TempNames {
    var names: set<nat>

    constructor ()
      ensures names == {}
    {
      names := {};
    }

    method Add(name: nat)
      modifies this
      ensures names == old(names) + {name}
    {
      names := names + {name};
    }

    method Forget(name: nat)
      modifies this
      ensures names == old(names) - {name}
    {
      names := names - {name};
    }
  }

  class SaveJob {
    const disk: Disk
    const temps: TempNames
    const layout: Layout.SaveLayout
    const target: nat
    const settings: Settings
    /** What is to be saved: the bytes, the sources, and the parts of a byte range. */
    const doc: Bytes
    const sources: Sources
    const plan: (nat, nat) -> seq<Run>
    var cancelled: bool
    var committed: bool
    /** Nobody cancels, no callback raises, and every source gives what is asked for. */
    const smooth: bool
    /** What has stood in the way so far. */
    ghost var trouble: set<Cause>

    ghost predicate Planned() {
      && settings.Valid()
      && forall offset: nat, limit: nat :: offset + limit <= |doc| ==> Denotes(plan(offset, limit), offset, limit)
    }

    /** The parts are the bytes `[offset, offset + limit)` of the document. */
    ghost predicate Denotes(parts: seq<Run>, offset: nat, limit: nat)
      requires offset + limit <= |doc|
    {
      GoodRuns(parts, sources) && BytesAt(RunsPlaces(parts), sources) == doc[offset..offset + limit]
    }

    constructor (disk: Disk, temps: TempNames, target: nat, settings: Settings, doc: Bytes, sources: Sources, plan: (nat, nat) -> seq<Run>,
                 smooth: bool)
      ensures !cancelled && !committed && trouble == {} && fresh(layout) && layout.Valid() && layout.Runs() == [] && this.smooth == smooth
      ensures this.disk == disk && this.temps == temps && this.target == target && this.settings == settings
      ensures this.doc == doc && this.sources == sources && this.plan == plan
    {
      this.disk, this.temps, this.target, this.settings := disk, temps, target, settings;
      this.doc, this.sources, this.plan, this.smooth := doc, sources, plan, smooth;
      cancelled, committed, trouble := false, false, {};
      layout := new Layout.SaveLayout();
    }

    /** `cancel` may come from another thread at any time; a check sees it then. */
    method CheckCancel() returns (stop: bool)
      modifies this`cancelled, this`trouble
      ensures stop == cancelled && (old(cancelled) ==> cancelled) && (smooth ==> cancelled == old(cancelled))
      ensures trouble == if stop then old(trouble) + {Asked} else old(trouble)
    {
      var asked: bool := *;
      cancelled := cancelled || (asked && !smooth);
      stop := cancelled;
      trouble := if stop then trouble + {Asked} else trouble;
    }

    /** A callback: the progress report, the pause gate, the length of the planner. */
    method CallOut() returns (ok: bool)
      modifies this`trouble
      ensures trouble == (if ok then old(trouble) else old(trouble) + {Raised}) && (smooth ==> ok)
    {
      ok := *;
      ok := ok || smooth;
      trouble := if ok then trouble else trouble + {Raised};
    }

    /** One part: the bytes, fewer of them, the report that the file changed, or an error because the source is closed. */
    method ReadPart(p: Run) returns (r: Part)
      requires p.src in sources && p.a < p.b <= |sources[p.src].data|
      modifies this`trouble
      ensures r.Got? ==> r.value <= sources[p.src].data[p.a..p.b]
      ensures smooth ==> r == Got(sources[p.src].data[p.a..p.b])
      ensures trouble == if r == Got(sources[p.src].data[p.a..p.b]) then old(trouble) else old(trouble) + {if r.Closed? then Unreadable else Lost}
    {
      var changed: bool, closed: bool, n: nat := *, *, *;
      var all := sources[p.src].data[p.a..p.b];
      r := if smooth then Got(all) else if closed then Closed else if changed then Changed else Got(if n < |all| then all[..n] else all);
      trouble := if r == Got(all) then trouble else trouble + {if r.Closed? then Unreadable else Lost};
    }

    /** The joined parts: full length means that these are the bytes asked for. */
    method ReadParts(parts: seq<Run>) returns (r: Part)
      requires GoodRuns(parts, sources)
      modifies this`trouble
      ensures old(trouble) <= trouble && (r.Closed? ==> Unreadable in trouble)
      ensures r.Changed? || (r.Got? && |r.value| < |RunsPlaces(parts)|) ==> Lost in trouble
      ensures r.Got? && |r.value| == |RunsPlaces(parts)| ==> trouble == old(trouble)
      ensures r.Got? ==> |r.value| <= |RunsPlaces(parts)|
      ensures r.Got? && |r.value| == |RunsPlaces(parts)| ==> r.value == BytesAt(RunsPlaces(parts), sources)
      ensures smooth ==> r.Got? && |r.value| == |RunsPlaces(parts)|
    {
      hide *;
      var data: Bytes := [];
      var i := 0;
      assert parts[..0] == [];
      NoRuns();
      while i < |parts|
        invariant 0 <= i <= |parts| && |data| <= |RunsPlaces(parts[..i])|
        invariant |data| == |RunsPlaces(parts[..i])| ==> data == BytesAt(RunsPlaces(parts[..i]), sources)
        invariant old(trouble) <= trouble && (|data| < |RunsPlaces(parts[..i])| ==> Lost in trouble && !smooth)
        invariant |data| == |RunsPlaces(parts[..i])| ==> trouble == old(trouble)
      {
        GoodRunAt(parts, i, sources);
        RunBytes(parts[i], sources);
        var part := ReadPart(parts[i]);
        if !part.Got? {
          return part;
        }
        assert parts[..i + 1] == parts[..i] + [parts[i]];
        RunsSnoc(parts[..i], parts[i]);
        BytesJoin(RunsPlaces(parts[..i]), RunPlaces(parts[i]), sources);
        data := data + part.value;
        i := i + 1;
      }
      assert parts[..i] == parts;
      r := Got(data);
    }

    /** `_write_all`: until everything is written or a write fails. */
    method WriteAll(fd: nat, data: Bytes, ghost c: Ctx, ghost w: nat, ghost room: nat) returns (ok: bool, ghost k: nat)
      requires fd == c.t.fd && w + |data| <= |doc| && data == doc[w..w + |data|]
      requires Busy(disk.fs, disk.history, c, Partly(doc, w, room), c.Writer(w))
      modifies disk
      ensures k <= |data| && Busy(disk.fs, disk.history, c, Partly(doc, w + k, room), c.Writer(w + k))
      ensures (ok ==> k == |data|) && (disk.smooth ==> ok)
      ensures disk.trouble == if ok then old(disk.trouble) else old(disk.trouble) + {Putting}
    {
      hide *;
      k := 0;
      var view := data;
      while view != []
        invariant k <= |data| && view == data[k..]
        invariant Busy(disk.fs, disk.history, c, Partly(doc, w + k, room), c.Writer(w + k))
        invariant disk.trouble == old(disk.trouble)
        decreases |view|
      {
        BusyParts(disk.fs, disk.history, c, Partly(doc, w + k, room), c.Writer(w + k));
        WriterIs(c, w + k);
        ghost var fs, history := disk.fs, disk.history;
        var count := disk.Write(fd, view);
        ghost var n: nat := if count.Some? && count.value > 0 then count.value else 0;
        SubSlice(doc, w, w + |data|, k, k + n);
        assert view[..n] == data[k..k + n];
        PartlyNext(doc, w + k, n, room);
        WriterMoves(c, w + k, n);
        BusyStep(fs, history, c, Partly(doc, w + k, room), c.Writer(w + k), disk.fs, Partly(doc, w + k + n, room), c.Writer(w + k + n));
        k := k + n;
        if count.None? || count.value <= 0 {
          return false, k;
        }
        view := view[count.value..];
      }
      ok := true;
    }

    static lemma {:induction false} WriterIs(c: Ctx, pos: nat)
      ensures c.Writer(pos) == c.before.handles[c.t.fd := Handle(c.t.file, pos)]
      ensures c.t.fd in c.Writer(pos) && c.Writer(pos)[c.t.fd] == Handle(c.t.file, pos)
    {
    }

    static lemma {:induction false} WriterMoves(c: Ctx, pos: nat, n: nat)
      ensures c.Writer(pos)[c.t.fd := Handle(c.t.file, pos + n)] == c.Writer(pos + n)
    {
    }

    /** Records the parts of one chunk in the layout. */
    method Record(parts: seq<Run>, out: nat)
      requires layout.Valid() && Consecutive(layout.Runs(), out) && Rebase.TrueRuns(layout.Runs(), sources, doc)
      requires GoodRuns(parts, sources) && out + |RunsPlaces(parts)| <= |doc|
      requires BytesAt(RunsPlaces(parts), sources) == doc[out..out + |RunsPlaces(parts)|]
      modifies layout
      ensures layout.Valid() && Consecutive(layout.Runs(), out + |RunsPlaces(parts)|) && Rebase.TrueRuns(layout.Runs(), sources, doc)
    {
      hide *;
      var at, i := out, 0;
      assert parts[..0] == [];
      NoRuns();
      while i < |parts|
        invariant 0 <= i <= |parts| && at == out + |RunsPlaces(parts[..i])|
        invariant layout.Valid() && Consecutive(layout.Runs(), at) && Rebase.TrueRuns(layout.Runs(), sources, doc)
      {
        var p := parts[i];
        GoodRunAt(parts, i, sources);
        RunBytes(p, sources);
        PartBytes(parts, i, out);
        Recorded(layout.Runs(), at, p, sources, doc);
        layout.Add(p.src, p.a, p.b, at);
        at := at + p.b - p.a;
        i := i + 1;
      }
      assert parts[..i] == parts;
    }

    /** The bytes of part `i` within those of all parts. */
    lemma {:induction false} PartBytes(parts: seq<Run>, i: nat, out: nat)
      requires GoodRuns(parts, sources) && i < |parts| && out + |RunsPlaces(parts)| <= |doc|
      requires BytesAt(RunsPlaces(parts), sources) == doc[out..out + |RunsPlaces(parts)|]
      ensures var at := out + |RunsPlaces(parts[..i])|;
              && |RunPlaces(parts[i])| == parts[i].b - parts[i].a && |RunsPlaces(parts[..i + 1])| == at - out + parts[i].b - parts[i].a
              && at + parts[i].b - parts[i].a <= |doc| && BytesAt(RunPlaces(parts[i]), sources) == doc[at..at + parts[i].b - parts[i].a]
    {
      hide *;
      GoodRunAt(parts, i, sources);
      RunBytes(parts[i], sources);
      RunInRuns(parts, i, sources);
      var n := |RunsPlaces(parts[..i])|;
      SubSlice(doc, out, out + |RunsPlaces(parts)|, n, n + parts[i].b - parts[i].a);
    }

    /** What the scanner has handed over is that of the first `n` bytes. */
    ghost predicate Scanned(sc: Option<Scanner.RowScanner>, entries: seq<nat>, longs: seq<LongRow>, n: nat)
      requires n <= |doc|
      reads if sc.Some? then {sc.value} else {}
    {
      if sc.None? then !settings.buildIndex else
        && settings.buildIndex && sc.value.Valid() && sc.value.stride == settings.stride && sc.value.threshold == settings.threshold
        && sc.value.seen == doc[..n] && sc.value.takenEntries == entries && sc.value.takenLongs == longs
        && sc.value.entries == [] && sc.value.longs == [] && (sc.value.done <==> 0 < n == |doc|)
    }

    /** One chunk: read, write, record, scan. */
    method Chunk(fd: nat, sc: Option<Scanner.RowScanner>, entries: seq<nat>, longs: seq<LongRow>, written: nat, ghost c: Ctx, ghost room: nat)
        returns (stop: Option<Outcome>, es: seq<nat>, ls: seq<LongRow>, now: nat, ghost k: nat)
      requires Planned() && fd == c.t.fd && written < |doc|
      requires Busy(disk.fs, disk.history, c, Partly(doc, written, room), c.Writer(written))
      requires layout.Valid() && Consecutive(layout.Runs(), written) && Rebase.TrueRuns(layout.Runs(), sources, doc)
      requires Scanned(sc, entries, longs, written)
      modifies disk, layout, this`trouble, (if sc.Some? then {sc.value} else {})
      ensures old(trouble) <= trouble && old(disk.trouble) <= disk.trouble && (stop.Some? ==> Blamed(stop.value, trouble, disk.trouble))
      ensures stop.None? ==> trouble == old(trouble) && disk.trouble == old(disk.trouble)
      ensures smooth && disk.smooth ==> stop.None?
      ensures k <= |doc| && Busy(disk.fs, disk.history, c, Partly(doc, k, room), c.Writer(k)) && layout.Valid()
      ensures stop.Some? ==> stop == Some(Failed(Writing, false)) || stop == Some(Failed(Internal, false))
      ensures stop.None? ==> written < now == k && Consecutive(layout.Runs(), now) && Rebase.TrueRuns(layout.Runs(), sources, doc)
      ensures stop.None? ==> Scanned(sc, es, ls, now)
    {
      hide *;
      es, ls, now, k := entries, longs, written, written;
      SettingsAre();
      var want := if settings.chunk < |doc| - written then settings.chunk else |doc| - written;
      var parts := plan(written, want);
      PartsAre(written, want);
      var data := ReadParts(parts);
      if data.Closed? {
        BlamedIs(trouble, disk.trouble);
        return Some(Failed(Internal, false)), es, ls, now, k;
      }
      if data.Changed? || |data.value| != want {
        BlamedIs(trouble, disk.trouble);
        return Some(Failed(Writing, false)), es, ls, now, k;
      }
      var ok, n := WriteAll(fd, data.value, c, written, room);
      k := written + n;
      if !ok {
        BlamedIs(trouble, disk.trouble);
        return Some(Failed(Writing, false)), es, ls, now, k;
      }
      Record(parts, written);
      now := written + |data.value|;
      if sc.Some? {
        es, ls := FeedScanner(sc.value, data.value, entries, longs, written);
      } else {
        NoScanner(entries, longs, written, now);
      }
      stop := None;
    }

    lemma {:induction false} SettingsAre()
      requires Planned()
      ensures settings.Valid() && settings.chunk > 0 && settings.stride > 0
    {
    }

    lemma {:induction false} PartsAre(offset: nat, limit: nat)
      requires Planned() && offset + limit <= |doc|
      ensures var parts := plan(offset, limit);
              && GoodRuns(parts, sources) && BytesAt(RunsPlaces(parts), sources) == doc[offset..offset + limit]
              && |RunsPlaces(parts)| == limit
    {
      hide GoodRuns;
      hide RunsPlaces;
      assert Denotes(plan(offset, limit), offset, limit);
    }

    lemma {:induction false} NoScanner(entries: seq<nat>, longs: seq<LongRow>, n: nat, m: nat)
      requires n <= |doc| && m <= |doc| && Scanned(None, entries, longs, n)
      ensures Scanned(None, entries, longs, m)
    {
    }

    method FeedScanner(sc: Scanner.RowScanner, data: Bytes, entries: seq<nat>, longs: seq<LongRow>, written: nat)
        returns (es: seq<nat>, ls: seq<LongRow>)
      requires written < |doc| && data != [] && written + |data| <= |doc| && data == doc[written..written + |data|]
      requires Scanned(Some(sc), entries, longs, written)
      modifies sc
      ensures Scanned(Some(sc), es, ls, written + |data|)
    {
      sc.Feed(data, written, written + |data| >= |doc|);
      var newEntries, newLongs := sc.Take();
      es, ls := entries + newEntries, longs + newLongs;
      assert doc[..written] + data == doc[..written + |data|];
    }

    /** `_stream`: the document chunk by chunk, with a check for cancel before each and a flush from time to time. */
    method Stream(fd: nat, ghost c: Ctx, ghost room: nat)
        returns (stop: Option<Outcome>, sc: Option<Scanner.RowScanner>, entries: seq<nat>, longs: seq<LongRow>, ghost k: nat)
      requires Planned() && fd == c.t.fd && layout.Valid() && layout.Runs() == []
      requires Busy(disk.fs, disk.history, c, Partly(doc, 0, room), c.Writer(0))
      modifies disk, layout, this`cancelled, this`trouble
      ensures old(trouble) <= trouble && old(disk.trouble) <= disk.trouble && (stop.Some? ==> Blamed(stop.value, trouble, disk.trouble))
      ensures stop.None? ==> trouble == old(trouble) && disk.trouble == old(disk.trouble)
      ensures (old(cancelled) ==> cancelled) && (stop == Some(Cancelled) ==> cancelled)
      ensures if doc == [] then stop.None? else old(cancelled) ==> stop == Some(Cancelled)
      ensures smooth && disk.smooth && !old(cancelled) ==> stop.None? && !cancelled
      ensures k <= |doc| && Busy(disk.fs, disk.history, c, Partly(doc, k, room), c.Writer(k)) && layout.Valid()
      ensures stop.Some? ==> Early(stop.value)
      ensures stop.None? ==> k == |doc| && Consecutive(layout.Runs(), |doc|) && Rebase.TrueRuns(layout.Runs(), sources, doc)
      ensures stop.None? ==> Scanned(sc, entries, longs, |doc|) && (sc.Some? ==> fresh(sc.value))
    {
      hide *;
      SettingsAre();
      sc, entries, longs, k := None, [], [], 0;
      if settings.buildIndex {
        var scanner := new Scanner.RowScanner(settings.stride, settings.threshold);
        sc := Some(scanner);
      }
      NothingScanned(sc);
      NothingRecorded();
      var written, unsynced := 0, 0;
      while written < |doc|
        invariant written == k <= |doc| && layout.Valid() && (sc.Some? ==> fresh(sc.value))
        invariant Busy(disk.fs, disk.history, c, Partly(doc, k, room), c.Writer(k))
        invariant Consecutive(layout.Runs(), written) && Rebase.TrueRuns(layout.Runs(), sources, doc)
        invariant Scanned(sc, entries, longs, written)
        invariant trouble == old(trouble) && disk.trouble == old(disk.trouble) && (smooth && !old(cancelled) ==> !cancelled)
        invariant (old(cancelled) ==> cancelled) && (old(cancelled) && doc != [] ==> written == 0)
        decreases |doc| - written
      {
        EarlyIs();
        var cancelNow := CheckCancel();
        if cancelNow {
          BlamedIs(trouble, disk.trouble);
          return Some(Cancelled), sc, entries, longs, k;
        }
        var called := CallOut();
        if !called {
          BlamedIs(trouble, disk.trouble);
          return Some(Failed(Internal, false)), sc, entries, longs, k;
        }
        ghost var n: nat;
        var now: nat;
        stop, entries, longs, now, n := Chunk(fd, sc, entries, longs, written, c, room);
        k := n;
        if stop.Some? {
          return;
        }
        unsynced := unsynced + now - written;
        written := now;
        if unsynced >= settings.fsyncEvery {
          var ok := Sync(fd, c, Partly(doc, k, room), c.Writer(k), k);
          if !ok {
            BlamedIs(trouble, disk.trouble);
            return Some(Failed(Flush, false)), sc, entries, longs, k;
          }
          unsynced := 0;
        }
        var reported := CallOut();
        if !reported {
          BlamedIs(trouble, disk.trouble);
          return Some(Failed(Internal, false)), sc, entries, longs, k;
        }
      }
      stop := None;
    }

    /** An outcome in front of the replace. */
    static predicate Early(o: Outcome) {
      o.Cancelled? || (o.Failed? && !o.committed)
    }

    static lemma {:induction false} EarlyIs()
      ensures Early(Cancelled) && forall s :: Early(Failed(s, false))
    {
    }

    /** What an outcome without a replace says went wrong did go wrong. */
    static predicate Blamed(o: Outcome, causes: set<Cause>, calls: set<Call>) {
      match o
      case Saved(_) => false
      case Cancelled => Asked in causes
      case Failed(stage, _) =>
        match stage
        case Prepare => Raised in causes || Creating in calls || Allocating in calls
        case Writing => Lost in causes || Putting in calls
        case Flush => Syncing in calls || Touching in calls
        case Replacing => Renaming in calls
        case Internal => Raised in causes || Unreadable in causes || Opening in calls || Touching in calls
    }

    static lemma {:induction false} BlamedIs(causes: set<Cause>, calls: set<Call>)
      ensures Blamed(Cancelled, causes, calls) <==> Asked in causes
      ensures Blamed(Failed(Prepare, false), causes, calls) <==> Raised in causes || Creating in calls || Allocating in calls
      ensures Blamed(Failed(Writing, false), causes, calls) <==> Lost in causes || Putting in calls
      ensures Blamed(Failed(Flush, false), causes, calls) <==> Syncing in calls || Touching in calls
      ensures Blamed(Failed(Replacing, false), causes, calls) <==> Renaming in calls
      ensures Blamed(Failed(Internal, false), causes, calls) <==> Raised in causes || Unreadable in causes || Opening in calls || Touching in calls
    {
    }

    static lemma {:induction false} BlamedStill(o: Outcome, causes: set<Cause>, calls: set<Call>, more: set<Call>)
      requires Blamed(o, causes, calls) && calls <= more
      ensures Blamed(o, causes, more)
    {
    }

    lemma {:induction false} NothingScanned(sc: Option<Scanner.RowScanner>)
      requires if sc.None? then !settings.buildIndex else
                 && settings.buildIndex && sc.value.Valid() && sc.value.stride == settings.stride && sc.value.threshold == settings.threshold
                 && sc.value.seen == [] && !sc.value.done && sc.value.takenEntries == [] && sc.value.takenLongs == []
                 && sc.value.entries == [] && sc.value.longs == []
      ensures Scanned(sc, [], [], 0)
    {
      assert doc[..0] == [];
    }

    lemma {:induction false} NothingRecorded()
      requires layout.Valid() && layout.Runs() == []
      ensures Consecutive(layout.Runs(), 0) && Rebase.TrueRuns(layout.Runs(), sources, doc)
    {
    }

    /** `_sync`. */
    method Sync(fd: nat, ghost c: Ctx, ghost d: Bytes, ghost handles: map<nat, Handle>, ghost pos: nat) returns (ok: bool)
      requires fd == c.t.fd && handles == c.Writer(pos) && Busy(disk.fs, disk.history, c, d, handles)
      modifies disk
      ensures disk.trouble == (if ok then old(disk.trouble) else old(disk.trouble) + {Syncing}) && (disk.smooth ==> ok)
      ensures Busy(disk.fs, disk.history, c, d, handles)
      ensures ok ==> c.t.file in disk.fs.flushed && disk.fs.flushed[c.t.file] == d
    {
      hide *;
      BusyParts(disk.fs, disk.history, c, d, handles);
      WriterIs(c, pos);
      ghost var fs, history := disk.fs, disk.history;
      ok := disk.Fsync(fd);
      BusyStep(fs, history, c, d, handles, disk.fs, d, handles);
      BusyFlushed(disk.fs, disk.history, c, d, handles);
    }

    static lemma {:induction false} BusyFlushed(fs: FileSystem, history: seq<FileSystem>, c: Ctx, d: Bytes, handles: map<nat, Handle>)
      requires Busy(fs, history, c, d, handles)
      ensures c.t.file in fs.flushed
    {
      hide Calm;
    }

    /** `_preallocate`: a file system without the call is no failure. */
    method Preallocate(fd: nat, ghost c: Ctx) returns (ok: bool, ghost room: nat)
      requires fd == c.t.fd && Busy(disk.fs, disk.history, c, [], c.Writer(0))
      modifies disk
      ensures old(disk.trouble) <= disk.trouble <= old(disk.trouble) + {Allocating} && (!ok ==> Allocating in disk.trouble) && (disk.smooth ==> ok)
      ensures room <= |doc| && Busy(disk.fs, disk.history, c, Partly(doc, 0, room), c.Writer(0))
    {
      hide *;
      room := 0;
      PartlyStart(doc, 0);
      NoZeros();
      if !settings.preallocate || |doc| <= 0 {
        return true, 0;
      }
      BusyParts(disk.fs, disk.history, c, [], c.Writer(0));
      WriterIs(c, 0);
      ghost var fs, history := disk.fs, disk.history;
      var e: Option<Errno>;
      e, room := disk.Fallocate(fd, |doc|);
      PartlyStart(doc, room);
      BusyStep(fs, history, c, [], c.Writer(0), disk.fs, Partly(doc, 0, room), c.Writer(0));
      ok := e != Some(Other);
    }

    static lemma {:induction false} NoZeros()
      ensures Zeros(0) == []
    {
    }

    /** A call that changes nothing on the disk. */
    method Quiet(ghost c: Ctx, ghost d: Bytes, ghost handles: map<nat, Handle>) returns (e: Option<Errno>)
      requires Busy(disk.fs, disk.history, c, d, handles)
      modifies disk
      ensures disk.trouble == (if e.None? then old(disk.trouble) else old(disk.trouble) + {Touching}) && (disk.smooth ==> e.None?)
      ensures Busy(disk.fs, disk.history, c, d, handles) && disk.fs == old(disk.fs)
    {
      hide *;
      BusyParts(disk.fs, disk.history, c, d, handles);
      ghost var fs, history := disk.fs, disk.history;
      e := disk.Touch();
      BusyStay(fs, history, c, d, handles, disk.fs, handles);
    }

    /** `_finish` after the replace: switch to the new file, or release the descriptor; `fin` says which steps raise. */
    method Finish(reader: nat, sc: Option<Scanner.RowScanner>, entries: seq<nat>, longs: seq<LongRow>, fin: Finishing, ghost c: Ctx,
                  ghost settled: bool)
        returns (out: Outcome)
      requires Planned() && Scanned(sc, entries, longs, |doc|) && reader !in c.Writer(|doc|)
      requires Done(disk.fs, disk.history, c, doc, c.Writer(|doc|)[reader := Handle(c.t.file, 0)], settled)
      modifies disk, (if sc.Some? then {sc.value} else {})
      ensures old(disk.trouble) <= disk.trouble <= old(disk.trouble) + {Releasing}
      ensures out.Saved? <==> !fin.report && !fin.adopt && !fin.build
      ensures out.Saved? ==> Done(disk.fs, disk.history, c, doc, c.Writer(|doc|)[reader := Handle(c.t.file, 0)], settled)
      ensures out.Saved? ==> out.result.reader == reader && GoodResult(out.result)
      ensures !out.Saved? ==> out == Failed(Internal, !CommitLost(fin)) && Done(disk.fs, disk.history, c, doc, c.Writer(|doc|), settled)
    {
      hide *;
      CommitLostIs(fin);
      ghost var handles := c.Writer(|doc|)[reader := Handle(c.t.file, 0)];
      DoneParts(disk.fs, disk.history, c, doc, handles, settled);
      if fin.report || fin.adopt || fin.build {
        ghost var fs, history := disk.fs, disk.history;
        var closed := disk.Close(reader);
        DropHandle(c.Writer(|doc|), reader, Handle(c.t.file, 0));
        DoneStay(fs, history, c, doc, handles, settled, disk.fs, c.Writer(|doc|));
        // An error while closing the adopted source replaces the error that says `committed`.
        return Failed(Internal, fin.report || fin.adopt || !fin.close);
      }
      var index := BuildIndex(sc, entries, longs, disk.fs.data[disk.fs.handles[reader].file]);
      out := Saved(SaveResult(|doc|, reader, index));
      ResultIs(out.result);
    }

    static lemma {:induction false} CommitLostIs(fin: Finishing)
      ensures CommitLost(fin) <==> !fin.report && !fin.adopt && fin.build && fin.close
    {
    }

    static lemma {:induction false} DoneParts(fs: FileSystem, history: seq<FileSystem>, c: Ctx, d: Bytes, handles: map<nat, Handle>, settled: bool)
      requires Done(fs, history, c, d, handles, settled)
      ensures fs.handles == handles && c.t.file in fs.data && fs.data[c.t.file] == d
    {
      hide Switches;
    }

    static lemma {:induction false} DropHandle(m: map<nat, Handle>, k: nat, h: Handle)
      requires k !in m
      ensures m[k := h] - {k} == m
    {
    }

    /** The result describes the new file: its length, and when asked for a complete line index of its bytes. */
    ghost predicate GoodResult(r: SaveResult)
      reads if r.index.Some? then {r.index.value} else {}
    {
      && r.length == |doc| && (r.index.Some? <==> settings.buildIndex)
      && (r.index.Some? ==>
            && r.index.value.Valid() && r.index.value.complete && r.index.value.data == doc
            && r.index.value.stride == settings.stride && r.index.value.threshold == settings.threshold && r.index.value.cap == settings.cap)
    }

    lemma {:induction false} ResultIs(r: SaveResult)
      ensures GoodResult(r) <==>
                && r.length == |doc| && (r.index.Some? <==> settings.buildIndex)
                && (r.index.Some? ==>
                      && r.index.value.Valid() && r.index.value.complete && r.index.value.data == doc
                      && r.index.value.stride == settings.stride && r.index.value.threshold == settings.threshold && r.index.value.cap == settings.cap)
    {
      hide Index.LineIndex.Valid;
    }

    /** `_build_index`: what the scanner saw while writing is a rescan of the new file. */
    method BuildIndex(sc: Option<Scanner.RowScanner>, entries: seq<nat>, longs: seq<LongRow>, content: Bytes) returns (index: Option<Index.LineIndex>)
      requires Planned() && Scanned(sc, entries, longs, |doc|) && content == doc
      modifies if sc.Some? then {sc.value} else {}
      ensures index.Some? <==> settings.buildIndex
      ensures index.Some? ==>
                && index.value.Valid() && index.value.complete && index.value.data == content
                && index.value.stride == settings.stride && index.value.threshold == settings.threshold && index.value.cap == settings.cap
    {
      hide *;
      ScannedIs(sc, entries, longs);
      if sc.None? {
        return None;
      }
      var last := sc.value.Finish(|doc|);
      assert entries + [] == entries && longs + [] + last == longs + last;
      var source := new Index.Reader(content);
      var made := new Index.LineIndex.FromScan(source, settings.stride, settings.threshold, settings.cap, settings.budget, settings.maxLines,
                                               settings.scanBlock, settings.walkWindow, Scanner.ScanResult(sc.value.count, entries, longs + last));
      index := Some(made);
    }

    lemma {:induction false} ScannedIs(sc: Option<Scanner.RowScanner>, entries: seq<nat>, longs: seq<LongRow>)
      requires Planned() && Scanned(sc, entries, longs, |doc|)
      ensures sc.Some? <==> settings.buildIndex
      ensures sc.Some? ==>
                && sc.value.Valid() && sc.value.stride == settings.stride && sc.value.threshold == settings.threshold && sc.value.seen == doc
                && sc.value.takenEntries == entries && sc.value.takenLongs == longs && sc.value.entries == [] && sc.value.longs == []
                && (sc.value.done || sc.value.seen == [])
      ensures settings.stride > 0 && settings.threshold > 0 && settings.budget > 0 && settings.maxLines > 0 && settings.scanBlock > 0
              && settings.walkWindow > 0
    {
      hide Scanner.RowScanner.Valid;
      assert doc[..|doc|] == doc;
    }

    /** The steps between the temporary file and the replace; `reader` is the descriptor that would be adopted. */
    method Fill(fd: nat, name: nat, ghost c: Ctx)
        returns (stop: Option<Outcome>, reader: Option<nat>, sc: Option<Scanner.RowScanner>, entries: seq<nat>, longs: seq<LongRow>,
                 ghost d: Bytes, ghost pos: nat)
      requires Planned() && fd == c.t.fd && name == c.t.name && layout.Valid() && layout.Runs() == []
      requires Busy(disk.fs, disk.history, c, [], c.Writer(0))
      modifies disk, layout, this`cancelled, this`trouble
      ensures old(trouble) <= trouble && old(disk.trouble) <= disk.trouble && (stop.Some? ==> Blamed(stop.value, trouble, disk.trouble))
      ensures stop.None? ==> trouble == old(trouble) && disk.trouble <= old(disk.trouble) + {Allocating, Touching}
      ensures (old(cancelled) ==> cancelled) && (stop == Some(Cancelled) ==> cancelled)
      ensures (stop.None? ==> !cancelled) && (smooth && disk.smooth && old(cancelled) ==> stop == Some(Cancelled))
      ensures smooth && disk.smooth && !old(cancelled) ==> stop.None? && !cancelled
      ensures Busy(disk.fs, disk.history, c, d, WithReader(c, pos, reader)) && layout.Valid()
      ensures reader.Some? ==> reader.value !in c.Writer(pos)
      ensures stop.Some? ==> Early(stop.value)
      ensures stop.None? ==> reader.Some? && d == doc && pos == |doc| && c.t.file in disk.fs.flushed && disk.fs.flushed[c.t.file] == doc
      ensures stop.None? ==> Consecutive(layout.Runs(), |doc|) && Rebase.TrueRuns(layout.Runs(), sources, doc)
      ensures stop.None? ==> Scanned(sc, entries, longs, |doc|) && (sc.Some? ==> fresh(sc.value))
    {
      hide *;
      EarlyIs();
      reader, sc, entries, longs, d, pos := None, None, [], [], [], 0;
      NoReader(c, 0);
      var planned := CallOut();
      if !planned {
        BlamedIs(trouble, disk.trouble);
        stop := Some(Failed(Internal, false));
        return;
      }
      var allocated_, room := Preallocate(fd, c);
      d := Partly(doc, 0, room);
      if !allocated_ {
        BlamedIs(trouble, disk.trouble);
        stop := Some(Failed(Prepare, false));
        return;
      }
      stop, sc, entries, longs, pos := Stream(fd, c, room);
      d := Partly(doc, pos, room);
      NoReader(c, pos);
      if stop.Some? {
        return;
      }
      // The check that the length did not change behind the stream can never fail: the stream ends at that length.
      PartlyDone(doc, room);
      stop, reader := Settle(fd, name, c);
    }

    /** Mode, flush, identity, the descriptor of the new file, and the last look for a cancel. */
    method Settle(fd: nat, name: nat, ghost c: Ctx) returns (stop: Option<Outcome>, reader: Option<nat>)
      requires fd == c.t.fd && name == c.t.name && Busy(disk.fs, disk.history, c, doc, c.Writer(|doc|))
      modifies disk, this`cancelled, this`trouble
      ensures old(trouble) <= trouble && old(disk.trouble) <= disk.trouble && (stop.Some? ==> Blamed(stop.value, trouble, disk.trouble))
      ensures stop.None? ==> trouble == old(trouble) && disk.trouble <= old(disk.trouble) + {Touching}
      ensures (old(cancelled) ==> cancelled) && (stop == Some(Cancelled) ==> cancelled)
      ensures (stop.None? ==> !cancelled) && (smooth && disk.smooth && old(cancelled) ==> stop == Some(Cancelled))
      ensures smooth && disk.smooth && !old(cancelled) ==> stop.None? && !cancelled
      ensures Busy(disk.fs, disk.history, c, doc, WithReader(c, |doc|, reader)) && (reader.Some? ==> reader.value !in c.Writer(|doc|))
      ensures stop.Some? ==> Early(stop.value)
      ensures stop.None? ==> reader.Some? && c.t.file in disk.fs.flushed && disk.fs.flushed[c.t.file] == doc
    {
      hide *;
      EarlyIs();
      NoReader(c, |doc|);
      var reported := CallOut();
      if !reported {
        BlamedIs(trouble, disk.trouble);
        return Some(Failed(Internal, false)), None;
      }
      var e := Quiet(c, doc, c.Writer(|doc|));
      if e == Some(Other) {
        BlamedIs(trouble, disk.trouble);
        return Some(Failed(Flush, false)), None;
      }
      var ok := Sync(fd, c, doc, c.Writer(|doc|), |doc|);
      if !ok {
        BlamedIs(trouble, disk.trouble);
        return Some(Failed(Flush, false)), None;
      }
      var stated := Quiet(c, doc, c.Writer(|doc|));
      if stated.Some? {
        BlamedIs(trouble, disk.trouble);
        return Some(Failed(Internal, false)), None;
      }
      BusyParts(disk.fs, disk.history, c, doc, c.Writer(|doc|));
      ghost var fs, history := disk.fs, disk.history;
      reader := disk.OpenRo(name);
      StayWhole(fs);
      BusyStay(fs, history, c, doc, c.Writer(|doc|), disk.fs, WithReader(c, |doc|, reader));
      if reader.None? {
        BlamedIs(trouble, disk.trouble);
        return Some(Failed(Internal, false)), None;
      }
      var cancelNow := CheckCancel();
      BlamedIs(trouble, disk.trouble);
      stop := if cancelNow then Some(Cancelled) else None;
    }

    /** The descriptors of the job: the writer, and the reader once it is open. */
    static ghost function WithReader(c: Ctx, pos: nat, reader: Option<nat>): map<nat, Handle> {
      if reader.Some? then c.Writer(pos)[reader.value := Handle(c.t.file, 0)] else c.Writer(pos)
    }

    static lemma {:induction false} NoReader(c: Ctx, pos: nat)
      ensures WithReader(c, pos, None) == c.Writer(pos)
      ensures forall r: nat :: WithReader(c, pos, Some(r)) == c.Writer(pos)[r := Handle(c.t.file, 0)]
    {
    }

    static lemma {:induction false} StayWhole(fs: FileSystem)
      ensures fs.(handles := fs.handles) == fs
    {
    }

    /** The replace and what follows it. */
    method Commit(name: nat, reader: nat, sc: Option<Scanner.RowScanner>, entries: seq<nat>, longs: seq<LongRow>, fin: Finishing, ghost c: Ctx)
        returns (out: Outcome, renamed: bool, ghost settled: bool)
      requires Planned() && name == c.t.name && target == c.target && !committed && Scanned(sc, entries, longs, |doc|)
      requires reader !in c.Writer(|doc|) && Busy(disk.fs, disk.history, c, doc, WithReader(c, |doc|, Some(reader)))
      requires c.t.file in disk.fs.flushed && disk.fs.flushed[c.t.file] == doc
      modifies disk, this`committed, (if sc.Some? then {sc.value} else {})
      ensures (disk.smooth ==> renamed && settled) && committed == renamed && old(disk.trouble) <= disk.trouble
      ensures if renamed then disk.trouble <= old(disk.trouble) + {SyncingDirectory, Releasing} else Renaming in disk.trouble
      ensures renamed && SyncingDirectory !in disk.trouble ==> settled
      ensures !renamed ==> out == Failed(Replacing, false) && Busy(disk.fs, disk.history, c, doc, WithReader(c, |doc|, Some(reader)))
      ensures renamed ==> (out.Saved? <==> !fin.report && !fin.adopt && !fin.build)
      ensures renamed && out.Saved? ==>
                && Done(disk.fs, disk.history, c, doc, WithReader(c, |doc|, Some(reader)), settled)
                && out.result.reader == reader && GoodResult(out.result)
      ensures renamed && !out.Saved? ==> out == Failed(Internal, !CommitLost(fin)) && Done(disk.fs, disk.history, c, doc, c.Writer(|doc|), settled)
    {
      hide *;
      NoReader(c, |doc|);
      ghost var handles := WithReader(c, |doc|, Some(reader));
      BusyParts(disk.fs, disk.history, c, doc, handles);
      ghost var fs, history := disk.fs, disk.history;
      settled := false;
      renamed := disk.Replace(name, target);
      if !renamed {
        StayWhole(fs);
        BusyStay(fs, history, c, doc, handles, disk.fs, handles);
        return Failed(Replacing, false), false, false;
      }
      DoneStart(fs, history, c, doc, handles, disk.fs);
      committed := true;
      fs, history := disk.fs, disk.history;
      var flushed := disk.FsyncDir();
      settled := flushed;
      StayWhole(fs);
      DoneParts(fs, history, c, doc, handles, false);
      if flushed {
        DoneSettle(fs, history, c, doc, handles, disk.fs);
      } else {
        StayDirs(fs);
        DoneStay(fs, history, c, doc, handles, false, disk.fs, handles);
      }
      out := Finish(reader, sc, entries, longs, fin, c, settled);
    }

    static lemma {:induction false} StayDirs(fs: FileSystem)
      ensures fs.(dirs := fs.dirs) == fs
    {
    }

    /** The `finally` of a save that did not replace: close, unlink, and keep the name for the exit hook when that fails. */
    method Abandon(fd: nat, name: nat, reader: Option<nat>, ghost c: Ctx, ghost d: Bytes, ghost pos: nat)
      requires fd == c.t.fd && name == c.t.name && Busy(disk.fs, disk.history, c, d, WithReader(c, pos, reader))
      requires (reader.Some? ==> reader.value !in c.Writer(pos)) && name in temps.names
      modifies disk, temps
      ensures old(disk.trouble) <= disk.trouble && (name in temps.names ==> Unlinking in disk.trouble)
      ensures disk.smooth ==> name !in temps.names
      ensures Untouched(disk.fs, c.before, c.t, name in temps.names) && temps.names - {name} == old(temps.names) - {name}
      ensures Calm(disk.history, c.from, c.target, c.before.Shows(c.target)) && c.Valid()
    {
      hide *;
      NoReader(c, pos);
      ghost var all := WithReader(c, pos, reader);
      BusyParts(disk.fs, disk.history, c, d, all);
      ghost var fs, history := disk.fs, disk.history;
      var closed := disk.Close(fd);
      BusyStay(fs, history, c, d, all, disk.fs, all - {fd});
      if reader.Some? {
        fs, history := disk.fs, disk.history;
        BusyParts(fs, history, c, d, all - {fd});
        closed := disk.Close(reader.value);
        BusyStay(fs, history, c, d, all - {fd}, disk.fs, all - {fd} - {reader.value});
      }
      AllClosed(c, pos, reader);
      fs, history := disk.fs, disk.history;
      var gone := disk.Unlink(name);
      AfterUnlink(fs, history, c, d, disk.fs, gone);
      if gone != Refused {
        temps.Forget(name);
      }
    }

    static lemma {:induction false} AllClosed(c: Ctx, pos: nat, reader: Option<nat>)
      requires c.t.fd !in c.before.handles && (reader.Some? ==> reader.value !in c.Writer(pos))
      ensures reader.None? ==> WithReader(c, pos, reader) - {c.t.fd} == c.before.handles
      ensures reader.Some? ==> WithReader(c, pos, reader) - {c.t.fd} - {reader.value} == c.before.handles
    {
    }

    /** Removing the temporary name changes nothing for the target. */
    static lemma {:induction false} UnlinkedShows(fs: FileSystem, before: FileSystem, t: Temp, next: FileSystem, target: nat)
      requires fs.names == before.names[t.name := t.file] && target != t.name
      requires next == fs.(names := before.names)
      ensures next.Shows(target) == fs.Shows(target)
    {
    }

    static lemma {:induction false} AfterUnlink(fs: FileSystem, history: seq<FileSystem>, c: Ctx, d: Bytes, next: FileSystem, gone: Unlinked)
      requires Busy(fs, history, c, d, c.before.handles)
      requires next == if gone == Refused then fs else Renamed(fs, fs.names - {c.t.name})
      ensures Untouched(next, c.before, c.t, gone == Refused) && Calm(history + [next], c.from, c.target, c.before.Shows(c.target)) && c.Valid()
    {
      hide Calm;
      ScratchShows(fs, c.before, c.t, d, c.before.handles, c.target);
      if gone != Refused {
        assert next.names == c.before.names;
        assert next.dirs == fs.dirs;
        UnlinkedShows(fs, c.before, c.t, next, c.target);
      }
      CalmSnoc(history, c.from, c.target, c.before.Shows(c.target), next);
    }

    /**
     `run`: one outcome. With a result the target holds exactly the planned document, flushed before the replace, the
     layout and the line index describe it, and the only new descriptor is the one handed over. Without a replace the
     target shows what it showed in every state passed through, also after a crash, no descriptor is left open, and the
     temporary file is gone or its name is kept for the exit hook. Unless something went wrong the replace happens.
     */
    method Run(fin: Finishing) returns (out: Outcome, ghost temp: Option<Temp>, ghost settled: bool)
      requires Planned() && disk.fs.Valid() && layout.Valid() && layout.Runs() == [] && !committed
      modifies disk, temps, layout, this`cancelled, this`committed, this`trouble
      ensures layout.Valid()
      ensures old(trouble) <= trouble && old(disk.trouble) <= disk.trouble
      ensures !committed ==> Blamed(out, trouble, disk.trouble)
      ensures committed ==>
                trouble == old(trouble) && disk.trouble <= old(disk.trouble) + {Allocating, Touching, SyncingDirectory, Releasing}
      ensures committed && SyncingDirectory !in disk.trouble ==> settled
      ensures (old(cancelled) ==> cancelled) && (committed ==> !cancelled) && (out == Cancelled ==> cancelled && !committed)
      ensures smooth && disk.smooth && old(cancelled) ==> out == Cancelled
      ensures temp.Some? && temp.value.name in temps.names ==> Unlinking in disk.trouble && !disk.smooth
      ensures smooth && disk.smooth && !old(cancelled) ==> committed && settled
      ensures temp.None? ==>
                && !committed && Early(out) && disk.fs == old(disk.fs) && temps.names == old(temps.names)
                && Calm(disk.history, |old(disk.history)|, target, old(disk.fs).Shows(target))
      ensures temp.Some? ==> Ctx(old(disk.fs), temp.value, |old(disk.history)|, target).Valid()
                             && temps.names - {temp.value.name} == old(temps.names) - {temp.value.name}
      ensures temp.Some? && !committed ==>
                && Early(out) && Untouched(disk.fs, old(disk.fs), temp.value, temp.value.name in temps.names)
                && Calm(disk.history, |old(disk.history)|, target, old(disk.fs).Shows(target))
      ensures committed ==> temp.Some? && temp.value.name !in temps.names && (out.Saved? <==> !fin.report && !fin.adopt && !fin.build)
      ensures committed && out.Saved? ==>
                && out.result.reader !in old(disk.fs).handles && GoodResult(out.result)
                && Done(disk.fs, disk.history, Ctx(old(disk.fs), temp.value, |old(disk.history)|, target), doc,
                        old(disk.fs).handles[out.result.reader := Handle(temp.value.file, 0)], settled)
                && Consecutive(layout.Runs(), |doc|) && Rebase.TrueRuns(layout.Runs(), sources, doc)
      ensures committed && !out.Saved? ==>
                && out == Failed(Internal, !CommitLost(fin))
                && Done(disk.fs, disk.history, Ctx(old(disk.fs), temp.value, |old(disk.history)|, target), doc, old(disk.fs).handles, settled)
    {
      hide *;
      EarlyIs();
      temp, settled := None, false;
      NothingYet(disk.history);
      var suitable := CallOut();
      if !suitable {
        BlamedIs(trouble, disk.trouble);
        return Failed(Prepare, false), None, false;
      }
      ghost var before, record := disk.fs, disk.history;
      var t := disk.Mkstemp(target);
      if t.None? {
        CalmSnoc(record, |record|, target, before.Shows(target), disk.fs);
        BlamedIs(trouble, disk.trouble);
        return Failed(Prepare, false), None, false;
      }
      temp := t;
      temps.Add(t.value.name);
      ghost var c := Ctx(before, t.value, |record|, target);
      BusyStart(before, record, disk.fs, c);
      out, settled := Work(t.value.fd, t.value.name, fin, c);
    }

    /** What follows the creation of the temporary file. */
    method Work(fd: nat, name: nat, fin: Finishing, ghost c: Ctx) returns (out: Outcome, ghost settled: bool)
      requires Planned() && layout.Valid() && layout.Runs() == [] && !committed && fd == c.t.fd && name == c.t.name && target == c.target
      requires Busy(disk.fs, disk.history, c, [], c.Writer(0)) && name in temps.names
      modifies disk, temps, layout, this`cancelled, this`committed, this`trouble
      ensures layout.Valid() && c.Valid() && temps.names - {name} == old(temps.names) - {name}
      ensures old(trouble) <= trouble && old(disk.trouble) <= disk.trouble
      ensures !committed ==> Blamed(out, trouble, disk.trouble)
      ensures committed ==>
                trouble == old(trouble) && disk.trouble <= old(disk.trouble) + {Allocating, Touching, SyncingDirectory, Releasing}
      ensures committed && SyncingDirectory !in disk.trouble ==> settled
      ensures (old(cancelled) ==> cancelled) && (committed ==> !cancelled) && (out == Cancelled ==> cancelled && !committed)
      ensures smooth && disk.smooth && old(cancelled) ==> out == Cancelled
      ensures smooth && disk.smooth && !old(cancelled) ==> committed && settled
      ensures name in temps.names ==> Unlinking in disk.trouble && !disk.smooth
      ensures !committed ==>
                && Early(out) && Untouched(disk.fs, c.before, c.t, name in temps.names)
                && Calm(disk.history, c.from, target, c.before.Shows(target))
      ensures committed ==> name !in temps.names && (out.Saved? <==> !fin.report && !fin.adopt && !fin.build)
      ensures committed && out.Saved? ==>
                && out.result.reader !in c.before.handles && GoodResult(out.result)
                && Done(disk.fs, disk.history, c, doc, c.before.handles[out.result.reader := Handle(c.t.file, 0)], settled)
                && Consecutive(layout.Runs(), |doc|) && Rebase.TrueRuns(layout.Runs(), sources, doc)
      ensures committed && !out.Saved? ==>
                && out == Failed(Internal, !CommitLost(fin))
                && Done(disk.fs, disk.history, c, doc, c.before.handles, settled)
    {
      hide *;
      EarlyIs();
      BusyParts(disk.fs, disk.history, c, [], c.Writer(0));
      settled := false;
      ghost var d: Bytes, pos: nat;
      var stop, reader, sc, entries, longs;
      stop, reader, sc, entries, longs, d, pos := Fill(fd, name, c);
      if stop.Some? {
        ghost var calls := disk.trouble;
        Abandon(fd, name, reader, c, d, pos);
        BlamedStill(stop.value, trouble, calls, disk.trouble);
        return stop.value, false;
      }
      var renamed;
      out, renamed, settled := Commit(name, reader.value, sc, entries, longs, fin, c);
      if !renamed {
        Abandon(fd, name, reader, c, doc, |doc|);
        BlamedIs(trouble, disk.trouble);
        return;
      }
      NoReader(c, |doc|);
      CloseWriter(fd, c, reader.value, out.Saved?, settled);
      temps.Forget(name);
    }

    /** The `finally` behind a replace: only the writing descriptor is still to be closed. */
    method CloseWriter(fd: nat, ghost c: Ctx, ghost reader: nat, ghost saved: bool, ghost settled: bool)
      requires fd == c.t.fd && reader !in c.Writer(|doc|)
      requires Done(disk.fs, disk.history, c, doc, WithReader(c, |doc|, if saved then Some(reader) else None), settled)
      modifies disk
      ensures old(disk.trouble) <= disk.trouble <= old(disk.trouble) + {Releasing}
      ensures c.Valid() && reader !in c.before.handles
      ensures Done(disk.fs, disk.history, c, doc, if saved then c.before.handles[reader := Handle(c.t.file, 0)] else c.before.handles, settled)
    {
      hide *;
      ghost var all := WithReader(c, |doc|, if saved then Some(reader) else None);
      DoneParts(disk.fs, disk.history, c, doc, all, settled);
      ghost var fs, history := disk.fs, disk.history;
      var closed := disk.Close(fd);
      DoneStay(fs, history, c, doc, all, settled, disk.fs, all - {fd});
      DoneCtx(fs, history, c, doc, all, settled);
      WriterClosed(c, |doc|, reader);
    }

    static lemma {:induction false} DoneCtx(fs: FileSystem, history: seq<FileSystem>, c: Ctx, d: Bytes, handles: map<nat, Handle>, settled: bool)
      requires Done(fs, history, c, d, handles, settled)
      ensures c.Valid() && c.t.fd !in c.before.handles
    {
      hide Switches;
    }

    static lemma {:induction false} WriterClosed(c: Ctx, pos: nat, reader: nat)
      requires c.t.fd !in c.before.handles && reader !in c.Writer(pos)
      ensures reader !in c.before.handles && WithReader(c, pos, None) - {c.t.fd} == c.before.handles
      ensures WithReader(c, pos, Some(reader)) - {c.t.fd} == c.before.handles[reader := Handle(c.t.file, 0)]
    {
    }

    lemma {:induction false} NothingYet(history: seq<FileSystem>)
      ensures forall v :: Calm(history, |history|, target, v)
    {
    }
  }

  /** `_cleanup_temp_files` at exit: every name kept is tried once more; no other name is touched. */
  method CleanUp(temps: TempNames, disk: Disk)
    modifies temps, disk
    ensures temps.names == {}
    ensures forall n :: n in disk.fs.names ==> n in old(disk.fs).names && disk.fs.names[n] == old(disk.fs).names[n]
    ensures forall n :: n in old(disk.fs).names && n !in old(temps.names) ==> n in disk.fs.names
    ensures disk.fs.data == old(disk.fs).data && disk.fs.handles == old(disk.fs).handles
    ensures |disk.history| == |old(disk.history)| + |old(temps.names)|
    ensures forall n :: n in old(temps.names) && n in disk.fs.names ==> Unlinking in disk.trouble && !disk.smooth
  {
    var rest := temps.names;
    temps.names := {};
    while rest != {}
      invariant temps.names == {} && rest <= old(temps.names)
      invariant forall n :: n in disk.fs.names ==> n in old(disk.fs).names && disk.fs.names[n] == old(disk.fs).names[n]
      invariant forall n :: n in old(disk.fs).names && n !in old(temps.names) ==> n in disk.fs.names
      invariant disk.fs.data == old(disk.fs).data && disk.fs.handles == old(disk.fs).handles
      invariant |disk.history| + |rest| == |old(disk.history)| + |old(temps.names)|
      invariant forall n :: n in old(temps.names) && n !in rest && n in disk.fs.names ==> Unlinking in disk.trouble && !disk.smooth
      decreases |rest|
    {
      var name :| name in rest;
      rest := rest - {name};
      var gone := disk.Unlink(name);
    }
  }

  // ----- what a save means -------------------------------------------------------------------------------

  /**
   In every state a reader sees the old file or the whole new one and never goes back, and a crash leaves what it could
   have left before the save or the whole new file; once only the new file can be left it stays so.
   */
  lemma {:induction false} NeverTorn(history: seq<FileSystem>, from: nat, target: nat, v: View, d: Bytes, settled: bool, i: nat, j: nat)
    requires Switches(history, from, target, v, d, settled) && from <= i <= j < |history|
    ensures history[i].Shows(target).now == v.now || history[i].Shows(target).now == Some(d)
    ensures v.now != Some(d) && history[i].Shows(target).now == Some(d) ==> history[j].Shows(target).now == Some(d)
    ensures history[i].Shows(target).crash <= v.crash + {Some(d)}
    ensures v.crash != {Some(d)} && history[i].Shows(target).crash == {Some(d)} ==> history[j].Shows(target).crash == {Some(d)}
  {
    hide FileSystem.Shows;
    var at: nat, safe: nat :| SwitchesAt(history, from, at, safe, target, v, d) && (settled <==> safe < |history|);
    forall k | from <= k < |history|
      ensures k < at ==> history[k].Shows(target) == v
      ensures at <= k < safe ==> history[k].Shows(target) == After(v, d, false)
      ensures k >= safe ==> history[k].Shows(target) == After(v, d, true)
    {
      assert k < at ==> history[..at][k] == history[k];
      assert k < safe ==> history[..safe][k] == history[k];
    }
    assert v.crash + {Some(d)} == {Some(d)} ==> forall x :: x in v.crash ==> x == Some(d);
  }

  /**
   Behind the replace a crash is sure to leave the new file exactly when the directory was flushed, or when a crash
   before the save could have left nothing else.
   */
  lemma {:induction false} SureWhenSettled(history: seq<FileSystem>, from: nat, target: nat, v: View, d: Bytes, settled: bool)
    requires Switches(history, from, target, v, d, settled)
    ensures |history| > 0
    ensures history[|history| - 1].Shows(target).crash == {Some(d)} <==> settled || v.crash <= {Some(d)}
    ensures !settled ==> v.crash <= history[|history| - 1].Shows(target).crash
  {
    hide FileSystem.Shows;
    var at: nat, safe: nat :| SwitchesAt(history, from, at, safe, target, v, d) && (settled <==> safe < |history|);
    var last := |history| - 1;
    if settled {
      assert history[last].Shows(target) == After(v, d, true);
    } else {
      assert history[..safe][last] == history[last];
      assert history[last].Shows(target) == After(v, d, false);
      assert v.crash + {Some(d)} == {Some(d)} <==> v.crash <= {Some(d)};
    }
  }

  /** The layout of a table range denotes the bytes of that range: what a planner hands to the job. */
  lemma {:induction false} PlanOfPlaces(runs: seq<Run>, places: seq<Loc>, S: Sources, doc: Bytes, offset: nat, limit: nat)
    requires doc == BytesAt(places, S) && offset + limit <= |places| && RunsPlaces(runs) == places[offset..offset + limit]
    ensures offset + limit <= |doc| && BytesAt(RunsPlaces(runs), S) == doc[offset..offset + limit]
  {
    hide ByteAt;
    hide RunsPlaces;
  }

  /** The recorded runs cover the new file from its start to its end, and do not overlap. */
  lemma {:induction false} RunsCoverFile(runs: seq<Layout.Written>, n: nat, y: nat)
    requires Consecutive(runs, n) && y < n
    ensures exists k :: 0 <= k < |runs| && InRun(runs[k], y)
    ensures forall j, k :: 0 <= j < k < |runs| ==> runs[j].out + runs[j].b - runs[j].a <= runs[k].out
    decreases |runs|
  {
    RunsInOrder(runs, n);
    var last := |runs| - 1;
    var front := runs[..last];
    if y < runs[last].out {
      RunsCoverFile(front, runs[last].out, y);
      var k :| 0 <= k < |front| && InRun(front[k], y);
      assert InRun(runs[k], y);
    } else {
      assert InRun(runs[last], y);
    }
  }

  lemma {:induction false} RunsInOrder(runs: seq<Layout.Written>, n: nat)
    requires Consecutive(runs, n)
    ensures forall k :: 0 <= k < |runs| ==> runs[k].out + runs[k].b - runs[k].a <= n
    ensures forall j, k :: 0 <= j < k < |runs| ==> runs[j].out + runs[j].b - runs[j].a <= runs[k].out
    decreases |runs|
  {
    if runs != [] {
      var front := runs[..|runs| - 1];
      RunsInOrder(front, runs[|runs| - 1].out);
      assert forall k :: 0 <= k < |front| ==> front[k] == runs[k];
    }
  }

  predicate InRun(w: Layout.Written, y: int) {
    w.out <= y < w.out + w.b - w.a
  }

  /** The new file is in place, yet the failure does not say so: an error while closing the adopted source hides it. */
  predicate CommitLost(fin: Finishing) {
    !fin.report && !fin.adopt && fin.build && fin.close
  }

  /** What the planner of an unedited document hands out: that range of the original file. */
  function Unedited(offset: nat, limit: nat): seq<Run> {
    if limit == 0 then [] else [Run(0, offset, offset + limit)]
  }

  lemma {:induction false} UneditedIs(doc: Bytes, offset: nat, limit: nat)
    requires offset + limit <= |doc|
    ensures var S := map[0 := Source(doc, {}, {})];
            GoodRuns(Unedited(offset, limit), S) && BytesAt(RunsPlaces(Unedited(offset, limit)), S) == doc[offset..offset + limit]
  {
    hide RunsPlaces;
    hide BytesAt;
    NoRuns();
    if limit > 0 {
      RunsSnoc([], Run(0, offset, offset + limit));
      RunBytes(Run(0, offset, offset + limit), map[0 := Source(doc, {}, {})]);
      assert [] + [Run(0, offset, offset + limit)] == Unedited(offset, limit);
      assert [] + RunPlaces(Run(0, offset, offset + limit)) == RunPlaces(Run(0, offset, offset + limit));
    }
  }

  /**
   Such a run, for any document over any old file: every call on the disk succeeds, nobody cancels, building the line
   index fails and so does closing the adopted source. The target durably holds the new file, the job says that it
   committed, and the failure that is reported says that it did not.
   */
  method CommitLostRun(doc: Bytes, old_: Bytes) returns (job: SaveJob, out: Outcome)
    ensures job.committed && out == Failed(Internal, false)
    ensures job.disk.fs.Shows(job.target) == View(Some(doc), {Some(doc)})
  {
    hide *;
    var fs := OneFile(old_);
    var disk := new Disk(fs, true);
    var temps := new TempNames();
    var settings := Settings(1, 1, true, true, 1, 1, 1, 1, 1, 1, 1);
    job := new SaveJob(disk, temps, 0, settings, doc, map[0 := Source(doc, {}, {})], Unedited, true);
    UneditedPlanned(job);
    var fin := Finishing(false, false, true, true);
    ghost var temp, settled;
    out, temp, settled := job.Run(fin);
    LostHere(fin);
    ghost var c := Ctx(fs, temp.value, 0, 0);
    DoneShows(disk.fs, disk.history, c, doc, fs.handles);
  }

  lemma {:induction false} LostHere(fin: Finishing)
    requires fin == Finishing(false, false, true, true)
    ensures CommitLost(fin) && fin.build
  {
  }

  /** A durable directory with one file, named 0. */
  function OneFile(d: Bytes): (fs: FileSystem)
    ensures fs.Valid()
  {
    FileSystem(map[0 := 0], {map[0 := 0]}, map[0 := d], map[0 := d], map[])
  }

  lemma {:induction false} UneditedPlanned(job: SaveJob)
    requires job.settings == Settings(1, 1, true, true, 1, 1, 1, 1, 1, 1, 1) && job.plan == Unedited
    requires job.sources == map[0 := Source(job.doc, {}, {})]
    ensures job.Planned()
  {
    hide GoodRuns;
    hide RunsPlaces;
    hide BytesAt;
    forall offset: nat, limit: nat | offset + limit <= |job.doc|
      ensures job.Denotes(job.plan(offset, limit), offset, limit)
    {
      UneditedIs(job.doc, offset, limit);
    }
  }

  /** Behind a flushed replace the target durably holds the document. */
  lemma {:induction false} DoneShows(fs: FileSystem, history: seq<FileSystem>, c: Ctx, d: Bytes, handles: map<nat, Handle>)
    requires Done(fs, history, c, d, handles, true)
    ensures fs.Shows(c.target) == View(Some(d), {Some(d)})
  {
    hide Switches;
    hide FileSystem.Shows;
    hide FileSystem.Valid;
    PlacedShows(fs, c.before, c.t, c.target, d, handles, true);
  }
}
