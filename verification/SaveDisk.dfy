/**
 The file operations of a save (`SaveIo` in `save.py`) over a small file system. Every call may fail. What a crash
 would leave on the disk is kept apart from what a reader sees now, and every state passed through is recorded.
 */
module SaveDisk {
  import opened Rows

  /** An open descriptor: its file and the offset of the next write. */
  datatype Handle = Handle(file: nat, pos: nat)

  /** What a name shows: to a reader now, and everything that a crash now may leave of it. */
  datatype View = View(now: Option<Bytes>, crash: set<Option<Bytes>>)

  /**
   Directory entries, the directories a crash may leave, contents, contents that would survive a crash, and open
   descriptors. A change of the directory is seen at once but is not durable before the directory is flushed: until
   then a crash leaves the directory of this moment or of any earlier one.
   */
  datatype FileSystem = FileSystem(names: map<nat, nat>, dirs: set<map<nat, nat>>, data: map<nat, Bytes>, flushed: map<nat, Bytes>,
                                   handles: map<nat, Handle>) {
    ghost predicate Valid() {
      && data.Keys == flushed.Keys && names in dirs
      && (forall dir, n :: dir in dirs && n in dir ==> dir[n] in data)
      && (forall h :: h in handles ==> handles[h].file in data)
    }

    function Shows(n: nat): View {
      View(Held(names, data, n), set dir | dir in dirs :: Held(dir, flushed, n))
    }
  }

  /** What the name `n` of a directory holds. */
  function Held(dir: map<nat, nat>, contents: map<nat, Bytes>, n: nat): Option<Bytes> {
    if n in dir && dir[n] in contents then Some(contents[dir[n]]) else None
  }

  /** A temporary file: its name, its file and the descriptor it was created with. */
  datatype Temp = Temp(name: nat, file: nat, fd: nat)

  datatype Call =
    | Creating | Allocating | Putting | Syncing | Touching | SyncingDirectory | Opening | Renaming | Unlinking | Releasing

  datatype Errno = Unsupported | Other

  datatype Unlinked = Removed | Missing | Refused

  ghost predicate Fresh(t: Temp, fs: FileSystem) {
    t.name !in fs.names && t.file !in fs.data && t.file !in fs.flushed && t.fd !in fs.handles
  }

  /** The directory changed: a crash may leave it as it is now, or as it could before. */
  function Renamed(fs: FileSystem, names: map<nat, nat>): FileSystem {
    fs.(names := names, dirs := fs.dirs + {names})
  }

  function Zeros(n: nat): Bytes {
    seq(n, _ => 0)
  }

  /** `d` with `w` written at `pos`. */
  function Overwrite(d: Bytes, pos: nat, w: Bytes): Bytes {
    var low := if pos <= |d| then d[..pos] else d + Zeros(pos - |d|);
    low + w + if pos + |w| <= |d| then d[pos + |w|..] else []
  }

  function Grown(d: Bytes, n: nat): Bytes {
    if |d| < n then d + Zeros(n - |d|) else d
  }

  /** A number that is not in use. */
  method Unused(s: set<nat>) returns (k: nat)
    ensures k !in s
  {
    var rest := s;
    k := 0;
    while rest != {}
      invariant rest <= s && forall x :: x in s && x !in rest ==> x < k
      decreases |rest|
    {
      var x :| x in rest;
      rest := rest - {x};
      k := if x < k then k else x + 1;
    }
  }

  class Disk {
    /** No call fails; a write may still take only a part. */
    const smooth: bool
    var fs: FileSystem
    ghost var history: seq<FileSystem>
    /** The calls of which one has failed. */
    ghost var trouble: set<Call>

    constructor (fs: FileSystem, smooth: bool)
      ensures this.fs == fs && this.smooth == smooth && history == [] && trouble == {}
    {
      this.fs, this.smooth := fs, smooth;
      history, trouble := [], {};
    }

    /** `mkstemp`: a new empty file under a name that nobody uses. */
    method Mkstemp(target: nat) returns (t: Option<Temp>)
      modifies this
      ensures t.None? ==> fs == old(fs) && !smooth
      ensures t.Some? ==>
                var u := t.value;
                && Fresh(u, old(fs)) && u.name != target
                && fs == FileSystem(old(fs).names[u.name := u.file], old(fs).dirs + {old(fs).names[u.name := u.file]},
                                    old(fs).data[u.file := []], old(fs).flushed[u.file := []], old(fs).handles[u.fd := Handle(u.file, 0)])
      ensures history == old(history) + [fs] && trouble == (if t.None? then old(trouble) + {Creating} else old(trouble))
    {
      var ok: bool := *;
      var name: nat, file: nat, fd: nat := *, *, *;
      if smooth {
        name := Unused(fs.names.Keys + {target});
        file := Unused(fs.data.Keys + fs.flushed.Keys);
        fd := Unused(fs.handles.Keys);
        ok := true;
      }
      if ok && name !in fs.names && file !in fs.data && file !in fs.flushed && fd !in fs.handles && name != target {
        var names := fs.names[name := file];
        fs := FileSystem(names, fs.dirs + {names}, fs.data[file := []], fs.flushed[file := []], fs.handles[fd := Handle(file, 0)]);
        t := Some(Temp(name, file, fd));
      } else {
        t := None;
        trouble := trouble + {Creating};
      }
      history := history + [fs];
    }

    /** `posix_fallocate`: the file grows to `total` bytes; a failed call may have grown it part of the way. */
    method Fallocate(fd: nat, total: nat) returns (e: Option<Errno>, ghost n: nat)
      requires fd in fs.handles && fs.handles[fd].file in fs.data
      modifies this
      ensures n <= total && (e.None? ==> n == total) && (smooth ==> e.None?)
      ensures Rewrote(old(fs), fs, old(fs).handles[fd].file, Grown(old(fs).data[old(fs).handles[fd].file], n), old(fs).handles)
      ensures history == old(history) + [fs] && trouble == (if e.Some? then old(trouble) + {Allocating} else old(trouble))
    {
      var file := fs.handles[fd].file;
      var failed: bool := *;
      failed := failed && !smooth;
      var part: int := *;
      var grown: nat := if failed && 0 <= part <= total then part else total;
      var errno: Errno := *;
      e := if failed then Some(errno) else None;
      n := grown;
      trouble := if failed then trouble + {Allocating} else trouble;
      var kept: Bytes := *;
      fs := fs.(data := fs.data[file := Grown(fs.data[file], grown)], flushed := fs.flushed[file := kept]);
      history := history + [fs];
    }

    /** `write`: some of the bytes at the offset of the descriptor, perhaps none, or an error and none. */
    method Write(fd: nat, view: Bytes) returns (count: Option<int>)
      requires fd in fs.handles && fs.handles[fd].file in fs.data
      modifies this
      ensures count.Some? ==> count.value <= |view|
      ensures smooth && view != [] ==> count.Some? && count.value > 0
      ensures var h := old(fs).handles[fd];
              var k := if count.Some? && count.value > 0 then count.value else 0;
              Rewrote(old(fs), fs, h.file, Overwrite(old(fs).data[h.file], h.pos, view[..k]), old(fs).handles[fd := Handle(h.file, h.pos + k)])
      ensures history == old(history) + [fs] && trouble == (if count.None? || count.value <= 0 then old(trouble) + {Putting} else old(trouble))
    {
      var h := fs.handles[fd];
      var failed: bool, n: int := *, *;
      n := if n <= |view| then n else |view|;
      if smooth {
        failed, n := false, if n > 0 || |view| == 0 then n else 1;
      }
      count := if failed then None else Some(n);
      trouble := if failed || n <= 0 then trouble + {Putting} else trouble;
      var k := if !failed && n > 0 then n else 0;
      var kept: Bytes := *;
      fs := fs.(data := fs.data[h.file := Overwrite(fs.data[h.file], h.pos, view[..k])], flushed := fs.flushed[h.file := kept],
                handles := fs.handles[fd := Handle(h.file, h.pos + k)]);
      history := history + [fs];
    }

    /** `fsync`: afterwards a crash keeps what the file holds; after an error nothing is known. */
    method Fsync(fd: nat) returns (ok: bool)
      requires fd in fs.handles && fs.handles[fd].file in fs.data
      modifies this
      ensures Rewrote(old(fs), fs, old(fs).handles[fd].file, old(fs).data[old(fs).handles[fd].file], old(fs).handles)
      ensures ok ==> fs.flushed[old(fs).handles[fd].file] == old(fs).data[old(fs).handles[fd].file]
      ensures smooth ==> ok
      ensures history == old(history) + [fs] && trouble == (if !ok then old(trouble) + {Syncing} else old(trouble))
    {
      var file := fs.handles[fd].file;
      var kept: Bytes := *;
      ok := *;
      ok := ok || smooth;
      trouble := if !ok then trouble + {Syncing} else trouble;
      assert fs.data[file := fs.data[file]] == fs.data;
      fs := fs.(flushed := fs.flushed[file := if ok then fs.data[file] else kept]);
      history := history + [fs];
    }

    /** `fchmod` and `fstat` change nothing that is modelled. */
    method Touch() returns (e: Option<Errno>)
      modifies this
      ensures smooth ==> e.None?
      ensures fs == old(fs) && history == old(history) + [fs] && trouble == (if e.Some? then old(trouble) + {Touching} else old(trouble))
    {
      var failed: bool, errno: Errno := *, *;
      failed := failed && !smooth;
      trouble := if failed then trouble + {Touching} else trouble;
      e := if failed then Some(errno) else None;
      history := history + [fs];
    }

    /** `fsync_dir`: the directory of this moment is durable. After an error a crash may leave what it could leave before. */
    method FsyncDir() returns (ok: bool)
      modifies this
      ensures smooth ==> ok
      ensures fs == old(fs).(dirs := if ok then {old(fs).names} else old(fs).dirs)
      ensures history == old(history) + [fs] && trouble == (if !ok then old(trouble) + {SyncingDirectory} else old(trouble))
    {
      ok := *;
      ok := ok || smooth;
      trouble := if !ok then trouble + {SyncingDirectory} else trouble;
      if ok {
        fs := fs.(dirs := {fs.names});
      }
      history := history + [fs];
    }

    /** `open` for reading: a new descriptor. */
    method OpenRo(name: nat) returns (fd: Option<nat>)
      modifies this
      ensures fd.None? ==> fs == old(fs) && !(smooth && name in fs.names)
      ensures fd.Some? ==> name in fs.names && fd.value !in old(fs).handles
                           && fs == old(fs).(handles := old(fs).handles[fd.value := Handle(fs.names[name], 0)])
      ensures history == old(history) + [fs] && trouble == (if fd.None? then old(trouble) + {Opening} else old(trouble))
    {
      var ok: bool, h: nat := *, *;
      if smooth {
        h := Unused(fs.handles.Keys);
        ok := true;
      }
      if ok && name in fs.names && h !in fs.handles {
        fs := fs.(handles := fs.handles[h := Handle(fs.names[name], 0)]);
        fd := Some(h);
      } else {
        fd := None;
        trouble := trouble + {Opening};
      }
      history := history + [fs];
    }

    /** `replace`: for a reader the target becomes the file in one step, and the old name is gone; a crash may undo it. */
    method Replace(name: nat, target: nat) returns (ok: bool)
      requires name != target
      modifies this
      ensures !ok ==> fs == old(fs) && !(smooth && name in fs.names)
      ensures ok ==> name in old(fs).names && fs == Renamed(old(fs), (old(fs).names - {name})[target := old(fs).names[name]])
      ensures history == old(history) + [fs] && trouble == (if !ok then old(trouble) + {Renaming} else old(trouble))
    {
      ok := *;
      ok := (ok || smooth) && name in fs.names;
      if ok {
        fs := Renamed(fs, (fs.names - {name})[target := fs.names[name]]);
      }
      trouble := if !ok then trouble + {Renaming} else trouble;
      history := history + [fs];
    }

    /** `unlink`: somebody else may have removed the name already. */
    method Unlink(name: nat) returns (r: Unlinked)
      modifies this
      ensures smooth ==> r != Refused
      ensures fs == if r == Refused then old(fs) else Renamed(old(fs), old(fs).names - {name})
      ensures history == old(history) + [fs] && trouble == (if r == Refused then old(trouble) + {Unlinking} else old(trouble))
    {
      r := *;
      r := if smooth && r == Refused then Missing else r;
      trouble := if r == Refused then trouble + {Unlinking} else trouble;
      if r != Refused {
        fs := Renamed(fs, fs.names - {name});
      }
      history := history + [fs];
    }

    /** `close`: the descriptor is released even when an error is reported. */
    method Close(fd: nat) returns (ok: bool)
      modifies this
      ensures smooth ==> ok
      ensures fs == old(fs).(handles := old(fs).handles - {fd})
      ensures history == old(history) + [fs] && trouble == (if !ok then old(trouble) + {Releasing} else old(trouble))
    {
      ok := *;
      ok := ok || smooth;
      trouble := if !ok then trouble + {Releasing} else trouble;
      fs := fs.(handles := fs.handles - {fd});
      history := history + [fs];
    }
  }

  /** Only `file` was rewritten to `d`; what a crash would leave of it is unknown. */
  ghost predicate Rewrote(a: FileSystem, b: FileSystem, file: nat, d: Bytes, handles: map<nat, Handle>) {
    && b.names == a.names && b.dirs == a.dirs && b.data == a.data[file := d] && b.handles == handles
    && file in b.flushed && b.flushed == a.flushed[file := b.flushed[file]]
  }
}
