/**
 Readers and closers of one descriptor (`byte_source.py`), as threads that take turns. A step is what happens under
 the lock of the source, or one system call outside it; the turns come in any order.
 */
module CloseProtocol {
  /** Where a thread is: outside, in a counted read, in an uncounted check, in the first close, in a later close. */
  datatype Place = Outside | Reading | Checking | Closing | Following

  datatype Event =
    | ReadBegins | ReadRefused | Pread | ReadEnds
    | CheckBegins | CheckRefused | Fstat | CheckEnds
    | CloseBegins | OsClose
    | CloseFollows | FollowerReturns

  datatype Move = Move(thread: nat, event: Event)

  datatype State = State(places: seq<Place>, inflight: int, closing: bool, closed: bool, open: bool) {
    function At(t: nat, p: Place): State
      requires t < |places|
    {
      this.(places := places[t := p])
    }
  }

  predicate Init(s: State) {
    s.inflight == 0 && !s.closing && !s.closed && s.open && forall t :: 0 <= t < |s.places| ==> s.places[t] == Outside
  }

  /** One step of one thread. */
  predicate Step(s: State, m: Move, n: State) {
    m.thread < |s.places| &&
    var t, p := m.thread, s.places[m.thread];
    match m.event
    case ReadBegins => p == Outside && !s.closing && n == s.At(t, Reading).(inflight := s.inflight + 1)
    case ReadRefused => p == Outside && s.closing && n == s
    case Pread => p == Reading && n == s
    case ReadEnds => p == Reading && n == s.At(t, Outside).(inflight := s.inflight - 1)
    case CheckBegins => p == Outside && !s.closing && n == s.At(t, Checking)
    case CheckRefused => p == Outside && s.closing && n == s
    case Fstat => p == Checking && n == s
    case CheckEnds => p == Checking && n == s.At(t, Outside)
    case CloseBegins => p == Outside && !s.closing && n == s.At(t, Closing).(closing := true)
    case OsClose => p == Closing && s.inflight == 0 && n == s.At(t, Outside).(open := false, closed := true)
    case CloseFollows => p == Outside && s.closing && n == s.At(t, Following)
    case FollowerReturns => p == Following && s.closed && n == s.At(t, Outside)
  }

  /** How many threads are at `p`. */
  function HowMany(places: seq<Place>, p: Place): nat {
    if places == [] then 0 else HowMany(places[..|places| - 1], p) + if places[|places| - 1] == p then 1 else 0
  }

  /** What every step keeps. */
  ghost predicate Inv(s: State) {
    && s.inflight == HowMany(s.places, Reading)
    && (s.closed <==> !s.open)
    && (s.closed ==> s.closing && s.inflight == 0)
    && HowMany(s.places, Closing) == (if s.closing && !s.closed then 1 else 0)
    && (!s.closing ==> HowMany(s.places, Following) == 0)
  }

  /** A run: states and the moves between them. */
  ghost predicate Run(states: seq<State>, moves: seq<Move>) {
    && |states| == |moves| + 1 && Init(states[0])
    && forall i :: 0 <= i < |moves| ==> Step(states[i], moves[i], states[i + 1])
  }

  lemma {:induction false} Moved(places: seq<Place>, t: nat, p: Place, q: Place)
    requires t < |places|
    ensures HowMany(places[t := p], q) == HowMany(places, q) - (if places[t] == q then 1 else 0) + (if p == q then 1 else 0)
    decreases |places|
  {
    var last := |places| - 1;
    if t < last {
      Moved(places[..last], t, p, q);
      assert places[t := p][..last] == places[..last][t := p];
    } else {
      assert places[t := p][..last] == places[..last];
    }
  }

  lemma {:induction false} NobodyAt(places: seq<Place>, p: Place)
    requires forall t :: 0 <= t < |places| ==> places[t] != p
    ensures HowMany(places, p) == 0
    decreases |places|
  {
    if places != [] {
      NobodyAt(places[..|places| - 1], p);
    }
  }

  lemma {:induction false} SomebodyAt(places: seq<Place>, p: Place) returns (t: nat)
    requires HowMany(places, p) > 0
    ensures t < |places| && places[t] == p
    decreases |places|
  {
    var last := |places| - 1;
    if places[last] == p {
      t := last;
    } else {
      t := SomebodyAt(places[..last], p);
    }
  }

  lemma {:induction false} InvInit(s: State)
    requires Init(s)
    ensures Inv(s)
  {
    NobodyAt(s.places, Reading);
    NobodyAt(s.places, Closing);
    NobodyAt(s.places, Following);
  }

  lemma {:induction false} InvStep(s: State, m: Move, n: State)
    requires Inv(s) && Step(s, m, n)
    ensures Inv(n)
  {
    hide HowMany;
    var t := m.thread;
    var p := n.places[t];
    assert n.places == s.places[t := p];
    Moved(s.places, t, p, Reading);
    Moved(s.places, t, p, Closing);
    Moved(s.places, t, p, Following);
  }

  /** The invariant holds in every reachable state. */
  lemma {:induction false} InvRun(states: seq<State>, moves: seq<Move>, i: nat)
    requires Run(states, moves) && i < |states|
    ensures Inv(states[i])
  {
    hide Inv;
    hide Step;
    hide Init;
    if i == 0 {
      InvInit(states[0]);
    } else {
      InvRun(states, moves, i - 1);
      InvStep(states[i - 1], moves[i - 1], states[i]);
    }
  }

  /** Once closed, closed for good; once closing, closing for good. */
  lemma {:induction false} StaysClosed(states: seq<State>, moves: seq<Move>, i: nat, j: nat)
    requires Run(states, moves) && i <= j < |states|
    ensures states[i].closed ==> states[j].closed
    ensures states[i].closing ==> states[j].closing
    decreases j - i
  {
    if i < j {
      StaysClosed(states, moves, i, j - 1);
      assert Step(states[j - 1], moves[j - 1], states[j]);
    }
  }

  lemma {:induction false} SomeReader(places: seq<Place>, t: nat, p: Place)
    requires t < |places| && places[t] == p
    ensures HowMany(places, p) > 0
    decreases |places|
  {
    if t < |places| - 1 {
      SomeReader(places[..|places| - 1], t, p);
    }
  }

  /** A read that has begun keeps the descriptor open until it ends. */
  lemma {:induction false} OpenWhileReading(states: seq<State>, moves: seq<Move>, i: nat)
    requires Run(states, moves) && i < |moves| && moves[i].event == Pread
    ensures states[i].open && !states[i].closed
  {
    hide HowMany;
    InvRun(states, moves, i);
    assert Step(states[i], moves[i], states[i + 1]);
    SomeReader(states[i].places, moves[i].thread, Reading);
  }

  /** After the descriptor was closed nothing reads from it, no read begins, and it is not closed again. */
  lemma {:induction false} NothingAfterClose(states: seq<State>, moves: seq<Move>, i: nat, j: nat)
    requires Run(states, moves) && i < j < |moves| && moves[i].event == OsClose
    ensures moves[j].event != Pread && moves[j].event != ReadBegins && moves[j].event != OsClose
  {
    hide HowMany;
    assert Step(states[i], moves[i], states[i + 1]);
    StaysClosed(states, moves, i + 1, j);
    InvRun(states, moves, j);
    assert Step(states[j], moves[j], states[j + 1]);
    if moves[j].event == OsClose || moves[j].event == Pread {
      SomeReader(states[j].places, moves[j].thread, states[j].places[moves[j].thread]);
    }
  }

  /** The descriptor is closed only when every read that had begun has ended. */
  lemma {:induction false} NoReaderAtClose(states: seq<State>, moves: seq<Move>, i: nat, t: nat)
    requires Run(states, moves) && i < |moves| && moves[i].event == OsClose && t < |states[i].places|
    ensures states[i].places[t] != Reading
  {
    hide HowMany;
    InvRun(states, moves, i);
    assert Step(states[i], moves[i], states[i + 1]);
    if states[i].places[t] == Reading {
      SomeReader(states[i].places, t, Reading);
    }
  }

  /** Who is closed was closed by an earlier step. */
  lemma {:induction false} ClosedBy(states: seq<State>, moves: seq<Move>, j: nat) returns (i: nat)
    requires Run(states, moves) && j < |states| && states[j].closed
    ensures i < j && moves[i].event == OsClose
  {
    assert j > 0;
    assert Step(states[j - 1], moves[j - 1], states[j]);
    if states[j - 1].closed {
      i := ClosedBy(states, moves, j - 1);
    } else {
      i := j - 1;
    }
  }

  /** A later close returns only after the first one closed the descriptor. */
  lemma {:induction false} FollowerWaits(states: seq<State>, moves: seq<Move>, j: nat) returns (i: nat)
    requires Run(states, moves) && j < |moves| && moves[j].event == FollowerReturns
    ensures i < j && moves[i].event == OsClose
  {
    assert Step(states[j], moves[j], states[j + 1]);
    i := ClosedBy(states, moves, j);
  }

  /** From the moment a close begins every new read is refused. */
  lemma {:induction false} RefusedWhileClosing(states: seq<State>, moves: seq<Move>, i: nat, j: nat)
    requires Run(states, moves) && i < j < |moves| && moves[i].event == CloseBegins
    ensures moves[j].event != ReadBegins && moves[j].event != CheckBegins && moves[j].event != CloseBegins
  {
    assert Step(states[i], moves[i], states[i + 1]);
    StaysClosed(states, moves, i + 1, j);
    assert Step(states[j], moves[j], states[j + 1]);
  }

  /** No deadlock: a close that has begun can go on as soon as the reads in flight have ended, and those always can. */
  lemma {:induction false} CloseGoesOn(states: seq<State>, moves: seq<Move>, i: nat) returns (m: Move, n: State)
    requires Run(states, moves) && i < |states| && states[i].closing && !states[i].closed
    ensures Step(states[i], m, n)
    ensures m.event == OsClose || m.event == ReadEnds
    ensures m.event == ReadEnds ==> n.inflight == states[i].inflight - 1 >= 0
    ensures m.event == OsClose <==> states[i].inflight == 0
  {
    InvRun(states, moves, i);
    var s := states[i];
    if s.inflight == 0 {
      var t := SomebodyAt(s.places, Closing);
      m := Move(t, OsClose);
      n := s.At(t, Outside).(open := false, closed := true);
    } else {
      var t := SomebodyAt(s.places, Reading);
      m := Move(t, ReadEnds);
      n := s.At(t, Outside).(inflight := s.inflight - 1);
    }
  }

  lemma {:induction false} NotClosing(states: seq<State>, moves: seq<Move>, i: nat)
    requires Run(states, moves) && i < |states| && forall j :: 0 <= j < i ==> moves[j].event != CloseBegins
    ensures !states[i].closing
  {
    if i > 0 {
      NotClosing(states, moves, i - 1);
      assert Step(states[i - 1], moves[i - 1], states[i]);
    }
  }

  /** As long as no close has begun, every thread that is outside can begin a read or a check, and none can be refused. */
  lemma {:induction false} ReadCanBegin(states: seq<State>, moves: seq<Move>, i: nat, t: nat) returns (n: State, c: State)
    requires Run(states, moves) && i < |states| && t < |states[i].places| && states[i].places[t] == Outside
    requires forall j :: 0 <= j < i ==> moves[j].event != CloseBegins
    ensures Step(states[i], Move(t, ReadBegins), n) && n.inflight == states[i].inflight + 1
    ensures Step(states[i], Move(t, CheckBegins), c)
    ensures forall m: State :: !Step(states[i], Move(t, ReadRefused), m) && !Step(states[i], Move(t, CheckRefused), m)
  {
    NotClosing(states, moves, i);
    n := states[i].At(t, Reading).(inflight := states[i].inflight + 1);
    c := states[i].At(t, Checking);
  }

  /** Who is closing began to close in an earlier step. */
  lemma {:induction false} ClosingBy(states: seq<State>, moves: seq<Move>, j: nat) returns (i: nat)
    requires Run(states, moves) && j < |states| && states[j].closing
    ensures i < j && moves[i].event == CloseBegins
  {
    assert j > 0;
    assert Step(states[j - 1], moves[j - 1], states[j]);
    if states[j - 1].closing {
      i := ClosingBy(states, moves, j - 1);
    } else {
      i := j - 1;
    }
  }

  /** Whoever is refused, or has to follow another close, finds that a close began before. */
  lemma {:induction false} RefusalMeansClosing(states: seq<State>, moves: seq<Move>, i: nat) returns (j: nat)
    requires Run(states, moves) && i < |moves|
    requires moves[i].event == ReadRefused || moves[i].event == CheckRefused || moves[i].event == CloseFollows
    ensures j < i && moves[j].event == CloseBegins
  {
    assert Step(states[i], moves[i], states[i + 1]);
    j := ClosingBy(states, moves, i);
  }

  /** Nobody is stuck: a read or a check can end at any time, and a later close returns once the descriptor is closed. */
  lemma {:induction false} EveryoneGoesOn(states: seq<State>, moves: seq<Move>, i: nat, t: nat) returns (m: Move, n: State)
    requires Run(states, moves) && i < |states| && t < |states[i].places| && states[i].places[t] != Outside
    requires states[i].places[t] == Following ==> exists j :: 0 <= j < i && moves[j].event == OsClose
    requires states[i].places[t] == Closing ==> states[i].inflight == 0
    ensures Step(states[i], m, n) && m.thread == t && n.places[t] == Outside
  {
    var s := states[i];
    match s.places[t] {
      case Reading =>
        m, n := Move(t, ReadEnds), s.At(t, Outside).(inflight := s.inflight - 1);
      case Checking =>
        m, n := Move(t, CheckEnds), s.At(t, Outside);
      case Closing =>
        m, n := Move(t, OsClose), s.At(t, Outside).(open := false, closed := true);
      case Following =>
        var j :| 0 <= j < i && moves[j].event == OsClose;
        assert Step(states[j], moves[j], states[j + 1]);
        StaysClosed(states, moves, j + 1, i);
        m, n := Move(t, FollowerReturns), s.At(t, Outside);
    }
  }

  /** A check is not counted: here it looks at the descriptor after that was closed. */
  lemma {:induction false} CheckAfterClose() returns (states: seq<State>, moves: seq<Move>)
    ensures Run(states, moves) && |moves| == 4
    ensures moves[2].event == OsClose && moves[3].event == Fstat && !states[3].open
  {
    var a := State([Outside, Outside], 0, false, false, true);
    var b := a.At(0, Checking);
    var c := b.At(1, Closing).(closing := true);
    var d := c.At(1, Outside).(open := false, closed := true);
    states := [a, b, c, d, d];
    moves := [Move(0, CheckBegins), Move(1, CloseBegins), Move(1, OsClose), Move(0, Fstat)];
  }
}
