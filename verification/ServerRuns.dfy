/** Every interleaving of the main, I/O and window threads. Taking the lock, the body of a locked
    region, and releasing the lock are separate steps. */
module ServerRuns {
  import opened Options
  import opened Sequences
  import opened ServerSession
  import opened Widths

  datatype Region = Open | Prepare | Handle | Close
  datatype Phase = Waiting | Inside | Leaving
  datatype IoPc = NoIo | Accepting | LoopTest | Selecting | At(region: Region, phase: Phase) | IoExited
  datatype WindowPc = NoWindow | WindowIdle | Notifying(phase: Phase) | WindowExited
  datatype MainPc = Down | StartingWindow | StartingIo | Up | StoppingWindow | StoppingIo | Joined

  // The shared globals, the three program counters and the I/O thread's locals.
  datatype State = State(mutexAlive: bool, holder: Holder, ss: Option<nat>, started: bool, sessions: nat,
                         main: MainPc, window: WindowPc, io: IoPc, isOk: bool, timeMark: uint64, wantWrite: bool)

  const Initial := State(false, Nobody, None, false, 0, Down, NoWindow, NoIo, true, 0, false)

  datatype Action =
    | InitMutex                                                 // Srv_Start, then Srv_Stop
    | WindowRuns                                                // the window thread handles WM_CREATE
    | WindowStarted(ok: bool)
    | StartIo
    | AskWindowToClose
    | JoinWindow
    | JoinIo
    | UnInitMutex
    | WindowCloses                                              // window thread
    | WindowNotified
    | WindowLocks
    | WindowBody(isClip: bool, entered: bool, ok: bool)
    | WindowUnlocks
    | Accept(got: bool, now: uint64)                            // I/O thread
    | IoLocks
    | IoBody(has: bool, r: Ready)
    | IoUnlocks
    | IoTests
    | IoSelects

  predicate Enabled(s: State, a: Action) {
    match a
    case InitMutex => s.main == Down
    case WindowRuns => s.main == StartingWindow && s.window == NoWindow
    case WindowStarted(ok) => s.main == StartingWindow && (ok <==> s.window != NoWindow)
    case StartIo => s.main == StartingIo
    case AskWindowToClose => s.main == Up
    case JoinWindow => s.main == StoppingWindow && s.window == WindowExited
    case JoinIo => s.main == StoppingIo && s.io == IoExited
    case UnInitMutex => s.main == Joined
    case WindowCloses => s.window == WindowIdle && s.main == StoppingWindow
    case WindowNotified => s.window == WindowIdle
    case WindowLocks => s.window == Notifying(Waiting) && s.holder == Nobody
    case WindowBody(_, _, _) => s.window == Notifying(Inside)
    case WindowUnlocks => s.window == Notifying(Leaving)
    case Accept(_, _) => s.io == Accepting
    case IoLocks => s.io.At? && s.io.phase == Waiting && s.holder == Nobody
    case IoBody(_, _) => s.io.At? && s.io.phase == Inside
    case IoUnlocks => s.io.At? && s.io.phase == Leaving
    case IoTests => s.io == LoopTest
    case IoSelects => s.io == Selecting
  }

  function IoBodyStep(s: State, has: bool, r: Ready): (State, seq<Call>)
    requires s.io.At?
  {
    var left := s.(io := At(s.io.region, Leaving));
    match s.io.region
    case Open => (left.(ss := Some(s.sessions), sessions := s.sessions + 1), [Call(OnClientSession, Some(s.sessions))])
    case Prepare => (left.(wantWrite := has), PrepareCalls(s.ss, has))
    case Handle =>
      var h := HandleRound(s.ss, s.timeMark, s.wantWrite, r);
      (left.(isOk := h.isOk, timeMark := h.timeMark), h.calls)
    case Close => (left.(ss := None), [Call(CloseClientSession, s.ss)])
  }

  function IoUnlockStep(s: State): State
    requires s.io.At?
  {
    s.(holder := Nobody, io := match s.io.region
                               case Open => LoopTest
                               case Prepare => Selecting
                               case Handle => LoopTest
                               case Close => Accepting)
  }

  function Step(s: State, a: Action): (State, seq<Call>)
    requires Enabled(s, a)
  {
    match a
    case InitMutex => (s.(mutexAlive := true, ss := None, main := StartingWindow), [])
    case WindowRuns => (s.(window := WindowIdle), [])
    case WindowStarted(ok) => (if ok then s.(main := StartingIo) else s.(mutexAlive := false, main := Down), [])
    case StartIo => (s.(started := true, io := Accepting, main := Up), [])
    case AskWindowToClose => (s.(main := StoppingWindow), [])
    case WindowCloses => (s.(window := WindowExited), [])
    case JoinWindow => (s.(window := NoWindow, started := false, main := StoppingIo), [])
    case JoinIo => (s.(io := NoIo, main := Joined), [])
    case UnInitMutex => (s.(mutexAlive := false, ss := None, main := Down), [])
    case WindowNotified => (s.(window := Notifying(Waiting)), [])
    case WindowLocks => (s.(holder := WindowThread, window := Notifying(Inside)), [])
    case WindowBody(isClip, entered, ok) =>
      (s.(window := Notifying(Leaving)), NotifyCalls(s.ss, isClip, entered, ok))
    case WindowUnlocks => (s.(holder := Nobody, window := WindowIdle), [])
    case Accept(got, now) =>
      if !s.started then (s.(io := IoExited), [])
      else if got then (s.(io := At(Open, Waiting), isOk := true, timeMark := now), [])
      else (s, [])
    case IoLocks => (s.(holder := IoThread, io := At(s.io.region, Inside)), [])
    case IoBody(has, r) => IoBodyStep(s, has, r)
    case IoUnlocks => (IoUnlockStep(s), [])
    case IoTests => (s.(io := At(if s.isOk && s.started then Prepare else Close, Waiting)), [])
    case IoSelects => (s.(io := At(Handle, Waiting)), [])
  }

  // ---------- the invariant ----------

  predicate InSession(io: IoPc) {
    || io == LoopTest || io == Selecting || io == At(Open, Leaving)
    || (io.At? && (io.region == Prepare || io.region == Handle))
    || io == At(Close, Waiting) || io == At(Close, Inside)
  }

  predicate Inv(s: State) {
    && (s.holder == IoThread <==> s.io.At? && s.io.phase != Waiting)
    && (s.holder == WindowThread <==> s.window.Notifying? && s.window.phase != Waiting)
    && (s.mutexAlive <==> s.main != Down)
    && (s.io == NoIo <==> s.main in {Down, StartingWindow, StartingIo, Joined})
    && (s.main in {Down, StoppingIo, Joined} ==> s.window == NoWindow)
    && (s.main in {StartingIo, Up, StoppingWindow} ==> s.window != NoWindow)
    && (s.window == WindowExited ==> s.main == StoppingWindow)
    && (s.started <==> s.main in {Up, StoppingWindow})
    && (s.io == IoExited ==> s.main == StoppingIo)
    && (s.ss.Some? <==> InSession(s.io))
    && (s.ss.Some? ==> s.ss == Some(s.sessions - 1) && s.sessions > 0)
  }

  function Now(s: State): Sessions { Sessions(s.ss, s.sessions) }

  predicate ByIo(a: Action) { a.Accept? || a.IoLocks? || a.IoBody? || a.IoUnlocks? || a.IoTests? || a.IoSelects? }

  predicate ByWindow(a: Action) {
    a.WindowRuns? || a.WindowCloses? || a.WindowNotified? || a.WindowLocks? || a.WindowBody? || a.WindowUnlocks?
  }

  lemma StepKeepsInv(s: State, a: Action)
    requires Inv(s) && Enabled(s, a)
    ensures Inv(Step(s, a).0)
  {
    if ByIo(a) { IoKeepsInv(s, a); } else if ByWindow(a) { WindowKeepsInv(s, a); } else { MainKeepsInv(s, a); }
  }

  lemma IoKeepsInv(s: State, a: Action)
    requires Inv(s) && Enabled(s, a) && ByIo(a)
    ensures Inv(Step(s, a).0)
  {
    match a
    case IoBody(has, r) => IoBodyKeepsInv(s, has, r);
    case IoUnlocks => IoUnlockKeepsInv(s);
    case _ =>
  }

  lemma IoBodyKeepsInv(s: State, has: bool, r: Ready)
    requires Inv(s) && Enabled(s, IoBody(has, r))
    ensures Inv(IoBodyStep(s, has, r).0)
  {
  }

  lemma IoUnlockKeepsInv(s: State)
    requires Inv(s) && Enabled(s, IoUnlocks)
    ensures Inv(IoUnlockStep(s))
  {
  }

  lemma WindowKeepsInv(s: State, a: Action)
    requires Inv(s) && Enabled(s, a) && ByWindow(a)
    ensures Inv(Step(s, a).0)
  {
  }

  lemma MainKeepsInv(s: State, a: Action)
    requires Inv(s) && Enabled(s, a) && !ByIo(a) && !ByWindow(a)
    ensures Inv(Step(s, a).0)
  {
  }

  lemma StepIsLegal(s: State, a: Action)
    requires Inv(s) && Enabled(s, a)
    ensures Replay(Now(s), Step(s, a).1) == Some(Now(Step(s, a).0))
  {
    var calls := Step(s, a).1;
    match a
    case IoBody(has, r) =>
      match s.io.region {
        case Open => assert calls[1..] == [];
        case Close => assert calls[1..] == [];
        case Prepare => UsesReplay(Now(s), calls);
        case Handle =>
          RoundStopsAtFirstFailure(s.ss, s.timeMark, s.wantWrite, r);
          UsesReplay(Now(s), calls);
      }
    case _ => UsesReplay(Now(s), calls);
  }

  // ---------- runs ----------

  predicate IsRun(s: State, acts: seq<Action>)
    decreases |acts|
  {
    acts != [] ==> Enabled(s, acts[0]) && IsRun(Step(s, acts[0]).0, acts[1..])
  }

  function Final(s: State, acts: seq<Action>): State
    requires IsRun(s, acts)
    decreases |acts|
  {
    if acts == [] then s else Final(Step(s, acts[0]).0, acts[1..])
  }

  function Log(s: State, acts: seq<Action>): seq<Call>
    requires IsRun(s, acts)
    decreases |acts|
  {
    if acts == [] then [] else Step(s, acts[0]).1 + Log(Step(s, acts[0]).0, acts[1..])
  }

  lemma {:induction false} RunIsLegal(s: State, acts: seq<Action>)
    requires Inv(s) && IsRun(s, acts)
    ensures Inv(Final(s, acts))
    ensures Replay(Now(s), Log(s, acts)) == Some(Now(Final(s, acts)))
    decreases |acts|
  {
    if acts != [] {
      var (t, calls) := Step(s, acts[0]);
      StepKeepsInv(s, acts[0]);
      StepIsLegal(s, acts[0]);
      RunIsLegal(t, acts[1..]);
      ReplayConcat(Now(s), calls, Log(t, acts[1..]));
    }
  }

  /** In every interleaving: no call touches a null, closed or second session, every session opened
      is closed exactly once except the one still live, and none is live once the server is down or
      the I/O thread is back at accept. */
  lemma SessionsLiveOneAtATime(acts: seq<Action>, id: nat)
    requires IsRun(Initial, acts)
    ensures var s, log := Final(Initial, acts), Log(Initial, acts);
      && Replay(NoSessions, log) == Some(Now(s))
      && Count(log, OnClientSession, id) == (if id < s.sessions then 1 else 0)
      && Count(log, CloseClientSession, id) == Count(log, OnClientSession, id) - (if s.ss == Some(id) then 1 else 0)
      && (s.main in {Down, Joined} || s.io in {Accepting, IoExited} ==> s.ss == None)
  {
    RunIsLegal(Initial, acts);
    LegalHistoryClosesOnce(NoSessions, Log(Initial, acts), id);
  }

  predicate HoldsLock(s: State, who: Holder) {
    match who
    case Nobody => false
    case IoThread => s.io.At? && s.io.phase != Waiting
    case WindowThread => s.window.Notifying? && s.window.phase != Waiting
  }

  /** The lock is held by exactly the thread inside a locked region, so by at most one; every lock and
      unlock happens while the mutex exists; nobody holds it when it is destroyed or a thread is joined. */
  lemma LockDiscipline(acts: seq<Action>, a: Action)
    requires IsRun(Initial, acts) && Enabled(Final(Initial, acts), a)
    ensures var s := Final(Initial, acts);
      && (forall who | who != Nobody :: HoldsLock(s, who) <==> s.holder == who)
      && (a in {IoLocks, IoUnlocks, WindowLocks, WindowUnlocks} ==> s.mutexAlive && Step(s, a).0.mutexAlive)
      && (a == UnInitMutex ==> s.mutexAlive && s.holder == Nobody && s.io == NoIo && s.window == NoWindow)
      && (a == JoinWindow ==> s.holder != WindowThread)
      && (a == JoinIo ==> s.holder == Nobody)
      && (a == InitMutex ==> !s.mutexAlive)
  {
    RunIsLegal(Initial, acts);
  }

  // Whoever holds the lock can go on by itself, whatever the callbacks answer, and has released it after one
  // or two of its own steps.
  lemma TheHolderReleases(acts: seq<Action>, body: Action)
    requires IsRun(Initial, acts) && Final(Initial, acts).holder != Nobody
    requires if Final(Initial, acts).holder == IoThread then body.IoBody? else body.WindowBody?
    ensures ReleasesWith(Final(Initial, acts), body, UnlockBy(Final(Initial, acts).holder))
  {
    RunIsLegal(Initial, acts);
    var s := Final(Initial, acts);
    if s.holder == IoThread { IoReleases(s, body); } else { WindowReleases(s, body); }
  }

  function UnlockBy(holder: Holder): Action { if holder == IoThread then IoUnlocks else WindowUnlocks }

  predicate ReleasesWith(s: State, body: Action, unlock: Action) {
    if Enabled(s, unlock) then Step(s, unlock).0.holder == Nobody
    else Enabled(s, body) && Enabled(Step(s, body).0, unlock) && Step(Step(s, body).0, unlock).0.holder == Nobody
  }

  lemma IoReleases(s: State, body: Action)
    requires Inv(s) && s.holder == IoThread && body.IoBody?
    ensures ReleasesWith(s, body, IoUnlocks)
  {
  }

  lemma WindowReleases(s: State, body: Action)
    requires Inv(s) && s.holder == WindowThread && body.WindowBody?
    ensures ReleasesWith(s, body, WindowUnlocks)
  {
  }

  // ---------- after a failed round ----------

  // The I/O thread has seen a failure and has not closed the session yet.
  predicate Failing(s: State) {
    !s.isOk && s.io in {At(Handle, Leaving), LoopTest, At(Close, Waiting), At(Close, Inside)}
  }

  // Whether some clipboard notification got the lock.
  predicate Notified(acts: seq<Action>) {
    exists a <- acts :: a.WindowBody? && a.isClip
  }

  lemma StepWhileFailing(s: State, a: Action)
    requires Inv(s) && Failing(s) && Enabled(s, a) && !a.IoBody?
    ensures Failing(Step(s, a).0) && Step(s, a).0.ss == s.ss
    ensures Step(s, a).1 == [] <==> !(a.WindowBody? && a.isClip)
    ensures forall c <- Step(s, a).1 :: (c.op.IsEntered? || c.op.SendClipDataMsg?) && c.on == s.ss
  {
  }

  lemma NotifiedSplit(acts: seq<Action>)
    requires acts != []
    ensures Notified(acts) <==> (acts[0].WindowBody? && acts[0].isClip) || Notified(acts[1..])
  {
    assert forall a <- acts[1..] :: a in acts;
    assert forall a <- acts :: a == acts[0] || a in acts[1..];
  }

  lemma {:induction false} WhileFailing(s: State, acts: seq<Action>)
    requires Inv(s) && Failing(s) && IsRun(s, acts) && forall a <- acts :: !a.IoBody?
    ensures Inv(Final(s, acts)) && Failing(Final(s, acts)) && Final(s, acts).ss == s.ss
    ensures Log(s, acts) == [] <==> !Notified(acts)
    ensures forall c <- Log(s, acts) :: (c.op.IsEntered? || c.op.SendClipDataMsg?) && c.on == s.ss
    decreases |acts|
  {
    if acts != [] {
      var (t, calls) := Step(s, acts[0]);
      assert acts[0] in acts;
      assert forall a <- acts[1..] :: a in acts;
      StepKeepsInv(s, acts[0]);
      StepWhileFailing(s, acts[0]);
      WhileFailing(t, acts[1..]);
      NotifiedSplit(acts);
    }
  }

  /** From a failed round until the close, only the window thread can call into the session; so the
      close follows alone exactly when no clipboard notification gets the lock in between. */
  lemma OnlyCloseFollowsIffNoNotification(s: State, acts: seq<Action>, has: bool, r: Ready)
    requires Inv(s) && Failing(s) && (forall a <- acts :: !a.IoBody?)
    requires IsRun(s, acts) && Final(s, acts).io == At(Close, Inside)
    ensures IsRun(s, acts + [IoBody(has, r)])
    ensures var log := Log(s, acts + [IoBody(has, r)]);
      && log != [] && log[|log| - 1] == Call(CloseClientSession, s.ss)
      && (log == [Call(CloseClientSession, s.ss)] <==> !Notified(acts))
      && (forall c <- log :: c.on == s.ss && (c.op == CloseClientSession || c.op.IsEntered? || c.op.SendClipDataMsg?))
  {
    WhileFailing(s, acts);
    Push(s, acts, IoBody(has, r));
  }

  lemma {:induction false} PushState(s: State, acts: seq<Action>, a: Action)
    requires IsRun(s, acts) && Enabled(Final(s, acts), a)
    ensures IsRun(s, acts + [a])
    ensures Final(s, acts + [a]) == Step(Final(s, acts), a).0
    decreases |acts|
  {
    if acts == [] {
      Single(s, a);
    } else {
      assert (acts + [a])[0] == acts[0] && (acts + [a])[1..] == acts[1..] + [a];
      PushState(Step(s, acts[0]).0, acts[1..], a);
    }
  }

  lemma Single(s: State, a: Action)
    requires Enabled(s, a)
    ensures [] + [a] == [a] && IsRun(s, [a])
    ensures Final(s, [a]) == Step(s, a).0 && Log(s, [a]) == Step(s, a).1
  {
    assert [a][1..] == [];
  }

  lemma FirstStep(s: State, a: seq<Action>, b: seq<Action>)
    requires IsRun(s, a + b) && a != []
    ensures Enabled(s, a[0]) && IsRun(Step(s, a[0]).0, a[1..] + b)
    ensures Log(s, a + b) == Step(s, a[0]).1 + Log(Step(s, a[0]).0, a[1..] + b)
  {
    assert (a + b)[0] == a[0] && (a + b)[1..] == a[1..] + b;
  }

  /** A run extended by one more step. */
  lemma {:induction false} Push(s: State, acts: seq<Action>, a: Action)
    requires IsRun(s, acts) && Enabled(Final(s, acts), a)
    ensures IsRun(s, acts + [a])
    ensures Final(s, acts + [a]) == Step(Final(s, acts), a).0
    ensures Log(s, acts + [a]) == Log(s, acts) + Step(Final(s, acts), a).1
    decreases |acts|
  {
    PushState(s, acts, a);
    if acts == [] {
      Single(s, a);
    } else {
      var t := Step(s, acts[0]).0;
      Push(t, acts[1..], a);
      FirstStep(s, acts, [a]);
      Associate(Step(s, acts[0]).1, Log(t, acts[1..]), Step(Final(s, acts), a).1);
    }
  }

  // A round in which the socket is readable and receiving fails.
  const BadReceive := Ready(1, 0, 0, true, true, false, false, true)

  // One more step of a run, where it leads and what it calls.
  lemma Walk(acts: seq<Action>, a: Action, t: State, calls: seq<Call>) returns (next: seq<Action>)
    requires IsRun(Initial, acts) && Enabled(Final(Initial, acts), a) && (t, calls) == Step(Final(Initial, acts), a)
    ensures IsRun(Initial, next) && Final(Initial, next) == t && Log(Initial, next) == Log(Initial, acts) + calls
  {
    Push(Initial, acts, a);
    next := acts + [a];
  }

  lemma ToAccept() returns (acts: seq<Action>)
    ensures IsRun(Initial, acts)
    ensures Final(Initial, acts) == State(true, Nobody, None, true, 0, Up, WindowIdle, Accepting, true, 0, false)
  {
    var up := Initial.(mutexAlive := true, main := StartingWindow);
    acts := Walk([], InitMutex, up, []);
    up := up.(window := WindowIdle);
    acts := Walk(acts, WindowRuns, up, []);
    acts := Walk(acts, WindowStarted(true), up.(main := StartingIo), []);
    acts := Walk(acts, StartIo, up.(main := Up, started := true, io := Accepting), []);
  }

  lemma ToFirstRound() returns (acts: seq<Action>)
    ensures IsRun(Initial, acts)
    ensures Final(Initial, acts) == State(true, Nobody, Some(0), true, 1, Up, WindowIdle, LoopTest, true, 0, false)
  {
    acts := ToAccept();
    var up := State(true, Nobody, None, true, 0, Up, WindowIdle, Accepting, true, 0, false);
    acts := Walk(acts, Accept(true, 0), up.(io := At(Open, Waiting)), []);
    acts := Walk(acts, IoLocks, up.(io := At(Open, Inside), holder := IoThread), []);
    up := up.(ss := Some(0), sessions := 1);
    acts := Walk(acts, IoBody(false, BadReceive), up.(io := At(Open, Leaving), holder := IoThread), [Call(OnClientSession, Some(0))]);
    acts := Walk(acts, IoUnlocks, up.(io := LoopTest), []);
  }

  lemma ToPrepare() returns (acts: seq<Action>)
    ensures IsRun(Initial, acts)
    ensures Final(Initial, acts) == State(true, Nobody, Some(0), true, 1, Up, WindowIdle, At(Prepare, Waiting), true, 0, false)
  {
    acts := ToFirstRound();
    var up := State(true, Nobody, Some(0), true, 1, Up, WindowIdle, LoopTest, true, 0, false);
    acts := Walk(acts, IoTests, up.(io := At(Prepare, Waiting)), []);
  }

  lemma ToHandleBlock() returns (acts: seq<Action>)
    ensures IsRun(Initial, acts)
    ensures Final(Initial, acts) == State(true, IoThread, Some(0), true, 1, Up, WindowIdle, At(Handle, Inside), true, 0, false)
  {
    acts := ToPrepare();
    var up := State(true, Nobody, Some(0), true, 1, Up, WindowIdle, At(Prepare, Waiting), true, 0, false);
    acts := Walk(acts, IoLocks, up.(io := At(Prepare, Inside), holder := IoThread), []);
    acts := Walk(acts, IoBody(false, BadReceive), up.(io := At(Prepare, Leaving), holder := IoThread), PrepareCalls(Some(0), false));
    acts := Walk(acts, IoUnlocks, up.(io := Selecting), []);
    acts := Walk(acts, IoSelects, up.(io := At(Handle, Waiting)), []);
    acts := Walk(acts, IoLocks, up.(io := At(Handle, Inside), holder := IoThread), []);
  }

  lemma ToFailure() returns (acts: seq<Action>)
    ensures IsRun(Initial, acts)
    ensures Final(Initial, acts) == State(true, Nobody, Some(0), true, 1, Up, WindowIdle, LoopTest, false, 0, false)
    ensures var log := Log(Initial, acts); log != [] && log[|log| - 1] == Call(OnRecvData(false), Some(0))
  {
    acts := ToHandleBlock();
    var calls := [Call(ReadFd, Some(0)), Call(OnRecvData(false), Some(0))];
    assert HandleRound(Some(0), 0, false, BadReceive) == Handled(false, 0, calls);
    var failed := State(true, Nobody, Some(0), true, 1, Up, WindowIdle, LoopTest, false, 0, false);
    acts := Walk(acts, IoBody(false, BadReceive), failed.(holder := IoThread, io := At(Handle, Leaving)), calls);
    acts := Walk(acts, IoUnlocks, failed, []);
  }

  // The failure is still the last call when a notification has got the lock.
  lemma ToNotification() returns (acts: seq<Action>)
    ensures IsRun(Initial, acts)
    ensures Final(Initial, acts)
      == State(true, WindowThread, Some(0), true, 1, Up, Notifying(Inside), LoopTest, false, 0, false)
    ensures var log := Log(Initial, acts); log != [] && log[|log| - 1] == Call(OnRecvData(false), Some(0))
  {
    acts := ToFailure();
    var t := State(true, Nobody, Some(0), true, 1, Up, WindowIdle, LoopTest, false, 0, false);
    acts := Walk(acts, WindowNotified, t.(window := Notifying(Waiting)), []);
    acts := Walk(acts, WindowLocks, t.(window := Notifying(Inside), holder := WindowThread), []);
  }

  /** "Only close follows a failed callback" is not true of every interleaving: in this run receiving
      fails, then a clipboard notification still reads and writes the session before it is closed. */
  lemma AFailedSessionCanStillBeUsed() returns (acts: seq<Action>)
    ensures IsRun(Initial, acts) && Failing(Final(Initial, acts))
    ensures var log, id := Log(Initial, acts), Some(0);
      |log| >= 3 && log[|log| - 3..]
        == [Call(OnRecvData(false), id), Call(IsEntered(true), id), Call(SendClipDataMsg(true), id)]
  {
    acts := ToNotification();
    var log := Log(Initial, acts);
    var t := State(true, WindowThread, Some(0), true, 1, Up, Notifying(Leaving), LoopTest, false, 0, false);
    var calls := [Call(IsEntered(true), Some(0)), Call(SendClipDataMsg(true), Some(0))];
    acts := Walk(acts, WindowBody(true, true, true), t, calls);
    assert (log + calls)[|log| - 1..] == [log[|log| - 1]] + calls;
  }
}
