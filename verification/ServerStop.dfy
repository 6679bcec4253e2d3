/** Stopping the server, which always comes to an end, and starting it twice, which breaks it. */
module ServerStop {
  import opened Options
  import opened ServerSession
  import opened ServerRuns
  import opened Widths

  const STOPPING := {StoppingWindow, StoppingIo, Joined}

  // What the environment and the callbacks answer while the server stops.
  datatype Answers = Answers(has: bool, r: Ready, isClip: bool, entered: bool, ok: bool)

  // A step that brings Srv_Stop nearer to its end.
  function NextToStop(s: State, e: Answers): Action {
    if s.main == Joined then UnInitMutex
    else if s.main == StoppingWindow then
      match s.window
      case WindowExited => JoinWindow
      case WindowIdle => WindowCloses
      case Notifying(Inside) => WindowBody(e.isClip, e.entered, e.ok)
      case Notifying(Leaving) => WindowUnlocks
      case _ => if s.holder == Nobody then WindowLocks else IoProceeds(s, e)
    else if s.io == IoExited then JoinIo
    else IoProceeds(s, e)
  }

  function IoProceeds(s: State, e: Answers): Action {
    match s.io
    case At(_, Waiting) => IoLocks
    case At(_, Inside) => IoBody(e.has, e.r)
    case At(_, Leaving) => IoUnlocks
    case LoopTest => IoTests
    case Selecting => IoSelects
    case _ => Accept(false, 0)
  }

  function PhaseRank(p: Phase): nat { match p case Waiting => 2 case Inside => 1 case Leaving => 0 }

  // How far the I/O thread is from its exit, once the server is no longer started.
  function IoRank(io: IoPc): nat {
    match io
    case IoExited => 0
    case Accepting => 1
    case At(Close, p) => 2 + PhaseRank(p)
    case LoopTest => 5
    case At(Open, p) => 6 + PhaseRank(p)
    case At(Handle, p) => 6 + PhaseRank(p)
    case Selecting => 9
    case At(Prepare, p) => 10 + PhaseRank(p)
    case NoIo => 0
  }

  function WindowRank(s: State): nat {
    match s.window
    case Notifying(Waiting) => 4 + if s.holder == IoThread && s.io.At? then 1 + PhaseRank(s.io.phase) else 0
    case Notifying(p) => 2 + PhaseRank(p)
    case WindowIdle => 1
    case _ => 0
  }

  function StopRank(s: State): nat {
    if s.main == StoppingWindow then 20 + WindowRank(s)
    else if s.main == StoppingIo then 2 + IoRank(s.io)
    else if s.main == Joined then 1
    else 0
  }

  lemma NextToStopAdvances(s: State, e: Answers)
    requires Inv(s) && s.main in STOPPING
    ensures Enabled(s, NextToStop(s, e))
    ensures var t := Step(s, NextToStop(s, e)).0;
      StopRank(t) < StopRank(s) && (t.main in STOPPING || t.main == Down)
  {
    NextToStopIsEnabled(s, e);
    if s.main == StoppingWindow { WindowStopAdvances(s, e); } else { EveryStepAdvances(s, NextToStop(s, e)); }
  }

  lemma NextToStopIsEnabled(s: State, e: Answers)
    requires Inv(s) && s.main in STOPPING
    ensures Enabled(s, NextToStop(s, e))
  {
  }

  // While the window thread runs, its own steps and those of a lock holder it waits for count.
  lemma WindowStopAdvances(s: State, e: Answers)
    requires Inv(s) && s.main == StoppingWindow && Enabled(s, NextToStop(s, e))
    ensures var t := Step(s, NextToStop(s, e)).0; StopRank(t) < StopRank(s) && t.main in STOPPING
  {
    if s.window == Notifying(Waiting) && s.holder != Nobody { HolderStopAdvances(s, e); }
  }

  lemma HolderStopAdvances(s: State, e: Answers)
    requires Inv(s) && s.main == StoppingWindow && s.window == Notifying(Waiting) && s.holder == IoThread
    requires Enabled(s, IoProceeds(s, e))
    ensures var t := Step(s, IoProceeds(s, e)).0; WindowRank(t) < WindowRank(s) && t.main == StoppingWindow
  {
  }

  lemma EveryStepAdvances(s: State, a: Action)
    requires Inv(s) && s.main in {StoppingIo, Joined, Down} && Enabled(s, a) && a != InitMutex
    ensures StopRank(Step(s, a).0) < StopRank(s) && Step(s, a).0.main in {StoppingIo, Joined, Down}
  {
  }

  /** Srv_Stop can always complete: from every reachable state in which it has begun, whatever the callbacks
      answer at each step, the threads have a continuation of bounded length after which the server is down. */
  lemma {:induction false} StopCanComplete(s: State, e: nat -> Answers, k: nat) returns (acts: seq<Action>)
    requires Inv(s) && s.main in STOPPING
    ensures IsRun(s, acts) && Final(s, acts).main == Down && |acts| <= StopRank(s) <= 27
    ensures acts != [] && acts[0] == NextToStop(s, e(k))
    decreases StopRank(s)
  {
    var a := NextToStop(s, e(k));
    NextToStopAdvances(s, e(k));
    StepKeepsInv(s, a);
    var t := Step(s, a).0;
    var rest := [];
    if t.main in STOPPING {
      rest := StopCanComplete(t, e, k + 1);
    }
    acts := [a] + rest;
    assert acts[0] == a && acts[1..] == rest;
  }

  lemma StopCompletesFromAnyRun(acts: seq<Action>, e: nat -> Answers) returns (more: seq<Action>)
    requires IsRun(Initial, acts) && Final(Initial, acts).main in STOPPING
    ensures IsRun(Final(Initial, acts), more) && Final(Final(Initial, acts), more).main == Down
  {
    RunIsLegal(Initial, acts);
    more := StopCanComplete(Final(Initial, acts), e, 0);
  }

  /** Once the window thread has been joined it must complete: no run, in any order of steps, is longer than
      the rank, and until the server is down there is always a step to take. */
  lemma {:induction false} StopMustComplete(s: State, acts: seq<Action>, e: Answers)
    requires Inv(s) && s.main in {StoppingIo, Joined, Down} && IsRun(s, acts) && InitMutex !in acts
    ensures |acts| <= StopRank(s)
    ensures Final(s, acts).main != Down ==> Enabled(Final(s, acts), NextToStop(Final(s, acts), e))
    decreases |acts|
  {
    if acts == [] {
      if s.main != Down { NextToStopIsEnabled(s, e); }
    } else {
      assert acts[0] in acts && forall a <- acts[1..] :: a in acts;
      EveryStepAdvances(s, acts[0]);
      StepKeepsInv(s, acts[0]);
      StopMustComplete(Step(s, acts[0]).0, acts[1..], e);
    }
  }

  // ---------- starting twice ----------

  // Srv_Start on a running server, when nobody else runs in between. Without a socket or a port (scan) it
  // returns at once; else the mutex is initialised anew, the session pointer cleared, the window found
  // started, and the mutex destroyed again.
  function StartAgain(s: State, scan: Scan): State {
    if scan.Found? then s.(mutexAlive := false, ss := None) else s
  }

  // The three threads, with starts while the server is up.
  datatype Event = Usual(a: Action) | Again(scan: Scan)

  predicate Possible(s: State, e: Event) {
    match e
    case Usual(a) => Enabled(s, a)
    case Again(scan) => s.main == Up && scan != StillScanning
  }

  function After(s: State, e: Event): State
    requires Possible(s, e)
  {
    match e
    case Usual(a) => Step(s, a).0
    case Again(scan) => StartAgain(s, scan)
  }

  predicate IsHistory(s: State, events: seq<Event>)
    decreases |events|
  {
    events != [] ==> Possible(s, events[0]) && IsHistory(After(s, events[0]), events[1..])
  }

  // The invariant holds in every state of the history.
  predicate StaysSound(s: State, events: seq<Event>)
    requires IsHistory(s, events)
    decreases |events|
  {
    Inv(s) && (events != [] ==> StaysSound(After(s, events[0]), events[1..]))
  }

  /** One call of Srv_Start, on a server that is down or up: it keeps the server sound exactly when the server
      is not started or the call gets no port. */
  lemma StartIsSafeIff(s: State, scan: Scan)
    requires Inv(s) && (s.main == Down || s.main == Up)
    ensures var t := if s.main == Up then StartAgain(s, scan) else if scan.Found? then Step(s, InitMutex).0 else s;
      Inv(t) <==> !s.started || !scan.Found?
  {
  }

  /** Over every history the server stays sound, in every state, exactly when no start that found it running
      got a port. */
  lemma {:induction false} SoundIffNoStartGetsAPort(s: State, events: seq<Event>)
    requires Inv(s) && IsHistory(s, events)
    ensures StaysSound(s, events) <==> forall e <- events :: e.Again? ==> !e.scan.Found?
    decreases |events|
  {
    if events != [] {
      var t := After(s, events[0]);
      assert events[0] in events;
      assert forall e <- events[1..] :: e in events;
      assert forall e <- events :: e == events[0] || e in events[1..];
      match events[0]
      case Usual(a) =>
        StepKeepsInv(s, a);
        SoundIffNoStartGetsAPort(t, events[1..]);
      case Again(scan) =>
        StartIsSafeIff(s, scan);
        if scan.Found? { assert !Inv(t); } else { SoundIffNoStartGetsAPort(t, events[1..]); }
    }
  }

  /** A history in which it breaks: after a second start that gets a port, the I/O thread takes a lock that is
      gone and calls into a null session. */
  lemma ASecondStartBreaksTheServer(port: uint16) returns (acts: seq<Action>)
    ensures IsRun(Initial, acts) && Final(Initial, acts).main == Up
    ensures var t := StartAgain(Final(Initial, acts), Found(port));
      && Enabled(t, IoLocks) && !t.mutexAlive
      && forall has, r | Enabled(Step(t, IoLocks).0, IoBody(has, r)) ::
           Replay(Now(t), Step(Step(t, IoLocks).0, IoBody(has, r)).1) == None
    ensures Enabled(Step(StartAgain(Final(Initial, acts), Found(port)), IoLocks).0, IoBody(false, BadReceive))
  {
    acts := ToPrepare();
  }
}
