/** The threads' steps taken without interference are the code of the session: the rounds of the I/O thread are
    those of the session body, and a notification of the window thread makes its calls. */
module ServerRounds {
  import opened Options
  import opened Sequences
  import opened ServerSession
  import opened ServerRuns
  import opened Widths

  // One more step from any state.
  lemma StepOn(s: State, acts: seq<Action>, a: Action, t: State, calls: seq<Call>) returns (next: seq<Action>)
    requires IsRun(s, acts) && Enabled(Final(s, acts), a) && (t, calls) == Step(Final(s, acts), a)
    ensures IsRun(s, next) && Final(s, next) == t && Log(s, next) == Log(s, acts) + calls
  {
    Push(s, acts, a);
    next := acts + [a];
  }

  // One step as a run of its own.
  lemma OneStep(s: State, a: Action, t: State, calls: seq<Call>) returns (acts: seq<Action>)
    requires Enabled(s, a) && Step(s, a) == (t, calls)
    ensures IsRun(s, acts) && Final(s, acts) == t && Log(s, acts) == calls
  {
    Single(s, a);
    acts := [a];
  }

  // Taking the lock, then two more steps.
  lemma ThreeSteps(s: State, t: State, u: State, v: State, a: Action, b: Action, c: Action, calls: seq<Call>) returns (acts: seq<Action>)
    requires Enabled(s, a) && Step(s, a) == (t, []) && Enabled(t, b) && Step(t, b) == (u, calls) && Enabled(u, c) && Step(u, c) == (v, [])
    ensures IsRun(s, acts) && Final(s, acts) == v && Log(s, acts) == calls
  {
    acts := OneStep(s, a, t, []);
    var body := OneStep(t, b, u, calls);
    acts := JoinRuns(s, acts, body);
    var last := OneStep(u, c, v, []);
    acts := JoinRuns(s, acts, last);
  }

  // A locked region from its waiting for the lock to its release.
  lemma RegionSteps(s: State, has: bool, r: Ready) returns (acts: seq<Action>)
    requires s.io.At? && s.io.phase == Waiting && s.holder == Nobody
    ensures IsRun(s, acts)
    ensures var (t, calls) := IoBodyStep(s.(io := At(s.io.region, Inside), holder := IoThread), has, r);
      Final(s, acts) == IoUnlockStep(t) && Log(s, acts) == calls
  {
    var inside := s.(io := At(s.io.region, Inside), holder := IoThread);
    var (t, calls) := IoBodyStep(inside, has, r);
    acts := ThreeSteps(s, inside, t, IoUnlockStep(t), IoLocks, IoBody(has, r), IoUnlocks, calls);
  }

  // The loop test of a session in which nothing has failed, on a free lock.
  predicate AtLoop(s: State) { s.io == LoopTest && s.isOk && s.started && s.holder == Nobody && s.ss.Some? }

  lemma PrepareSteps(s: State, has: bool, r: Ready) returns (acts: seq<Action>)
    requires AtLoop(s)
    ensures IsRun(s, acts)
    ensures Final(s, acts) == s.(io := At(Handle, Waiting), wantWrite := has) && Log(s, acts) == PrepareCalls(s.ss, has)
  {
    var t := s.(io := At(Prepare, Waiting));
    acts := OneStep(s, IoTests, t, []);
    var region := RegionSteps(t, has, r);
    acts := JoinRuns(s, acts, region);
    var u := s.(io := Selecting, wantWrite := has);
    var last := OneStep(u, IoSelects, s.(io := At(Handle, Waiting), wantWrite := has), []);
    acts := JoinRuns(s, acts, last);
  }

  lemma HandleSteps(s: State, r: Ready) returns (acts: seq<Action>)
    requires s.io == At(Handle, Waiting) && s.holder == Nobody
    ensures IsRun(s, acts)
    ensures var h := HandleRound(s.ss, s.timeMark, s.wantWrite, r);
      && Final(s, acts) == s.(io := LoopTest, isOk := h.isOk, timeMark := h.timeMark)
      && Log(s, acts) == h.calls
  {
    acts := RegionSteps(s, s.wantWrite, r);
  }

  lemma RoundSteps(s: State, has: bool, r: Ready) returns (acts: seq<Action>)
    requires AtLoop(s)
    ensures IsRun(s, acts)
    ensures var h := HandleRound(s.ss, s.timeMark, has, r);
      && Final(s, acts) == s.(isOk := h.isOk, timeMark := h.timeMark, wantWrite := has)
      && Log(s, acts) == PrepareCalls(s.ss, has) + h.calls
  {
    acts := PrepareSteps(s, has, r);
    var handle := HandleSteps(Final(s, acts), r);
    acts := JoinRuns(s, acts, handle);
  }

  /** From the loop test on, the I/O thread alone goes through the rounds of the session body: after k of them
      its calls, clock mark and result are those of the body. */
  lemma {:induction false} RoundsFollowTheBody(s: State, rounds: seq<(bool, Ready)>, k: nat) returns (acts: seq<Action>)
    requires AtLoop(s) && k <= SessionBody(s.ss, s.timeMark, rounds).performed
    ensures IsRun(s, acts)
    ensures var t := Final(s, acts);
      && t == s.(isOk := t.isOk, timeMark := t.timeMark, wantWrite := t.wantWrite)
      && BodyAt(SessionBody(s.ss, s.timeMark, rounds), s.ss, t.timeMark, rounds, t.isOk, k, Log(s, acts))
    decreases k
  {
    if k == 0 {
      acts := [];
      assert rounds[0..] == rounds;
    } else {
      acts := RoundsFollowTheBody(s, rounds, k - 1);
      var t, mid := Final(s, acts), Log(s, acts);
      var (has, r) := rounds[k - 1];
      BodyStep(SessionBody(s.ss, s.timeMark, rounds), s.ss, t.timeMark, rounds, k - 1, mid);
      var round := RoundSteps(t, has, r);
      acts := JoinRuns(s, acts, round);
    }
  }

  lemma WholeBody(body: Body, ss: Option<nat>, timeMark: uint64, rounds: seq<(bool, Ready)>, isOk: bool, mid: seq<Call>)
    requires body.performed <= |rounds| && (body.isOk ==> body.performed == |rounds|)
    requires BodyAt(body, ss, timeMark, rounds, isOk, body.performed, mid)
    ensures body.calls == mid && (isOk <==> body.isOk)
  {
    if isOk { assert SessionBody(ss, timeMark, rounds[body.performed..]).performed == 0; }
  }

  lemma OpenSteps(s: State, now: uint64, has: bool, r: Ready) returns (acts: seq<Action>)
    requires s.io == Accepting && s.started && s.holder == Nobody
    ensures IsRun(s, acts) && Log(s, acts) == [Call(OnClientSession, Some(s.sessions))]
    ensures Final(s, acts)
      == s.(io := LoopTest, isOk := true, timeMark := now, ss := Some(s.sessions), sessions := s.sessions + 1)
  {
    var t := s.(io := At(Open, Waiting), isOk := true, timeMark := now);
    acts := OneStep(s, Accept(true, now), t, []);
    var region := RegionSteps(t, has, r);
    acts := JoinRuns(s, acts, region);
  }

  /** A client that is accepted gets a session whose calls, without interference, are its open and then exactly
      those of the session body started at the clock reading of the accept; failure ends it at the close. */
  lemma AcceptedClientGetsItsSession(s: State, now: uint64, rounds: seq<(bool, Ready)>, has: bool, r: Ready) returns (acts: seq<Action>)
    requires s.io == Accepting && s.started && s.holder == Nobody
    ensures IsRun(s, acts)
    ensures var id := Some(s.sessions);
      var body := SessionBody(id, now, rounds);
      && Log(s, acts) == [Call(OnClientSession, id)] + body.calls
      && Final(s, acts).io == LoopTest && Final(s, acts).isOk == body.isOk && Final(s, acts).ss == id
  {
    acts := OpenSteps(s, now, has, r);
    var t := Final(s, acts);
    var body := SessionBody(t.ss, now, rounds);
    var more := RoundsFollowTheBody(t, rounds, body.performed);
    SessionStopsAtFirstFailure(t.ss, now, rounds);
    WholeBody(body, t.ss, Final(t, more).timeMark, rounds, Final(t, more).isOk, Log(t, more));
    acts := JoinRuns(s, acts, more);
  }

  // A run from where another one ends.
  lemma {:induction false} JoinRuns(s: State, first: seq<Action>, second: seq<Action>) returns (acts: seq<Action>)
    requires IsRun(s, first) && IsRun(Final(s, first), second)
    ensures IsRun(s, acts) && Final(s, acts) == Final(Final(s, first), second)
    ensures Log(s, acts) == Log(s, first) + Log(Final(s, first), second)
    decreases |second|
  {
    if second == [] {
      acts := first;
      assert Log(s, first) + [] == Log(s, first);
    } else {
      var t := Final(s, first);
      var (u, calls) := Step(t, second[0]);
      var next := StepOn(s, first, second[0], u, calls);
      acts := JoinRuns(s, next, second[1..]);
      Associate(Log(s, first), calls, Log(u, second[1..]));
    }
  }

  /** Without a client the I/O thread stays at accept and calls nothing. */
  lemma NoClientNoSession(s: State, now: uint64)
    requires s.io == Accepting && s.started
    ensures Step(s, Accept(false, now)) == (s, [])
  {
  }

  /** A notification handled without interference makes the calls of the code and leaves everything else alone. */
  lemma NotificationMakesItsCalls(s: State, isClip: bool, entered: bool, ok: bool) returns (acts: seq<Action>)
    requires s.window == WindowIdle && s.holder == Nobody
    ensures IsRun(s, acts) && Final(s, acts) == s
    ensures Log(s, acts) ==
      if s.ss == None || !isClip then []
      else if entered then [Call(IsEntered(true), s.ss), Call(SendClipDataMsg(ok), s.ss)] else [Call(IsEntered(false), s.ss)]
  {
    var waiting := s.(window := Notifying(Waiting));
    var inside, leaving := waiting.(window := Notifying(Inside), holder := WindowThread), waiting.(window := Notifying(Leaving), holder := WindowThread);
    acts := OneStep(s, WindowNotified, waiting, []);
    var region := ThreeSteps(waiting, inside, leaving, s, WindowLocks, WindowBody(isClip, entered, ok), WindowUnlocks, NotifyCalls(s.ss, isClip, entered, ok));
    acts := JoinRuns(s, acts, region);
  }
}
