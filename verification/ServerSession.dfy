/** The server's session life: the I/O thread and the window thread share one session pointer under
    one mutex, the main thread starts and stops both. Session callbacks are recorded as calls. */
module ServerSession {
  import opened Options
  import opened Sequences
  import opened Widths

  const NM_TIMER_TICK := 1000

  datatype Op =
    | OnClientSession
    | ReadFd
    | HasDataToSend(has: bool)
    | OnTimer(ok: bool)
    | OnRecvData(ok: bool)
    | OnSendData(ok: bool)
    | IsEntered(entered: bool)
    | SendClipDataMsg(ok: bool)
    | CloseClientSession

  // A session function and the pointer it was called on (for OnClientSession: the one it returned).
  datatype Call = Call(op: Op, on: Option<nat>)

  // What one round of select and the callbacks answer.
  datatype Ready = Ready(ret: int, now: uint64, later: uint64, timerOk: bool,
                         canRead: bool, recvOk: bool, canWrite: bool, sendOk: bool)

  datatype Handled = Handled(isOk: bool, timeMark: uint64, calls: seq<Call>)

  // ---------- what the bodies of the locked regions do ----------

  function PrepareCalls(ss: Option<nat>, has: bool): seq<Call> {
    [Call(ReadFd, ss), Call(HasDataToSend(has), ss)]
  }

  predicate TimerDue(timeMark: uint64, now: uint64) { (now - timeMark) % TWO64 >= NM_TIMER_TICK }

  function TimerCalls(ss: Option<nat>, timeMark: uint64, r: Ready): seq<Call> {
    if r.ret >= 0 && TimerDue(timeMark, r.now) then [Call(OnTimer(r.timerOk), ss)] else []
  }

  function TransferCalls(ss: Option<nat>, wantWrite: bool, r: Ready): seq<Call> {
    var fd, recv, send := Call(ReadFd, ss), Call(OnRecvData(r.recvOk), ss), Call(OnSendData(r.sendOk), ss);
    var writes := wantWrite && r.canWrite;
    if r.canRead && !r.recvOk then [fd, recv]
    else if r.canRead then if writes then [fd, recv, fd, send] else [fd, recv, fd]
    else if writes then [fd, fd, send] else [fd, fd]
  }

  function HandleRound(ss: Option<nat>, timeMark: uint64, wantWrite: bool, r: Ready): Handled {
    var timer := TimerCalls(ss, timeMark, r);
    var failed := r.ret < 0 || (timer != [] && !r.timerOk);
    var mark := if timer != [] && r.timerOk then r.later else timeMark;
    if failed || r.ret == 0 then Handled(!failed, mark, timer)
    else
      var ok := (r.canRead ==> r.recvOk) && (wantWrite && r.canWrite ==> r.sendOk);
      Handled(ok, mark, timer + TransferCalls(ss, wantWrite, r))
  }

  function NotifyCalls(ss: Option<nat>, isClip: bool, entered: bool, ok: bool): seq<Call> {
    if ss == None || !isClip then []
    else if entered then [Call(IsEntered(true), ss), Call(SendClipDataMsg(ok), ss)]
    else [Call(IsEntered(false), ss)]
  }

  // ---------- legality of a call history ----------

  // The live session, if any, and how many were opened; sessions are numbered in opening order.
  datatype Sessions = Sessions(live: Option<nat>, created: nat)

  const NoSessions := Sessions(None, 0)

  function After(st: Sessions, c: Call): Option<Sessions> {
    match c.op
    case OnClientSession =>
      if st.live == None && c.on == Some(st.created) then Some(Sessions(c.on, st.created + 1)) else None
    case CloseClientSession =>
      if c.on != None && c.on == st.live then Some(st.(live := None)) else None
    case _ =>
      if c.on != None && c.on == st.live then Some(st) else None
  }

  // None: some call opened a second session, or touched a null, closed or foreign one.
  function Replay(st: Sessions, log: seq<Call>): Option<Sessions>
    decreases |log|
  {
    if log == [] then Some(st)
    else
      var next := After(st, log[0]);
      if next == None then None else Replay(next.value, log[1..])
  }

  lemma {:induction false} ReplayConcat(st: Sessions, a: seq<Call>, b: seq<Call>)
    ensures Replay(st, a + b) == if Replay(st, a) == None then None else Replay(Replay(st, a).value, b)
    decreases |a|
  {
    if a == [] {
      assert a + b == b;
    } else {
      assert (a + b)[0] == a[0] && (a + b)[1..] == a[1..] + b;
      if After(st, a[0]).Some? { ReplayConcat(After(st, a[0]).value, a[1..], b); }
    }
  }

  predicate UsesOnly(log: seq<Call>, ss: Option<nat>) {
    forall c <- log :: c.on == ss && c.op != OnClientSession && c.op != CloseClientSession
  }

  lemma {:induction false} UsesReplay(st: Sessions, log: seq<Call>)
    requires UsesOnly(log, st.live) && (log != [] ==> st.live.Some?)
    ensures Replay(st, log) == Some(st)
    decreases |log|
  {
    if log != [] {
      assert log[0] in log;
      assert forall c <- log[1..] :: c in log;
      UsesReplay(st, log[1..]);
    }
  }

  // How often a session was opened, or closed.
  function Count(log: seq<Call>, op: Op, id: nat): nat {
    if log == [] then 0 else (if log[0] == Call(op, Some(id)) then 1 else 0) + Count(log[1..], op, id)
  }

  /** In a legal history every session is opened once, and closed exactly once unless it still lives. */
  lemma {:induction false} LegalHistoryClosesOnce(st: Sessions, log: seq<Call>, id: nat)
    requires Replay(st, log).Some? && (st.live.Some? ==> st.live.value < st.created)
    ensures var end := Replay(st, log).value;
      && st.created <= end.created && (end.live.Some? ==> end.live.value < end.created)
      && Count(log, OnClientSession, id) == (if st.created <= id < end.created then 1 else 0)
      && Count(log, CloseClientSession, id) ==
           Count(log, OnClientSession, id) + (if st.live == Some(id) then 1 else 0) - (if end.live == Some(id) then 1 else 0)
    decreases |log|
  {
    if log != [] {
      LegalHistoryClosesOnce(After(st, log[0]).value, log[1..], id);
    }
  }

  // ---------- the handle block ----------

  predicate CallFailed(c: Call) {
    c.op == OnTimer(false) || c.op == OnRecvData(false) || c.op == OnSendData(false)
  }

  // No call fails, except possibly the last one.
  predicate FailsOnlyLast(calls: seq<Call>) {
    forall i | 0 <= i < |calls| - 1 :: !CallFailed(calls[i])
  }

  predicate LastFails(calls: seq<Call>) {
    calls != [] && CallFailed(calls[|calls| - 1])
  }

  lemma FailureOfConcat(a: seq<Call>, b: seq<Call>)
    requires FailsOnlyLast(a) && !LastFails(a) && FailsOnlyLast(b)
    ensures FailsOnlyLast(a + b)
    ensures b != [] ==> (LastFails(a + b) <==> LastFails(b))
    ensures b == [] ==> !LastFails(a + b)
  {
    if b == [] { assert a + b == a; }
  }

  lemma TransferShape(ss: Option<nat>, wantWrite: bool, r: Ready)
    ensures var t := TransferCalls(ss, wantWrite, r);
      && FailsOnlyLast(t) && UsesOnly(t, ss) && t != []
      && (LastFails(t) <==> (r.canRead && !r.recvOk) || (wantWrite && r.canWrite && !r.sendOk))
  {
  }

  /** The goto exits: the round stops at the first callback that fails, which is its last call, and
      reports failure exactly when select failed or some callback did. */
  lemma RoundStopsAtFirstFailure(ss: Option<nat>, timeMark: uint64, wantWrite: bool, r: Ready)
    ensures var h := HandleRound(ss, timeMark, wantWrite, r);
      && FailsOnlyLast(h.calls) && UsesOnly(h.calls, ss)
      && (h.isOk <==> r.ret >= 0 && !LastFails(h.calls))
      && (r.ret < 0 ==> h.calls == [])
      && h.timeMark == (if r.ret >= 0 && TimerDue(timeMark, r.now) && r.timerOk then r.later else timeMark)
  {
    var timer := TimerCalls(ss, timeMark, r);
    assert FailsOnlyLast(timer) && UsesOnly(timer, ss);
    if !(r.ret < 0 || (timer != [] && !r.timerOk)) && r.ret != 0 {
      TransferShape(ss, wantWrite, r);
      FailureOfConcat(timer, TransferCalls(ss, wantWrite, r));
    }
  }

  // How often the timer was called.
  function TimerCount(calls: seq<Call>): nat {
    if calls == [] then 0 else (if calls[0].op.OnTimer? then 1 else 0) + TimerCount(calls[1..])
  }

  lemma {:induction false} TimerCountOfConcat(a: seq<Call>, b: seq<Call>)
    ensures TimerCount(a + b) == TimerCount(a) + TimerCount(b)
    decreases |a|
  {
    if a == [] {
      assert a + b == b;
    } else {
      assert (a + b)[0] == a[0] && (a + b)[1..] == a[1..] + b;
      TimerCountOfConcat(a[1..], b);
    }
  }

  lemma {:induction false} NoTimerIn(calls: seq<Call>)
    requires forall c <- calls :: !c.op.OnTimer?
    ensures TimerCount(calls) == 0
    decreases |calls|
  {
    if calls != [] {
      assert calls[0] in calls && forall c <- calls[1..] :: c in calls;
      NoTimerIn(calls[1..]);
    }
  }

  /** On a clock that has not stepped back a round calls the timer, once and first, exactly when select did not
      fail and 1000 ms have passed since the mark; the mark moves exactly when that call succeeds. */
  lemma TimerRunsIffATickHasPassed(ss: Option<nat>, timeMark: uint64, wantWrite: bool, r: Ready)
    requires timeMark <= r.now
    ensures var h := HandleRound(ss, timeMark, wantWrite, r);
      var due := r.ret >= 0 && r.now - timeMark >= 1000;
      && TimerCount(h.calls) == (if due then 1 else 0)
      && (due ==> h.calls != [] && h.calls[0] == Call(OnTimer(r.timerOk), ss))
      && h.timeMark == (if due && r.timerOk then r.later else timeMark)
  {
    var h, timer, moved := HandleRound(ss, timeMark, wantWrite, r), TimerCalls(ss, timeMark, r), TransferCalls(ss, wantWrite, r);
    assert TimerDue(timeMark, r.now) <==> r.now - timeMark >= 1000;
    assert timer != [] ==> timer[1..] == [];
    TimerCountOfConcat(timer, moved);
    NoTimerIn(moved);
    assert h.calls == timer || h.calls == timer + moved;
  }

  // What a session does between its opening and its closing while the server stays started and the
  // environment answers with rounds: the rounds performed, and their calls.
  datatype Body = Body(isOk: bool, performed: nat, calls: seq<Call>)
  {
    function After(earlier: seq<Call>): Body { Body(isOk, performed + 1, earlier + calls) }
  }

  function SessionBody(ss: Option<nat>, timeMark: uint64, rounds: seq<(bool, Ready)>): (b: Body)
    ensures b.performed <= |rounds|
    decreases |rounds|
  {
    if rounds == [] then Body(true, 0, [])
    else
      var h := HandleRound(ss, timeMark, rounds[0].0, rounds[0].1);
      var calls := PrepareCalls(ss, rounds[0].0) + h.calls;
      if !h.isOk then Body(false, 1, calls) else SessionBody(ss, h.timeMark, rounds[1..]).After(calls)
  }

  lemma RoundCalls(ss: Option<nat>, timeMark: uint64, wantWrite: bool, r: Ready)
    ensures var h := HandleRound(ss, timeMark, wantWrite, r);
      var calls := PrepareCalls(ss, wantWrite) + h.calls;
      && UsesOnly(calls, ss) && FailsOnlyLast(calls) && (LastFails(calls) <==> LastFails(h.calls))
      && (h.isOk ==> !LastFails(calls) && r.ret >= 0) && (!h.isOk ==> LastFails(calls) || r.ret < 0)
  {
    RoundStopsAtFirstFailure(ss, timeMark, wantWrite, r);
    FailureOfConcat(PrepareCalls(ss, wantWrite), HandleRound(ss, timeMark, wantWrite, r).calls);
  }

  // It ended well after all rounds, or at a call that failed, or at a performed round whose select failed.
  predicate StopsRight(b: Body, ss: Option<nat>, rounds: seq<(bool, Ready)>)
    requires b.performed <= |rounds|
  {
    && UsesOnly(b.calls, ss) && FailsOnlyLast(b.calls)
    && (forall k | 0 <= k < b.performed - 1 :: rounds[k].1.ret >= 0)
    && if b.isOk then b.performed == |rounds| && !LastFails(b.calls) && (rounds != [] ==> rounds[|rounds| - 1].1.ret >= 0)
       else b.performed > 0 && (LastFails(b.calls) || rounds[b.performed - 1].1.ret < 0)
  }

  lemma GoodRoundFirst(b: Body, ss: Option<nat>, rounds: seq<(bool, Ready)>, calls: seq<Call>)
    requires rounds != [] && b.performed < |rounds| && StopsRight(b, ss, rounds[1..])
    requires UsesOnly(calls, ss) && FailsOnlyLast(calls) && !LastFails(calls) && rounds[0].1.ret >= 0
    ensures StopsRight(b.After(calls), ss, rounds)
  {
    FailureOfConcat(calls, b.calls);
    assert forall k | 0 < k < |rounds| :: rounds[k] == rounds[1..][k - 1];
  }

  /** A session only calls into itself and stops with its first failure: it ends well after all rounds, or
      at a call that fails, or at a round it performed in which select fails, and in no other way. */
  lemma {:induction false} SessionStopsAtFirstFailure(ss: Option<nat>, timeMark: uint64, rounds: seq<(bool, Ready)>)
    ensures StopsRight(SessionBody(ss, timeMark, rounds), ss, rounds)
    decreases |rounds|
  {
    if rounds != [] {
      var (wantWrite, r) := rounds[0];
      var h := HandleRound(ss, timeMark, wantWrite, r);
      RoundCalls(ss, timeMark, wantWrite, r);
      if h.isOk {
        SessionStopsAtFirstFailure(ss, h.timeMark, rounds[1..]);
        GoodRoundFirst(SessionBody(ss, h.timeMark, rounds[1..]), ss, rounds, PrepareCalls(ss, wantWrite) + h.calls);
      }
    }
  }

  // A clock that does not step back over the rounds of a session.
  predicate ClockRuns(from: uint64, rounds: seq<(bool, Ready)>)
    decreases |rounds|
  {
    rounds != [] ==> from <= rounds[0].1.now <= rounds[0].1.later && ClockRuns(rounds[0].1.later, rounds[1..])
  }

  // When the timer is called in a session: the clock readings of the rounds whose calls have one.
  function TimerTimes(ss: Option<nat>, timeMark: uint64, rounds: seq<(bool, Ready)>): seq<uint64>
    decreases |rounds|
  {
    if rounds == [] then []
    else
      var h := HandleRound(ss, timeMark, rounds[0].0, rounds[0].1);
      (if TimerCount(h.calls) > 0 then [rounds[0].1.now] else []) +
      if h.isOk then TimerTimes(ss, h.timeMark, rounds[1..]) else []
  }

  predicate ATickApart(times: seq<uint64>, mark: uint64)
    decreases |times|
  {
    times != [] ==> times[0] - mark >= 1000 && ATickApart(times[1..], times[0])
  }

  lemma EarlierTick(times: seq<uint64>, mark: uint64, now: uint64, later: uint64)
    requires ATickApart(times, later) && now <= later && now - mark >= 1000
    ensures ATickApart([now] + times, mark)
  {
    assert ([now] + times)[1..] == times;
  }

  /** Over a session on a clock that does not step back, the timer's calls are those at TimerTimes, the first
      at least 1000 ms after the session began and any two at least 1000 ms apart. */
  lemma {:induction false} TimerCallsAreATickApart(ss: Option<nat>, timeMark: uint64, from: uint64, rounds: seq<(bool, Ready)>)
    requires timeMark <= from && ClockRuns(from, rounds)
    ensures var times := TimerTimes(ss, timeMark, rounds);
      |times| == TimerCount(SessionBody(ss, timeMark, rounds).calls) && ATickApart(times, timeMark)
    decreases |rounds|
  {
    if rounds != [] {
      var (wantWrite, r) := rounds[0];
      var h, prep := HandleRound(ss, timeMark, wantWrite, r), PrepareCalls(ss, wantWrite);
      TimerRunsIffATickHasPassed(ss, timeMark, wantWrite, r);
      TimerCountOfConcat(prep, h.calls);
      NoTimerIn(prep);
      if h.isOk {
        TimerCallsAreATickApart(ss, h.timeMark, r.later, rounds[1..]);
        var rest := TimerTimes(ss, h.timeMark, rounds[1..]);
        TimerCountOfConcat(prep + h.calls, SessionBody(ss, h.timeMark, rounds[1..]).calls);
        if TimerCount(h.calls) > 0 {
          TimerSucceeded(ss, timeMark, wantWrite, r);
          EarlierTick(rest, timeMark, r.now, r.later);
        } else {
          assert [] + rest == rest;
        }
      } else if TimerCount(h.calls) > 0 {
        EarlierTick([], timeMark, r.now, r.now);
        assert [r.now] + [] == [r.now];
      }
    }
  }

  // A round that goes well with a timer call has had it succeed.
  lemma TimerSucceeded(ss: Option<nat>, timeMark: uint64, wantWrite: bool, r: Ready)
    requires timeMark <= r.now
    requires HandleRound(ss, timeMark, wantWrite, r).isOk && TimerCount(HandleRound(ss, timeMark, wantWrite, r).calls) > 0
    ensures HandleRound(ss, timeMark, wantWrite, r).timeMark == r.later && r.now - timeMark >= 1000
  {
    TimerRunsIffATickHasPassed(ss, timeMark, wantWrite, r);
  }

  // Where the session loop stands: the calls of the rounds performed, then those of the rest.
  ghost predicate BodyAt(whole: Body, ss: Option<nat>, timeMark: uint64, rounds: seq<(bool, Ready)>, isOk: bool, k: nat, mid: seq<Call>) {
    k <= |rounds| &&
    if !isOk then whole == Body(false, k, mid)
    else
      var rest := SessionBody(ss, timeMark, rounds[k..]);
      whole == Body(rest.isOk, k + rest.performed, mid + rest.calls)
  }

  lemma BodyStep(whole: Body, ss: Option<nat>, timeMark: uint64, rounds: seq<(bool, Ready)>, k: nat, mid: seq<Call>)
    requires k < |rounds| && BodyAt(whole, ss, timeMark, rounds, true, k, mid)
    ensures var h := HandleRound(ss, timeMark, rounds[k].0, rounds[k].1);
      BodyAt(whole, ss, h.timeMark, rounds, h.isOk, k + 1, mid + (PrepareCalls(ss, rounds[k].0) + h.calls))
  {
    var h := HandleRound(ss, timeMark, rounds[k].0, rounds[k].1);
    assert rounds[k..][0] == rounds[k] && rounds[k..][1..] == rounds[k + 1..];
    if h.isOk {
      Associate(mid, PrepareCalls(ss, rounds[k].0) + h.calls, SessionBody(ss, h.timeMark, rounds[k + 1..]).calls);
    }
  }

  // ---------- the code ----------

  datatype Holder = Nobody | IoThread | WindowThread

  datatype BindResult = Bound | InUse | Refused(error: int)
  datatype Scan = Found(port: uint16) | GaveUp | StillScanning

  /** The shared globals of the server. */
  class Server {
    var mutexAlive: bool
    var holder: Holder
    var ss: Option<nat>
    var started: bool
    var sessions: nat // how many sessions were ever created

    constructor ()
      ensures !mutexAlive && holder == Nobody && ss == None && !started && sessions == 0
    {
      mutexAlive, holder, ss, started, sessions := false, Nobody, None, false, 0;
    }

    method LockMutex(who: Holder)
      requires mutexAlive && holder == Nobody && who != Nobody
      modifies this`holder
      ensures holder == who
    {
      holder := who;
    }

    method UnLockMutex(who: Holder)
      requires mutexAlive && holder == who && who != Nobody
      modifies this`holder
      ensures holder == Nobody
    {
      holder := Nobody;
    }

    method OpenSession() returns (calls: seq<Call>)
      requires mutexAlive && holder == Nobody
      modifies this`holder, this`ss, this`sessions
      ensures holder == Nobody && ss == Some(old(sessions)) && sessions == old(sessions) + 1
      ensures calls == [Call(OnClientSession, ss)]
    {
      LockMutex(IoThread);
      ss := Some(sessions);
      sessions := sessions + 1;
      calls := [Call(OnClientSession, ss)];
      UnLockMutex(IoThread);
    }

    method PrepareSets(has: bool) returns (wantWrite: bool, calls: seq<Call>)
      requires mutexAlive && holder == Nobody
      modifies this`holder
      ensures holder == Nobody && wantWrite == has && calls == PrepareCalls(ss, has)
    {
      LockMutex(IoThread);
      wantWrite := false;
      calls := [Call(ReadFd, ss), Call(HasDataToSend(has), ss)];
      if has {
        wantWrite := true;
      }
      UnLockMutex(IoThread);
    }

    // The socket part of the handle block: receive first, send only if that went well.
    method TransferData(wantWrite: bool, r: Ready) returns (isOk: bool, calls: seq<Call>)
      ensures calls == TransferCalls(ss, wantWrite, r)
      ensures isOk <==> (r.canRead ==> r.recvOk) && (wantWrite && r.canWrite ==> r.sendOk)
    {
      isOk, calls := true, [Call(ReadFd, ss)];
      if r.canRead {
        calls := calls + [Call(OnRecvData(r.recvOk), ss)];
        if !r.recvOk {
          return false, calls;
        }
      }
      calls := calls + [Call(ReadFd, ss)];
      if wantWrite && r.canWrite {
        calls := calls + [Call(OnSendData(r.sendOk), ss)];
        if !r.sendOk {
          return false, calls;
        }
      }
    }

    /** One pass through the handle block, with its goto exits; every exit releases the lock. */
    method HandleBlock(mark: uint64, wantWrite: bool, r: Ready) returns (isOk: bool, timeMark: uint64, calls: seq<Call>)
      requires mutexAlive && holder == Nobody
      modifies this`holder
      ensures holder == Nobody
      ensures Handled(isOk, timeMark, calls) == HandleRound(ss, mark, wantWrite, r)
    {
      isOk, timeMark, calls := true, mark, [];
      LockMutex(IoThread);
      label HANDLE_END_POINT: {
        if r.ret < 0 {
          isOk := false;
          break HANDLE_END_POINT;
        }
        if (r.now - timeMark) % TWO64 >= NM_TIMER_TICK {
          calls := calls + [Call(OnTimer(r.timerOk), ss)];
          if !r.timerOk {
            isOk := false;
            break HANDLE_END_POINT;
          } else {
            timeMark := r.later;
          }
        }
        if r.ret == 0 {
          break HANDLE_END_POINT;
        } else {
          var transferred;
          isOk, transferred := TransferData(wantWrite, r);
          calls := calls + transferred;
        }
      }
      UnLockMutex(IoThread);
    }

    method CloseSession() returns (calls: seq<Call>)
      requires mutexAlive && holder == Nobody
      modifies this`holder, this`ss
      ensures holder == Nobody && ss == None && calls == [Call(CloseClientSession, old(ss))]
    {
      LockMutex(IoThread);
      calls := [Call(CloseClientSession, ss)];
      ss := None;
      UnLockMutex(IoThread);
    }

    /** A whole session without interference: rounds are the answers of the environment while the
        server stays started; the loop leaves early when a round fails. */
    method HandleClientControl(now: uint64, rounds: seq<(bool, Ready)>) returns (isOk: bool, performed: nat, log: seq<Call>)
      requires mutexAlive && holder == Nobody && ss == None
      modifies this`holder, this`ss, this`sessions
      ensures holder == Nobody && ss == None && sessions == old(sessions) + 1
      ensures var id := Some(old(sessions));
        var body := SessionBody(id, now, rounds);
        && isOk == body.isOk && performed == body.performed
        && log == [Call(OnClientSession, id)] + body.calls + [Call(CloseClientSession, id)]
    {
      var timeMark := now;
      log := OpenSession();
      isOk, performed := true, 0;
      ghost var id := ss;
      ghost var whole, mid: seq<Call> := SessionBody(id, now, rounds), [];
      while isOk && performed < |rounds|
        invariant 0 <= performed <= |rounds| && holder == Nobody && ss == id == Some(old(sessions))
        invariant sessions == old(sessions) + 1 && log == [Call(OnClientSession, id)] + mid
        invariant BodyAt(whole, id, timeMark, rounds, isOk, performed, mid)
      {
        ghost var mark := timeMark;
        var wantWrite, prep := PrepareSets(rounds[performed].0);
        var handled;
        isOk, timeMark, handled := HandleBlock(timeMark, wantWrite, rounds[performed].1);
        BodyStep(whole, id, mark, rounds, performed, mid);
        Associate([Call(OnClientSession, id)], mid, prep + handled);
        log := log + (prep + handled);
        mid := mid + (prep + handled);
        performed := performed + 1;
      }
      var calls := CloseSession();
      log := log + calls;
      if isOk { Associate(mid, [], []); }
    }

    method OnWindowNotify(isClip: bool, entered: bool, ok: bool) returns (ret: bool, calls: seq<Call>)
      requires mutexAlive && holder == Nobody
      modifies this`holder
      ensures holder == Nobody && calls == NotifyCalls(ss, isClip, entered, ok)
      ensures ret == (ss == None || (isClip && (entered ==> ok)))
    {
      ret, calls := true, [];
      LockMutex(WindowThread);
      if ss != None {
        if isClip {
          calls := [Call(IsEntered(entered), ss)];
          if entered {
            calls := calls + [Call(SendClipDataMsg(ok), ss)];
            ret := ok;
          } else {
            ret := true;
          }
        } else {
          ret := false;
        }
      }
      UnLockMutex(WindowThread);
    }

    /** The port loop. outcomes are the successive answers of bind; when they run out the loop is
        still scanning. The counter is 16 bit. */
    method ScanPorts(portBeg: uint16, portEnd: uint16, outcomes: seq<BindResult>) returns (scan: Scan)
      requires portBeg <= portEnd
      ensures scan == ScanOutcome(portBeg, portEnd, outcomes)
    {
      var port: uint16 := portBeg;
      var k := 0;
      while port <= portEnd
        invariant 0 <= k <= |outcomes| && port == (portBeg + k) % TWO16
        invariant forall i | 0 <= i < k :: outcomes[i] == InUse
        invariant portEnd < 0xFFFF ==> portBeg + k <= portEnd + 1
        decreases |outcomes| - k
      {
        DecisiveAtLeast(outcomes, k);
        if k == |outcomes| {
          return StillScanning;
        }
        match outcomes[k]
        case Bound => DecisiveIs(outcomes, k); return Found(port);
        case Refused(_) => DecisiveIs(outcomes, k); return GaveUp;
        case InUse =>
        k := k + 1;
        port := (port + 1) % TWO16;
      }
      DecisiveAtLeast(outcomes, k);
      return GaveUp;
    }

    /** Srv_Start after address lookup. A failing listen closes the socket but does not stop the start. */
    method Start(scan: Scan, listens: bool, windowStarts: bool) returns (ret: bool, socketValid: bool)
      requires !mutexAlive && !started && holder == Nobody && scan != StillScanning
      modifies this`mutexAlive, this`ss, this`started
      ensures ret == (scan.Found? && windowStarts)
      ensures mutexAlive == started == ret
      ensures scan.Found? ==> ss == None
      ensures socketValid == (ret && listens)
    {
      socketValid := true;
      if !scan.Found? {
        return false, false;
      }
      if !listens {
        socketValid := false;
      }
      mutexAlive := true;
      ss := None;
      if !windowStarts {
        mutexAlive := false;
        return false, false;
      }
      started := true;
      return true, socketValid;
    }
  }

  // The scan, given how many answers say "in use" first: only a bound below 65535 can stop it.
  function ScanOutcome(portBeg: uint16, portEnd: uint16, outcomes: seq<BindResult>): Scan {
    var d := Decisive(outcomes);
    if portEnd < 0xFFFF && d > portEnd - portBeg then GaveUp
    else if d == |outcomes| then StillScanning
    else if outcomes[d] == Bound then Found((portBeg + d) % TWO16)
    else GaveUp
  }

  /** With every port taken, a scan that has tried its whole range is over unless the range ends at
      65535: then it wraps and goes on for ever, whatever the number of attempts. */
  lemma ScanOfTakenPortsEndsIff(portBeg: uint16, portEnd: uint16, outcomes: seq<BindResult>)
    requires portBeg <= portEnd && |outcomes| > portEnd - portBeg
    requires forall i | 0 <= i < |outcomes| :: outcomes[i] == InUse
    ensures ScanOutcome(portBeg, portEnd, outcomes) == (if portEnd == 0xFFFF then StillScanning else GaveUp)
  {
    DecisiveAtLeast(outcomes, |outcomes|);
  }

  /** A port is found inside the range exactly when it is found within the range's length; below
      65535 that is always, and it is then the first port of the range that bind accepts. */
  lemma FoundPortLiesInRangeIff(portBeg: uint16, portEnd: uint16, outcomes: seq<BindResult>)
    requires portBeg <= portEnd && ScanOutcome(portBeg, portEnd, outcomes).Found?
    ensures var p := ScanOutcome(portBeg, portEnd, outcomes).port;
      && (portBeg <= p && Decisive(outcomes) < TWO16 <==> Decisive(outcomes) <= 0xFFFF - portBeg)
      && (portEnd < 0xFFFF ==> portBeg <= p <= portEnd && p - portBeg == Decisive(outcomes) && outcomes[p - portBeg] == Bound)
  {
  }

  // How many ports bind reports as taken before the first other answer.
  function Decisive(outcomes: seq<BindResult>): (d: nat)
    ensures d <= |outcomes|
  {
    if outcomes == [] || outcomes[0] != InUse then 0 else 1 + Decisive(outcomes[1..])
  }

  lemma {:induction false} DecisiveAtLeast(outcomes: seq<BindResult>, k: nat)
    requires k <= |outcomes| && forall i | 0 <= i < k :: outcomes[i] == InUse
    ensures Decisive(outcomes) >= k
    decreases k
  {
    if k > 0 { DecisiveAtLeast(outcomes[1..], k - 1); }
  }

  lemma {:induction false} DecisiveIs(outcomes: seq<BindResult>, k: nat)
    requires k < |outcomes| && outcomes[k] != InUse && forall i | 0 <= i < k :: outcomes[i] == InUse
    ensures Decisive(outcomes) == k
    decreases k
  {
    if k > 0 { DecisiveIs(outcomes[1..], k - 1); }
  }
}
