/** Sending and receiving a whole buffer over a transport that moves arbitrary chunks, under a
    shrinking time budget. */
module Transfer {
  import opened Sequences
  import opened Widths

  // How one select and socket call ends: select times out or fails, or the socket call reports n
  // (negative: it failed; 0: nothing, for recv the peer has closed).
  datatype Inner = SelectTimeout | SelectError | Reports(n: int)

  // One inner call and the clock read around it; the clock may step backwards.
  datatype Attempt = Attempt(inner: Inner, begin: uint64, end: uint64)
  {
    // end - begin in 64 bit unsigned arithmetic
    // The time the call took, read off a counter that wraps.
    function Elapsed(): (e: uint64)
      ensures (begin + e) % TWO64 == end
    { if end >= begin then end - begin else end - begin + TWO64 }
  }

  // The environment: the k-th inner call of a transfer.
  type Script = nat -> Attempt

  // The inner call's contract: at most room bytes move, or 0 or -1 is returned.
  function Returned(inner: Inner, room: nat): (n: int)
    ensures -1 <= n <= room
    ensures inner.Reports? && -1 <= inner.n <= room ==> n == inner.n
    ensures !inner.Reports? ==> n == -1
  {
    match inner
    case SelectTimeout | SelectError => -1
    case Reports(n) => if n < 0 then -1 else if n > room then room else n
  }

  // uint_64_t *timeout: how long to wait, for ever if it is NULL.
  datatype Budget = Unlimited | Within(ms: uint64)

  // An inner call at either end: the budget it was given, what it returned, and the bytes it moved.
  datatype InnerCall = InnerCall(put: bool, budget: Budget, n: int, bytes: seq<uint8>)

  function Call(put: bool, data: seq<uint8>, budget: Budget, n: int): InnerCall
    requires n <= |data|
  {
    InnerCall(put, budget, n, if n > 0 then data[..n] else [])
  }

  // How many bytes a return value stands for.
  function Count(n: int): nat { if n > 0 then n else 0 }

  function Min(a: int, b: int): int { if a < b then a else b }

  // ---------- a transfer as a value ----------

  // Return value, bytes moved, whether the loop's own deadline test ended it, and its inner calls.
  datatype Outcome = Outcome(ret: int, moved: nat, deadline: bool, calls: seq<InnerCall>)
  {
    function After(earlier: seq<InnerCall>): Outcome { this.(calls := earlier + calls) }
  }

  // What an inner call leads to: the end of the transfer, or another round.
  datatype Next = Done(outcome: Outcome) | Again(call: InnerCall, moved: nat, left: Budget)

  // A transfer at one end. data is what there is to move: the buffer to send, or for a receiver the bytes
  // the stream holds for it until it returns.
  datatype Job = Job(put: bool, data: seq<uint8>, len: int, timeout: Budget, script: Script)
  {
    function Answer(moved: nat, k: nat): (n: int)
      requires moved < len && moved <= |data|
      ensures -1 <= n <= |data| - moved && moved + n <= len
    {
      Returned(script(k).inner, Min(len, |data|) - moved)
    }

    function KthCall(moved: nat, left: Budget, k: nat): (call: InnerCall)
      requires moved < len && moved <= |data|
      ensures call.budget == left && |call.bytes| == Count(call.n) && call.n == Answer(moved, k)
    {
      Call(put, data[moved..], left, Answer(moved, k))
    }

    function Next(moved: nat, left: Budget, k: nat): (next: Next)
      requires moved < len && moved <= |data|
      ensures next.Again? ==> moved < next.moved == moved + next.call.n <= len && next.moved <= |data|
    {
      var n, e, call := Answer(moved, k), script(k).Elapsed(), KthCall(moved, left, k);
      if n <= 0 then Done(Outcome(n, moved, false, [call]))
      else if moved + n == len || left.Unlimited? then Again(call, moved + n, left)
      else if e < left.ms then Again(call, moved + n, Within(left.ms - e))
      else Done(Outcome(-1, moved + n, true, [call]))
    }

    // The loop from its k-th inner call on.
    function From(moved: nat, left: Budget, k: nat): Outcome
      requires moved <= |data|
      decreases len - moved
    {
      if moved >= len then Outcome(moved, moved, false, [])
      else
        match Next(moved, left, k)
        case Done(o) => o
        case Again(call, moved', left') => From(moved', left', k + 1).After([call])
    }

    function Run(): Outcome { From(0, timeout, 0) }
  }

  // ---------- the byte stream ----------

  // Any interleaving of both ends' inner calls on a FIFO stream: puts append to the wire, a taking call gets
  // the next bytes of what is on the wire at that moment.
  ghost predicate Fifo(history: seq<InnerCall>, wire: seq<uint8>, taken: nat) {
    if history == [] then wire == [] && taken == 0
    else
      var before, last := history[..|history| - 1], history[|history| - 1];
      var n := |last.bytes|;
      if last.put then n <= |wire| && wire[|wire| - n..] == last.bytes && Fifo(before, wire[..|wire| - n], taken)
      else n <= taken <= |wire| && wire[taken - n..taken] == last.bytes && Fifo(before, wire, taken - n)
  }

  lemma PutKeepsFifo(history: seq<InnerCall>, wire: seq<uint8>, taken: nat, call: InnerCall)
    requires Fifo(history, wire, taken) && call.put
    ensures Fifo(history + [call], wire + call.bytes, taken)
  {
    assert (history + [call])[..|history|] == history;
    assert (wire + call.bytes)[..|wire|] == wire;
  }

  lemma TakeKeepsFifo(history: seq<InnerCall>, wire: seq<uint8>, taken: nat, call: InnerCall)
    requires Fifo(history, wire, taken) && !call.put
    requires taken <= |wire| && call.bytes <= wire[taken..]
    ensures Fifo(history + [call], wire, taken + |call.bytes|)
  {
    assert (history + [call])[..|history|] == history;
    assert wire[taken..taken + |call.bytes|] == wire[taken..][..|call.bytes|];
  }

  /** The stream: everything ever put on it, how much of it has been taken off, and as a ghost every inner
      call made on it. */
  class Pipe {
    var wire: seq<uint8>
    var taken: nat
    ghost var history: seq<InnerCall>

    ghost predicate Valid() reads this { taken <= |wire| }

    ghost predicate IsFifo() reads this { Fifo(history, wire, taken) }

    constructor ()
      ensures Valid() && IsFifo() && wire == [] && taken == 0 && history == []
    {
      wire, taken, history := [], 0, [];
    }

    // send has put the first n bytes of data on the wire, if n > 0.
    method Put(data: seq<uint8>, timeout: Budget, n: int)
      requires Valid() && n <= |data|
      modifies this`wire, this`history
      ensures var call := Call(true, data, timeout, n);
        Valid() && wire == old(wire) + call.bytes && history == old(history) + [call]
      ensures old(IsFifo()) ==> IsFifo()
    {
      ghost var call := Call(true, data, timeout, n);
      if IsFifo() { PutKeepsFifo(history, wire, taken, call); }
      if n > 0 {
        wire := wire + data[..n];
      }
      history := history + [call];
    }

    // recv has taken the next n bytes off the stream, if n > 0.
    method Take(timeout: Budget, n: int) returns (bytes: seq<uint8>)
      requires Valid() && taken + n <= |wire|
      modifies this`taken, this`history
      ensures var call := Call(false, wire[old(taken)..], timeout, n);
        Valid() && bytes == call.bytes && taken == old(taken) + |bytes| && history == old(history) + [call]
      ensures old(IsFifo()) ==> IsFifo()
    {
      ghost var call := Call(false, wire[taken..], timeout, n);
      if IsFifo() { TakeKeepsFifo(history, wire, taken, call); }
      bytes := [];
      if n > 0 {
        bytes := wire[taken..][..n];
        taken := taken + n;
      }
      history := history + [call];
    }
  }

  // ---------- one inner call ----------

  // The last argument of select: a timeval, or NULL.
  datatype Wait = Endless | Timeval(sec: int, usec: int)

  // (long) of a 64 bit value: its low 32 bits, read as a signed number
  function Long(x: uint64): (l: int)
    ensures -0x8000_0000 <= l < 0x8000_0000 && (x - l) % TWO32 == 0
  {
    var u := x % TWO32;
    if u >= 0x8000_0000 then u - TWO32 else u
  }

  function TimevalOf(ms: uint64): (tv: Wait)
    ensures tv.Timeval?
  {
    Timeval(Long(ms / 1000), Long(ms % 1000 * 1000))
  }

  function Waits(timeout: Budget): Wait {
    if timeout.Unlimited? then Endless else TimevalOf(timeout.ms)
  }

  /** select waits for the timeout asked for exactly when its seconds fit a long. */
  lemma TimevalIsTimeoutIff(ms: uint64)
    ensures var tv := TimevalOf(ms); tv.sec * 1_000_000 + tv.usec == ms * 1000 <==> ms / 1000 < 0x8000_0000
  {
    assert Long(ms % 1000 * 1000) == ms % 1000 * 1000;
    assert ms == ms / 1000 * 1000 + ms % 1000;
  }

  /** Com_send_timeout: the first n bytes of data go on the wire, if the call reports any. */
  method SendTimeout(pipe: Pipe, data: seq<uint8>, timeout: Budget, attempt: Attempt) returns (n: int, tv: Wait)
    requires data != [] // the inner assertion len > 0
    requires pipe.Valid()
    modifies pipe`wire, pipe`history
    ensures n == Returned(attempt.inner, |data|) && tv == Waits(timeout)
    ensures var call := Call(true, data, timeout, n);
      pipe.Valid() && pipe.wire == old(pipe.wire) + call.bytes && pipe.history == old(pipe.history) + [call]
    ensures old(pipe.IsFifo()) ==> pipe.IsFifo()
  {
    tv := if timeout.Within? then TimevalOf(timeout.ms) else Endless;
    if attempt.inner.SelectTimeout? {
      n := -1;
    } else if attempt.inner.SelectError? {
      n := -1;
    } else {
      n := Returned(attempt.inner, |data|);
    }
    pipe.Put(data, timeout, n);
  }

  /** Com_recv_timeout: the next n bytes of the stream go to buf at offset at. */
  method RecvTimeout(pipe: Pipe, buf: array<uint8>, at: nat, len: int, timeout: Budget, attempt: Attempt)
    returns (n: int, tv: Wait)
    requires len > 0 // the inner assertion
    requires pipe.Valid() && at + len <= buf.Length
    modifies pipe`taken, pipe`history, buf
    ensures n == Returned(attempt.inner, Min(len, |pipe.wire| - old(pipe.taken))) && tv == Waits(timeout)
    ensures var call := Call(false, pipe.wire[old(pipe.taken)..], timeout, n);
      && pipe.Valid() && pipe.taken == old(pipe.taken) + Count(n) && pipe.history == old(pipe.history) + [call]
      && (forall j | 0 <= j < Count(n) :: buf[at + j] == call.bytes[j])
    ensures forall j | 0 <= j < at || at + Count(n) <= j < buf.Length :: buf[j] == old(buf[j])
    ensures old(pipe.IsFifo()) ==> pipe.IsFifo()
  {
    tv := if timeout.Within? then TimevalOf(timeout.ms) else Endless;
    if attempt.inner.SelectTimeout? {
      n := -1;
    } else if attempt.inner.SelectError? {
      n := -1;
    } else {
      n := Returned(attempt.inner, Min(len, |pipe.wire| - pipe.taken));
    }
    var bytes := pipe.Take(timeout, n);
    Copy(buf, at, bytes);
  }

  // What recv does to the buffer.
  method Copy(buf: array<uint8>, at: nat, bytes: seq<uint8>)
    requires at + |bytes| <= buf.Length
    modifies buf
    ensures forall j | 0 <= j < |bytes| :: buf[at + j] == bytes[j]
    ensures forall j | 0 <= j < at || at + |bytes| <= j < buf.Length :: buf[j] == old(buf[j])
  {
    var i := 0;
    while i < |bytes|
      invariant 0 <= i <= |bytes|
      invariant forall j | 0 <= j < i :: buf[at + j] == bytes[j]
      invariant forall j | 0 <= j < at || at + i <= j < buf.Length :: buf[j] == old(buf[j])
    {
      buf[at + i] := bytes[i];
      i := i + 1;
    }
  }

  // ---------- the loops ----------

  /** All or an error: the length is returned exactly when all bytes were moved, otherwise 0 or -1. */
  lemma {:induction false} LengthMeansAll(job: Job, moved: nat, left: Budget, k: nat)
    requires moved <= |job.data| && (moved == 0 || moved <= job.len)
    ensures var o := job.From(moved, left, k);
      (o.ret == job.len <==> o.moved == job.len) && o.ret in {job.len, 0, -1}
    decreases job.len - moved
  {
    if moved < job.len {
      match job.Next(moved, left, k)
      case Done(o) =>
      case Again(_, moved', left') => LengthMeansAll(job, moved', left', k + 1);
    }
  }

  // Where a loop stands: the calls done, followed by the rest, are the whole transfer.
  ghost predicate At(job: Job, whole: Outcome, done: seq<InnerCall>, moved: nat, left: Budget, k: nat) {
    moved <= |job.data| && whole == job.From(moved, left, k).After(done)
  }

  // Where the k-th call leaves either loop.
  ghost predicate Stepped(job: Job, whole: Outcome, done: seq<InnerCall>, moved: nat, left: Budget, k: nat)
    requires moved < job.len && moved <= |job.data|
  {
    match job.Next(moved, left, k)
    case Done(o) => whole == Outcome(o.ret, o.moved, o.deadline, done)
    case Again(_, moved', left') => At(job, whole, done, moved', left', k + 1)
  }

  lemma StepAt(job: Job, whole: Outcome, done: seq<InnerCall>, moved: nat, left: Budget, k: nat)
    requires moved < job.len && At(job, whole, done, moved, left, k)
    ensures Stepped(job, whole, done + [job.KthCall(moved, left, k)], moved, left, k)
  {
    match job.Next(moved, left, k)
    case Done(o) =>
    case Again(call, moved', left') => Associate(done, [call], job.From(moved', left', k + 1).calls);
  }

  // What both loops do with the answer n: return, or go on with what is left of the time.
  method Decide(n: int, bt: nat, len: int, timeLeft: Budget, attempt: Attempt,
                ghost job: Job, ghost k: nat, ghost whole: Outcome, ghost done: seq<InnerCall>)
    returns (stop: bool, ret: int, moved: nat, left: Budget, deadline: bool)
    requires bt < len == job.len && bt <= |job.data| && n == job.Answer(bt, k) && attempt == job.script(k)
    requires Stepped(job, whole, done, bt, timeLeft, k)
    ensures moved == bt + Count(n)
    ensures if stop then whole == Outcome(ret, moved, deadline, done)
            else n > 0 && !deadline && At(job, whole, done, moved, left, k + 1)
  {
    stop, ret, moved, left, deadline := false, 0, bt, timeLeft, false;
    if n == 0 || n == -1 {
      return true, n, bt, timeLeft, false;
    }
    moved := moved + n;
    if moved == len {
      return;
    }
    if timeLeft.Within? {
      var elapsed := attempt.Elapsed();
      if elapsed < timeLeft.ms {
        left := Within(timeLeft.ms - elapsed);
      } else {
        return true, -1, moved, timeLeft, true;
      }
    }
  }

  lemma PrefixGrows(w: seq<uint8>, data: seq<uint8>, moved: nat, n: nat, len: nat)
    requires moved + n <= len <= |data|
    ensures w + data[..moved] + data[moved..len][..n] == w + data[..moved + n]
    ensures data[moved..len][..n] == data[moved..][..n]
  {
  }

  // The inner call of one iteration of Com_send_all_timeout.
  method SendNext(pipe: Pipe, buf: seq<uint8>, bt: nat, len: int, left: Budget, attempt: Attempt, ghost w0: seq<uint8>)
    returns (n: int)
    requires bt < len <= |buf| && pipe.Valid() && pipe.wire == w0 + buf[..bt]
    modifies pipe`wire, pipe`history
    ensures n == Returned(attempt.inner, len - bt) && pipe.Valid() && pipe.wire == w0 + buf[..bt + Count(n)]
    ensures pipe.history == old(pipe.history) + [Call(true, buf[bt..], left, n)]
  {
    var tv;
    n, tv := SendTimeout(pipe, buf[bt..len], left, attempt);
    PrefixGrows(w0, buf, bt, Count(n), len);
  }

  /** Com_send_all_timeout: on every exit the inner calls, with the budgets they got and the bytes they put on
      the wire, the count and the result are those of the job. */
  method SendAll(pipe: Pipe, buf: seq<uint8>, len: int, timeout: Budget, script: Script)
    returns (ret: int, bt: int, deadline: bool, ghost done: seq<InnerCall>)
    requires pipe.Valid() && len <= |buf|
    modifies pipe`wire, pipe`history
    ensures bt >= 0 && Job(true, buf, len, timeout, script).Run() == Outcome(ret, bt, deadline, done)
    ensures (ret == len <==> bt == len) && ret in {len, 0, -1}
    ensures pipe.Valid() && pipe.history == old(pipe.history) + done
    ensures bt <= |buf| && pipe.wire == old(pipe.wire) + buf[..bt]
  {
    var timeLeft, k := timeout, 0; // timeLeft is unused without a timeout
    ghost var job := Job(true, buf, len, timeout, script);
    bt, deadline, done := 0, false, [];
    ghost var w0, h0, whole := pipe.wire, pipe.history, job.Run();
    LengthMeansAll(job, 0, timeout, 0);
    while bt < len
      invariant 0 <= bt && (bt == 0 || bt <= len) && !deadline
      invariant pipe.Valid() && pipe.wire == w0 + buf[..bt] && pipe.history == h0 + done
      invariant At(job, whole, done, bt, timeLeft, k)
      decreases len - bt
    {
      var n, stop;
      n := SendNext(pipe, buf, bt, len, timeLeft, script(k), w0);
      StepAt(job, whole, done, bt, timeLeft, k);
      Associate(h0, done, [Call(true, buf[bt..], timeLeft, n)]);
      done := done + [Call(true, buf[bt..], timeLeft, n)];
      stop, ret, bt, timeLeft, deadline := Decide(n, bt, len, timeLeft, script(k), job, k, whole, done);
      if stop {
        return;
      }
      k := k + 1;
    }
    return bt, bt, false, done;
  }

  // The first moved cells hold those of data, the others what they held.
  ghost predicate Filled(cells: seq<uint8>, was: seq<uint8>, data: seq<uint8>, moved: nat) {
    && |cells| == |was| && moved <= |data| && moved <= |was|
    && (forall j | 0 <= j < moved :: cells[j] == data[j])
    && (forall j | moved <= j < |cells| :: cells[j] == was[j])
  }

  // The inner call of one iteration of Com_recv_all_timeout.
  method RecvNext(pipe: Pipe, buf: array<uint8>, bt: nat, len: int, left: Budget, attempt: Attempt,
                  ghost was: seq<uint8>, ghost start: nat, ghost data: seq<uint8>)
    returns (n: int)
    requires bt < len <= buf.Length
    requires pipe.Valid() && pipe.taken == start + bt && data == pipe.wire[start..] && Filled(buf[..], was, data, bt)
    modifies pipe`taken, pipe`history, buf
    ensures n == Returned(attempt.inner, Min(len, |data|) - bt) && Filled(buf[..], was, data, bt + Count(n))
    ensures pipe.Valid() && pipe.taken == start + bt + Count(n)
    ensures pipe.history == old(pipe.history) + [Call(false, data[bt..], left, n)]
  {
    assert pipe.wire[pipe.taken..] == data[bt..];
    ghost var cells := buf[..];
    var tv;
    n, tv := RecvTimeout(pipe, buf, bt, len - bt, left, attempt);
    assert forall j | 0 <= j < Count(n) :: data[bt..][j] == data[bt + j];
    assert forall j | 0 <= j < bt :: buf[j] == cells[j] == data[j];
    assert forall j | bt + Count(n) <= j < buf.Length :: buf[j] == cells[j] == was[j];
  }

  /** Com_recv_all_timeout. pipe.wire is what the peer has sent by the time this call ends; how it arrives in
      between is in the script. On every exit the next bt bytes of the stream are in buf, taken by the
      inner calls, with the budgets, of the job. */
  method RecvAll(pipe: Pipe, buf: array<uint8>, len: int, timeout: Budget, script: Script)
    returns (ret: int, bt: int, deadline: bool, ghost done: seq<InnerCall>)
    requires pipe.Valid() && len <= buf.Length
    modifies pipe`taken, pipe`history, buf
    ensures var data := pipe.wire[old(pipe.taken)..];
      && bt >= 0 && Job(false, data, len, timeout, script).Run() == Outcome(ret, bt, deadline, done)
      && bt <= |data| && bt <= buf.Length && Filled(buf[..], old(buf[..]), data, bt)
    ensures (ret == len <==> bt == len) && ret in {len, 0, -1}
    ensures pipe.Valid() && pipe.history == old(pipe.history) + done && pipe.taken == old(pipe.taken) + bt
  {
    var timeLeft, k := timeout, 0; // timeLeft is unused without a timeout
    bt, deadline, done := 0, false, [];
    ghost var start, h0, was, data := pipe.taken, pipe.history, buf[..], pipe.wire[pipe.taken..];
    ghost var job := Job(false, data, len, timeout, script);
    ghost var whole := job.Run();
    LengthMeansAll(job, 0, timeout, 0);
    while bt < len
      invariant 0 <= bt && (bt == 0 || bt <= len) && bt <= |data| && !deadline
      invariant pipe.Valid() && pipe.taken == start + bt && pipe.history == h0 + done
      invariant Filled(buf[..], was, data, bt)
      invariant At(job, whole, done, bt, timeLeft, k)
      decreases len - bt
    {
      var n, stop;
      n := RecvNext(pipe, buf, bt, len, timeLeft, script(k), was, start, data);
      StepAt(job, whole, done, bt, timeLeft, k);
      Associate(h0, done, [Call(false, data[bt..], timeLeft, n)]);
      done := done + [Call(false, data[bt..], timeLeft, n)];
      stop, ret, bt, timeLeft, deadline := Decide(n, bt, len, timeLeft, script(k), job, k, whole, done);
      if stop {
        return;
      }
      k := k + 1;
    }
    return bt, bt, false, done;
  }

  // ---------- the time budget ----------

  // Time spent by the calls k .. k+n-1.
  function Spent(script: Script, k: nat, n: nat): nat
    decreases n
  {
    if n == 0 then 0 else script(k).Elapsed() + Spent(script, k + 1, n - 1)
  }

  // The i-th budget is the timeout minus the time spent before it, positive from the second call on.
  predicate Budgeted(calls: seq<InnerCall>, left: Budget, script: Script, k: nat) {
    forall i | 0 <= i < |calls| ::
      if left.Unlimited? then calls[i].budget == Unlimited
      else calls[i].budget.Within? && calls[i].budget.ms == left.ms - Spent(script, k, i) && (i > 0 ==> calls[i].budget.ms > 0)
  }

  lemma BudgetedLater(call: InnerCall, later: seq<InnerCall>, left: Budget, left': Budget, script: Script, k: nat)
    requires call.budget == left && Budgeted(later, left', script, k + 1)
    requires later != [] ==> if left.Unlimited? then left' == Unlimited
             else left'.Within? && left'.ms == left.ms - script(k).Elapsed() && left'.ms > 0
    ensures Budgeted([call] + later, left, script, k)
  {
    var calls := [call] + later;
    forall i | 0 < i < |calls|
      ensures calls[i] == later[i - 1] && Spent(script, k, i) == script(k).Elapsed() + Spent(script, k + 1, i - 1)
    {
    }
  }

  /** Every inner call is given the timeout minus all time spent before it, a positive amount from the second
      call on; without a timeout none is given. The loop makes at most one call per byte. */
  lemma {:induction false} BudgetIsTimeoutMinusTimeSpent(job: Job, moved: nat, left: Budget, k: nat)
    requires moved <= |job.data|
    ensures var o := job.From(moved, left, k);
      Budgeted(o.calls, left, job.script, k) && |o.calls| <= (if job.len > moved then job.len - moved else 0)
    decreases job.len - moved
  {
    if moved < job.len {
      match job.Next(moved, left, k)
      case Done(o) =>
      case Again(call, moved', left') =>
        BudgetIsTimeoutMinusTimeSpent(job, moved', left', k + 1);
        BudgetedLater(call, job.From(moved', left', k + 1).calls, left, left', job.script, k);
    }
  }

  // The last call moved bytes but not all of them, and the time spent has reached the timeout.
  predicate TimeIsUp(o: Outcome, len: int, left: Budget, script: Script, k: nat) {
    var calls := |o.calls|;
    left.Within? && calls > 0 && o.calls[calls - 1].n > 0 && o.moved < len && Spent(script, k, calls) >= left.ms
  }

  lemma TimeIsUpLater(tail: Outcome, len: int, call: InnerCall, left: Budget, script: Script, k: nat)
    requires tail.calls != [] && left.Within? && script(k).Elapsed() < left.ms
    ensures TimeIsUp(tail.After([call]), len, left, script, k)
      == TimeIsUp(tail, len, Within(left.ms - script(k).Elapsed()), script, k + 1)
  {
    var o := tail.After([call]);
    assert o.calls[|o.calls| - 1] == tail.calls[|tail.calls| - 1];
    assert Spent(script, k, |o.calls|) == script(k).Elapsed() + Spent(script, k + 1, |tail.calls|);
  }

  /** The deadline exit is taken exactly when, after a call that moved bytes but left some over, the time
      spent has reached the timeout. */
  lemma {:induction false} DeadlineIffTimeSpent(job: Job, moved: nat, left: Budget, k: nat)
    requires moved <= |job.data| && (moved == 0 || moved <= job.len)
    ensures var o := job.From(moved, left, k);
      && (o.deadline <==> TimeIsUp(o, job.len, left, job.script, k))
      && (moved < job.len ==> o.calls != [])
    decreases job.len - moved
  {
    if moved < job.len {
      match job.Next(moved, left, k)
      case Done(o) =>
        assert Spent(job.script, k, 1) == job.script(k).Elapsed() by { assert Spent(job.script, k + 1, 0) == 0; }
      case Again(call, moved', left') =>
        DeadlineIffTimeSpent(job, moved', left', k + 1);
        var tail := job.From(moved', left', k + 1);
        if left.Within? && moved' < job.len { TimeIsUpLater(tail, job.len, call, left, job.script, k); }
    }
  }

  // ---------- success ----------

  // A socket call that moves something.
  predicate Moves(a: Attempt) { a.inner.Reports? && a.inner.n > 0 }

  // What the calls k .. k+n-1 report, before the last one is cut to the room that is left.
  function Reported(script: Script, k: nat, n: nat): nat
    decreases n
  {
    if n == 0 then 0 else (if Moves(script(k)) then script(k).inner.n else 0) + Reported(script, k + 1, n - 1)
  }

  // The m-th call from the k-th on completes the transfer: all of them move something, the last one brings the
  // reports up to the length, and the time spent before the last has not reached the timeout.
  predicate CompletesAt(job: Job, moved: nat, left: Budget, k: nat, m: nat) {
    && m > 0 && job.len <= |job.data|
    && (forall j | k <= j < k + m :: Moves(job.script(j)))
    && moved + Reported(job.script, k, m - 1) < job.len <= moved + Reported(job.script, k, m)
    && (left.Unlimited? || m == 1 || Spent(job.script, k, m - 1) < left.ms)
  }

  lemma {:induction false} CompletionSucceeds(job: Job, moved: nat, left: Budget, k: nat, m: nat)
    requires moved <= |job.data| && CompletesAt(job, moved, left, k, m)
    ensures job.From(moved, left, k).ret == job.len
    decreases m
  {
    assert Moves(job.script(k));
    if m > 1 {
      assert Reported(job.script, k, m - 1) >= job.script(k).inner.n;
      assert Spent(job.script, k, m - 1) == job.script(k).Elapsed() + Spent(job.script, k + 1, m - 2);
      assert job.Answer(moved, k) == job.script(k).inner.n;
      var n, left' := job.script(k).inner.n, if left.Unlimited? then left else Within(left.ms - job.script(k).Elapsed());
      CompletionSucceeds(job, moved + n, left', k + 1, m - 1);
    } else {
      assert Reported(job.script, k, 1) == job.script(k).inner.n + Reported(job.script, k + 1, 0);
      assert job.Answer(moved, k) == job.len - moved;
    }
  }

  lemma {:induction false} SuccessCompletes(job: Job, moved: nat, left: Budget, k: nat) returns (m: nat)
    requires moved <= |job.data| && moved < job.len && job.From(moved, left, k).ret == job.len
    ensures CompletesAt(job, moved, left, k, m)
    decreases job.len - moved
  {
    var script := job.script;
    match job.Next(moved, left, k)
    case Done(_) => assert false;
    case Again(call, moved', left') =>
      assert Moves(script(k)) && script(k).inner.n >= call.n;
      if moved' == job.len {
        m := 1;
        assert Reported(script, k, 1) == script(k).inner.n + Reported(script, k + 1, 0);
      } else {
        var later := SuccessCompletes(job, moved', left', k + 1);
        m := later + 1;
        assert call.n == script(k).inner.n;
        assert Reported(script, k, m) == script(k).inner.n + Reported(script, k + 1, later);
        assert Reported(script, k, m - 1) == script(k).inner.n + Reported(script, k + 1, later - 1);
        assert Spent(script, k, m - 1) == script(k).Elapsed() + Spent(script, k + 1, later - 1);
      }
  }

  /** A transfer succeeds exactly when there is nothing to move, or there is data enough and some call completes
      it: every call up to it moves something, together they report the length, and until the last one the
      time spent stays below the timeout, if there is one. */
  lemma SucceedsIff(job: Job)
    ensures job.Run().ret == job.len <==> job.len == 0 || (job.len > 0 && exists m :: CompletesAt(job, 0, job.timeout, 0, m))
  {
    if job.len > 0 {
      if m :| CompletesAt(job, 0, job.timeout, 0, m) {
        CompletionSucceeds(job, 0, job.timeout, 0, m);
      } else if job.Run().ret == job.len {
        var m := SuccessCompletes(job, 0, job.timeout, 0);
      }
    }
  }

  // ---------- what was moved ----------

  function Bytes(calls: seq<InnerCall>): seq<uint8> {
    if calls == [] then [] else calls[0].bytes + Bytes(calls[1..])
  }

  lemma {:induction false} BytesOfConcat(a: seq<InnerCall>, b: seq<InnerCall>)
    ensures Bytes(a + b) == Bytes(a) + Bytes(b)
    decreases |a|
  {
    if a == [] {
      assert a + b == b;
    } else {
      assert (a + b)[0] == a[0] && (a + b)[1..] == a[1..] + b;
      BytesOfConcat(a[1..], b);
    }
  }

  lemma BytesOfOne(call: InnerCall)
    ensures Bytes([call]) == call.bytes
  {
    assert Bytes([call][1..]) == [];
  }

  lemma Adjacent(data: seq<uint8>, a: nat, b: nat, c: nat)
    requires a <= b <= c <= |data|
    ensures data[a..][..b - a] + data[b..c] == data[a..c]
  {
  }

  lemma MovesOn(data: seq<uint8>, moved: nat, call: InnerCall, rest: Outcome)
    requires call.n > 0 && moved + call.n <= rest.moved <= |data| && call.bytes == data[moved..][..call.n]
    requires Bytes(rest.calls) == data[moved + call.n..rest.moved]
    ensures Bytes([call] + rest.calls) == data[moved..rest.moved]
  {
    BytesOfOne(call);
    BytesOfConcat([call], rest.calls);
    Adjacent(data, moved, moved + call.n, rest.moved);
  }

  /** On every exit the bytes the inner calls moved are exactly the data up to the count. */
  lemma {:induction false} CallsMoveTheData(job: Job, moved: nat, left: Budget, k: nat)
    requires moved <= |job.data| && (moved == 0 || moved <= job.len)
    ensures var o := job.From(moved, left, k);
      && moved <= o.moved <= |job.data| && (job.len >= 0 ==> o.moved <= job.len)
      && Bytes(o.calls) == job.data[moved..o.moved]
    decreases job.len - moved
  {
    if moved < job.len {
      var call := job.KthCall(moved, left, k);
      BytesOfOne(call);
      match job.Next(moved, left, k)
      case Done(o) =>
      case Again(_, moved', left') =>
        CallsMoveTheData(job, moved', left', k + 1);
        MovesOn(job.data, moved, call, job.From(moved', left', k + 1));
    }
  }

  // Only the last call may have moved nothing; the return value is the length, or the last call's 0 or -1,
  // or -1 at the deadline.
  predicate Accounted(o: Outcome, len: nat) {
    && o.calls != []
    && var last := o.calls[|o.calls| - 1].n;
      && (forall i | 0 <= i < |o.calls| - 1 :: o.calls[i].n > 0)
      && (o.moved == len ==> last > 0 && o.ret == len)
      && (o.moved < len ==> o.ret == (if o.deadline then -1 else last) && o.ret in {0, -1})
  }

  lemma AccountedLater(tail: Outcome, len: nat, call: InnerCall)
    requires call.n > 0 && Accounted(tail, len)
    ensures Accounted(tail.After([call]), len)
  {
    var o := tail.After([call]);
    assert o.calls[|o.calls| - 1] == tail.calls[|tail.calls| - 1];
    assert forall i | 0 < i < |o.calls| :: o.calls[i] == tail.calls[i - 1];
  }

  /** What the count and the return value say about the inner calls, on every exit. */
  lemma {:induction false} CountIsWhatMoved(job: Job, moved: nat, left: Budget, k: nat)
    requires moved < job.len && moved <= |job.data|
    ensures var o := job.From(moved, left, k);
      && Accounted(o, job.len) && |Bytes(o.calls)| == o.moved - moved && o.moved <= job.len
    decreases job.len - moved
  {
    CallsMoveTheData(job, moved, left, k);
    match job.Next(moved, left, k)
    case Done(o) =>
    case Again(call, moved', left') =>
      if moved' < job.len {
        CountIsWhatMoved(job, moved', left', k + 1);
        AccountedLater(job.From(moved', left', k + 1), job.len, call);
      }
  }

  // ---------- both ends ----------

  // The calls of one end, in order.
  function Side(history: seq<InnerCall>, put: bool): seq<InnerCall> {
    if history == [] then []
    else
      var last := history[|history| - 1];
      Side(history[..|history| - 1], put) + if last.put == put then [last] else []
  }

  lemma {:induction false} FifoDeliversInOrder(history: seq<InnerCall>, wire: seq<uint8>, taken: nat)
    requires Fifo(history, wire, taken)
    ensures taken <= |wire| && wire == Bytes(Side(history, true)) && wire[..taken] == Bytes(Side(history, false))
    decreases |history|
  {
    if history != [] {
      var before, last := history[..|history| - 1], history[|history| - 1];
      var n := |last.bytes|;
      BytesOfOne(last);
      BytesOfConcat(Side(before, last.put), [last]);
      if last.put {
        FifoDeliversInOrder(before, wire[..|wire| - n], taken);
        assert wire[..|wire| - n] + wire[|wire| - n..] == wire;
        assert wire[..|wire| - n][..taken] == wire[..taken];
        assert Side(before, false) + [] == Side(before, false);
      } else {
        FifoDeliversInOrder(before, wire, taken - n);
        assert wire[..taken - n] + wire[taken - n..taken] == wire[..taken];
        assert Side(before, true) + [] == Side(before, true);
      }
    }
  }

  /** Both loops at work on one stream, their inner calls interleaved and chunked in any way, each ending in
      any way: what was received is a prefix of what was sent. If both return the common length, it is all. */
  lemma ReceivedIsSent(history: seq<InnerCall>, wire: seq<uint8>, taken: nat, s: Job, r: Job)
    requires Fifo(history, wire, taken)
    requires Side(history, true) == s.Run().calls && Side(history, false) == r.Run().calls
    ensures var m := r.Run().moved; m <= s.Run().moved && m <= |s.data| && m <= |r.data| && r.data[..m] == s.data[..m]
    ensures s.len == r.len && s.Run().ret == s.len && r.Run().ret == r.len ==>
      0 <= r.len <= |s.data| && r.len <= |r.data| && r.data[..r.len] == s.data[..s.len]
  {
    FifoDeliversInOrder(history, wire, taken);
    CallsMoveTheData(s, 0, s.timeout, 0);
    CallsMoveTheData(r, 0, r.timeout, 0);
    LengthMeansAll(s, 0, s.timeout, 0);
    LengthMeansAll(r, 0, r.timeout, 0);
    var m := r.Run().moved;
    assert wire[..taken] == r.data[..m] && wire == s.data[..s.Run().moved];
    assert s.data[..s.Run().moved][..m] == s.data[..m];
  }

  // The inner calls of successive transfers.
  function AllCalls(jobs: seq<Job>): seq<InnerCall> {
    if jobs == [] then [] else jobs[0].Run().calls + AllCalls(jobs[1..])
  }

  predicate Succeeds(job: Job) { job.Run().ret == job.len }

  // A successful transfer moves its message.
  lemma WholeMessage(job: Job)
    requires Succeeds(job)
    ensures 0 <= job.len <= |job.data| && Bytes(job.Run().calls) == job.data[..job.len]
  {
    CallsMoveTheData(job, 0, job.timeout, 0);
    LengthMeansAll(job, 0, job.timeout, 0);
  }

  lemma FirstMessage(sends: seq<Job>, recvs: seq<Job>)
    requires Bytes(AllCalls(recvs)) <= Bytes(AllCalls(sends)) && recvs != [] && sends != []
    requires Succeeds(sends[0]) && Succeeds(recvs[0]) && sends[0].len == recvs[0].len
    ensures var len := recvs[0].len;
      0 <= len <= |recvs[0].data| && len <= |sends[0].data| && recvs[0].data[..len] == sends[0].data[..len]
    ensures Bytes(AllCalls(recvs[1..])) <= Bytes(AllCalls(sends[1..]))
  {
    WholeMessage(sends[0]);
    WholeMessage(recvs[0]);
    BytesOfConcat(sends[0].Run().calls, AllCalls(sends[1..]));
    BytesOfConcat(recvs[0].Run().calls, AllCalls(recvs[1..]));
    SamePrefix(recvs[0].data[..recvs[0].len], Bytes(AllCalls(recvs[1..])),
               sends[0].data[..sends[0].len], Bytes(AllCalls(sends[1..])));
  }

  lemma {:induction false} SuccessiveMessages(sends: seq<Job>, recvs: seq<Job>, i: nat)
    requires Bytes(AllCalls(recvs)) <= Bytes(AllCalls(sends)) && i < |recvs| <= |sends|
    requires forall j | 0 <= j <= i :: Succeeds(sends[j]) && Succeeds(recvs[j]) && sends[j].len == recvs[j].len
    ensures var len := recvs[i].len;
      0 <= len <= |recvs[i].data| && len <= |sends[i].data| && recvs[i].data[..len] == sends[i].data[..len]
    decreases i
  {
    assert Succeeds(sends[0]) && Succeeds(recvs[0]);
    FirstMessage(sends, recvs);
    if i > 0 {
      var s, r := sends[1..], recvs[1..];
      forall j | 0 <= j <= i - 1
        ensures Succeeds(s[j]) && Succeeds(r[j]) && s[j].len == r[j].len
      {
        assert Succeeds(sends[j + 1]) && Succeeds(recvs[j + 1]);
      }
      SuccessiveMessages(s, r, i - 1);
    }
  }

  lemma SamePrefix(a: seq<uint8>, b: seq<uint8>, c: seq<uint8>, d: seq<uint8>)
    requires a + b <= c + d && |a| == |c|
    ensures a == c && b <= d
  {
    assert (a + b)[..|a|] == (c + d)[..|a|];
    assert (a + b)[|a|..] == b && (c + d)[|c|..] == d;
  }

  /** Framing over a sequence of messages: both ends call their loops again and again on one stream, every
      inner call interleaved in any way. As long as both loops have returned the agreed length so far, the
      i-th message received is the i-th message sent; later transfers may end in any way. */
  lemma MessagesArriveAsSent(history: seq<InnerCall>, wire: seq<uint8>, taken: nat, sends: seq<Job>, recvs: seq<Job>, i: nat)
    requires Fifo(history, wire, taken) && i < |recvs| <= |sends|
    requires Side(history, true) == AllCalls(sends) && Side(history, false) == AllCalls(recvs)
    requires forall j | 0 <= j <= i :: Succeeds(sends[j]) && Succeeds(recvs[j]) && sends[j].len == recvs[j].len
    ensures var len := recvs[i].len;
      0 <= len <= |recvs[i].data| && len <= |sends[i].data| && recvs[i].data[..len] == sends[i].data[..len]
  {
    FifoDeliversInOrder(history, wire, taken);
    SuccessiveMessages(sends, recvs, i);
  }
}
