/** What becomes of the pointer movement a hook swallows: forwarded or dropped, and exactly when. */
module HookMovement {
  import opened Options
  import opened ClientHook
  import opened HookRuns
  import opened HookCalls

  // The last anchor, and what was delivered and dropped of the movement since.
  datatype Ledger = Ledger(anchor: Point, forwarded: Point, lost: Point)

  function Delta(m: Message): Point { if m.Mouse? then m.delta else Origin }

  function Book(l: Ledger, e: Effect): Ledger {
    match e
    case SentEnter(_, _, msg, accepted) =>
      if accepted && msg.Enter? then Ledger(msg.pt, Origin, Origin) else l
    case Warped(_, anchor) => Ledger(anchor, Origin, Origin)
    case SentInput(_, _, msg) => l.(forwarded := l.forwarded.Plus(Delta(msg)))
    case LostInput(msg) => l.(lost := l.lost.Plus(Delta(msg)))
    case CalledNull(msg) => l.(lost := l.lost.Plus(Delta(msg)))
    case Returned(_) => l
    case Fatal => l
  }

  function BookAll(l: Ledger, t: seq<Effect>): Ledger
    decreases |t|
  {
    if t == [] then l else BookAll(Book(l, t[0]), t[1..])
  }

  lemma {:induction false} BookConcat(l: Ledger, a: seq<Effect>, b: seq<Effect>)
    ensures BookAll(l, a + b) == BookAll(BookAll(l, a), b)
    decreases |a|
  {
    if a == [] {
      assert a + b == b;
    } else {
      assert (a + b)[1..] == a[1..] + b;
      BookConcat(Book(l, a[0]), a[1..], b);
    }
  }

  function Carried(c: Callback): Point {
    if Carries(c) then Delta(c.msg) else Origin
  }

  predicate Balanced(s: State, l: Ledger) {
    s.prevPt == l.anchor.Plus(l.forwarded).Plus(l.lost).Plus(Carried(s.thread))
  }

  lemma BookShort(l: Ledger, t: seq<Effect>)
    requires |t| <= 2
    ensures BookAll(l, t) ==
      if |t| == 0 then l else if |t| == 1 then Book(l, t[0]) else Book(Book(l, t[0]), t[1])
  {
    if |t| > 0 {
      var u := t[1..];
      if |t| == 2 {
        assert u[0] == t[1] && u[1..] == [];
        assert BookAll(Book(l, t[0]), u) == Book(Book(l, t[0]), u[0]);
      }
    }
  }

  lemma StepKeepsBalance(s: State, a: Action, l: Ledger)
    requires WellFormed(s) && Enabled(s, a) && Balanced(s, l)
    ensures Balanced(Step(s, a).after, BookAll(l, Step(s, a).effects))
  {
    var o := Step(s, a);
    BookShort(l, o.effects);
    match a
    case NormalBody(_, _, _) =>
    case RemoteBody(_, _) =>
    case CheckSlot =>
    case CallSlot =>
    case KeyBody =>
    case _ =>
  }

  lemma {:induction false} RunKeepsBalance(s: State, acts: seq<Action>, l: Ledger)
    requires WellFormed(s) && IsRun(s, acts) && Balanced(s, l)
    ensures Balanced(Final(s, acts), BookAll(l, Trace(s, acts)))
    decreases |acts|
  {
    if acts != [] {
      var o := Step(s, acts[0]);
      StepKeepsBalance(s, acts[0], l);
      RunKeepsBalance(o.after, acts[1..], BookAll(l, o.effects));
      BookConcat(l, o.effects, Trace(o.after, acts[1..]));
    }
  }

  // ---------- when movement is dropped ----------

  // The branch that sets a new anchor: an accepted ENTER, or a remote move at a screen edge.
  predicate Anchors(s: State, a: Action)
    requires WellFormed(s) && Enabled(s, a)
  {
    match a
    case NormalBody(cx, cy, accept) =>
      var slot := TrySlot(cx, cy, s.thread.event.pt);
      accept && s.thread.event.kind == Move && slot.Some? && s.entry[slot.value].Some?
    case RemoteBody(cx, cy) => s.thread.event.kind == Move && EdgeWarp(cx, cy, s.thread.event.pt).Some?
    case _ => false
  }

  // The branch that drops a message: the current slot is empty at the check, or was when the called handler
  // was read.
  predicate Drops(s: State, a: Action)
    requires WellFormed(s) && Enabled(s, a)
  {
    (a.CheckSlot? && s.entry[s.currPos] == None) || (a.CallSlot? && CalledFunction(s) == None)
  }

  // The movement a run drops after its last anchor, on top of d, read off the branches it takes.
  function Dropped(s: State, acts: seq<Action>, d: Point): Point
    requires WellFormed(s) && IsRun(s, acts)
    decreases |acts|
  {
    if acts == [] then d
    else
      var d' := if Anchors(s, acts[0]) then Origin
                else if Drops(s, acts[0]) then d.Plus(Delta(s.thread.msg))
                else d;
      Dropped(Step(s, acts[0]).after, acts[1..], d')
  }

  lemma StepLoses(s: State, a: Action, l: Ledger)
    requires WellFormed(s) && Enabled(s, a)
    ensures BookAll(l, Step(s, a).effects).lost ==
      if Anchors(s, a) then Origin else if Drops(s, a) then l.lost.Plus(Delta(s.thread.msg)) else l.lost
  {
    BookShort(l, Step(s, a).effects);
    match a
    case NormalBody(_, _, _) =>
    case RemoteBody(_, _) =>
    case CheckSlot =>
    case CallSlot =>
    case KeyBody =>
    case _ =>
  }

  lemma {:induction false} LostIsDropped(s: State, acts: seq<Action>, l: Ledger)
    requires WellFormed(s) && IsRun(s, acts)
    ensures BookAll(l, Trace(s, acts)).lost == Dropped(s, acts, l.lost)
    decreases |acts|
  {
    if acts != [] {
      var o := Step(s, acts[0]);
      StepLoses(s, acts[0], l);
      LostIsDropped(o.after, acts[1..], BookAll(l, o.effects));
      BookConcat(l, o.effects, Trace(o.after, acts[1..]));
    }
  }

  /** Between callbacks, the deltas forwarded since the last anchor sum to prevPt minus the anchor exactly
      when the moves whose slot was empty at the check, or when the handler was read, sum to zero. */
  lemma ForwardedMovementIsConserved(s: State, acts: seq<Action>)
    requires WellFormed(s) && IsRun(s, acts) && s.thread.Idle? && Final(s, acts).thread.Idle?
    ensures var l := BookAll(Ledger(s.prevPt, Origin, Origin), Trace(s, acts));
      && Final(s, acts).prevPt.Minus(l.anchor) == l.forwarded.Plus(Dropped(s, acts, Origin))
      && (l.forwarded == Final(s, acts).prevPt.Minus(l.anchor) <==> Dropped(s, acts, Origin) == Origin)
  {
    RunKeepsBalance(s, acts, Ledger(s.prevPt, Origin, Origin));
    LostIsDropped(s, acts, Ledger(s.prevPt, Origin, Origin));
  }

  // ---------- the condition on the actions ----------

  // The current slot is filled whenever the machine acts, or may act, remotely.
  predicate Filled(s: State)
    requires WellFormed(s)
  {
    && (ActsRemotely(s.thread) || s.state == Remote ==> s.entry[s.currPos].Some?)
    && (s.thread.HandlerRead? ==> s.thread.fn.Some?)
  }

  lemma FilledIsKept(s: State, a: Action)
    requires WellFormed(s) && Enabled(s, a) && Filled(s) && !a.Unregister?
    ensures Filled(Step(s, a).after) && !Drops(s, a)
  {
  }

  lemma {:induction false} NothingDropsWithoutUnregister(s: State, acts: seq<Action>)
    requires WellFormed(s) && IsRun(s, acts) && Filled(s) && forall a <- acts :: !a.Unregister?
    ensures Dropped(s, acts, Origin) == Origin && Filled(Final(s, acts))
    decreases |acts|
  {
    if acts != [] {
      assert acts[0] in acts;
      assert forall a <- acts[1..] :: a in acts;
      FilledIsKept(s, acts[0]);
      NothingDropsWithoutUnregister(Step(s, acts[0]).after, acts[1..]);
    }
  }

  /** Full conservation: in every run from a stopped hook in which nobody unregisters a handler, the deltas
      forwarded since the last anchor sum to prevPt minus the anchor. */
  lemma MovementIsConservedWithoutUnregister(acts: seq<Action>)
    requires IsRun(StoppedState, acts) && Final(StoppedState, acts).thread.Idle?
    requires forall a <- acts :: !a.Unregister?
    ensures var l := BookAll(Ledger(Origin, Origin, Origin), Trace(StoppedState, acts));
      l.forwarded == Final(StoppedState, acts).prevPt.Minus(l.anchor)
  {
    ForwardedMovementIsConserved(StoppedState, acts);
    NothingDropsWithoutUnregister(StoppedState, acts);
  }

  /** Within one life of the hook, whatever all threads do in between, a slot's contents are what the last
      change of it by a registration or unregistration left. */
  lemma {:induction false} SlotFollowsActions(s: State, acts: seq<Action>, pos: Position)
    requires WellFormed(s) && IsRun(s, acts) && s.alive && forall a <- acts :: !a.Start? && !a.StopHook?
    ensures Final(s, acts).alive
    ensures Final(s, acts).entry[pos] == SlotAfter(s.entry[pos], pos, acts)
    decreases |acts|
  {
    if acts != [] {
      assert acts[0] in acts;
      assert forall a <- acts[1..] :: a in acts;
      SlotFollowsActions(Step(s, acts[0]).after, acts[1..], pos);
    }
  }

  /** So the check, or the read of the handler, whether it is the call's first or second read, finds the slot
      empty exactly when the slot's last change since s, of which s had its contents, was an unregistration;
      and finding it empty is dropping the message. */
  lemma DropsIffUnregistered(s: State, acts: seq<Action>, a: Action)
    requires WellFormed(s) && IsRun(s, acts) && s.alive && forall a <- acts :: !a.Start? && !a.StopHook?
    requires Enabled(Final(s, acts), a)
    ensures var t := Final(s, acts);
      var pos := t.currPos;
      && (a.CheckSlot? || a.ReadFirst? || a.CallSlot? ==> pos < NM_POS_MAX)
      && (a.CheckSlot? || (a.CallSlot? && t.thread.ContextRead?) ==>
            (Drops(t, a) <==> SlotAfter(s.entry[pos], pos, acts) == None))
      && (a == ReadFirst(false) ==>
            var read := Step(t, a).after; (Drops(read, CallSlot) <==> SlotAfter(s.entry[pos], pos, acts) == None))
  {
    if a.CheckSlot? || a.ReadFirst? || a.CallSlot? { SlotFollowsActions(s, acts, Final(s, acts).currPos); }
  }

  // ---------- one remote move ----------

  // A remote move away from the edges, with the other threads' steps up to the check, up to the call's first
  // read and up to its second.
  function MoveRun(s: State, cx: int, cy: int, untilCheck: seq<Action>, untilRead: seq<Action>, untilCall: seq<Action>,
                   contextFirst: bool): seq<Action>
    requires WellFormed(s) && s.currPos < NM_POS_MAX
  {
    [RemoteBody(cx, cy)] + (untilCheck + [CheckSlot]) +
    if SlotAfter(s.entry[s.currPos], s.currPos, untilCheck).Some? then CallRun(untilRead, untilCall, contextFirst) else []
  }

  // Whether a slot is filled at the check and when the handler is read.
  predicate FilledAtBoth(slot: Option<Handler>, pos: nat, untilCheck: seq<Action>, untilRead: seq<Action>,
                         untilCall: seq<Action>, contextFirst: bool) {
    var checked := SlotAfter(slot, pos, untilCheck);
    checked.Some? && AtHandler(SlotAfter(checked, pos, untilRead), pos, untilCall, contextFirst).Some?
  }

  // The messages of the two ways a remote move can end.
  predicate Delivered(t: seq<Effect>, msg: Message) { |t| == 2 && t[0].SentInput? && t[0].msg == msg && t[1].Returned? }

  predicate DroppedIn(t: seq<Effect>, msg: Message) { t == [CalledNull(msg)] || t == [LostInput(msg), Returned(true)] }

  lemma MoveRunTrace(s: State, cx: int, cy: int, untilCheck: seq<Action>, untilRead: seq<Action>, untilCall: seq<Action>,
                     contextFirst: bool)
    requires WellFormed(s) && s.thread.InRemote? && s.thread.event.kind == Move && EdgeWarp(cx, cy, s.thread.event.pt) == None
    requires ByOtherThreads(untilCheck) && ByOtherThreads(untilRead) && ByOtherThreads(untilCall)
    ensures IsRun(s, MoveRun(s, cx, cy, untilCheck, untilRead, untilCall, contextFirst))
    ensures var msg := Mouse(Move, s.thread.event.pt.Minus(s.prevPt), 0);
      var t := Trace(s, MoveRun(s, cx, cy, untilCheck, untilRead, untilCall, contextFirst));
      if FilledAtBoth(s.entry[s.currPos], s.currPos, untilCheck, untilRead, untilCall, contextFirst)
      then Delivered(t, msg) else DroppedIn(t, msg)
  {
    var body, toCheck := [RemoteBody(cx, cy)], untilCheck + [CheckSlot];
    Single(s, RemoteBody(cx, cy));
    var s1 := Final(s, body);
    OthersThen(s1, untilCheck, CheckSlot);
    Join(s, body, toCheck);
    if SlotAfter(s.entry[s.currPos], s.currPos, untilCheck).Some? {
      CallReadsTwice(Final(s1, toCheck), untilRead, untilCall, contextFirst);
      Join(s, body + toCheck, CallRun(untilRead, untilCall, contextFirst));
    } else {
      assert body + toCheck + [] == body + toCheck;
    }
  }

  /** The delta of a remote move is lost exactly when the other threads' last change of the current slot
      before the check, or between check and handler read, was an unregistration (or it was empty all along). */
  lemma RemoteMoveIsLostIff(s: State, cx: int, cy: int, untilCheck: seq<Action>, untilRead: seq<Action>, untilCall: seq<Action>,
                            contextFirst: bool, l: Ledger)
    requires WellFormed(s) && s.thread.InRemote? && s.thread.event.kind == Move && EdgeWarp(cx, cy, s.thread.event.pt) == None
    requires ByOtherThreads(untilCheck) && ByOtherThreads(untilRead) && ByOtherThreads(untilCall)
    ensures IsRun(s, MoveRun(s, cx, cy, untilCheck, untilRead, untilCall, contextFirst))
    ensures var delta := s.thread.event.pt.Minus(s.prevPt);
      BookAll(l, Trace(s, MoveRun(s, cx, cy, untilCheck, untilRead, untilCall, contextFirst))) ==
        if FilledAtBoth(s.entry[s.currPos], s.currPos, untilCheck, untilRead, untilCall, contextFirst)
        then l.(forwarded := l.forwarded.Plus(delta)) else l.(lost := l.lost.Plus(delta))
  {
    MoveRunTrace(s, cx, cy, untilCheck, untilRead, untilCall, contextFirst);
    BookShort(l, Trace(s, MoveRun(s, cx, cy, untilCheck, untilRead, untilCall, contextFirst)));
  }

  lemma ToDrop(h: Handler) returns (acts: seq<Action>)
    ensures IsRun(StoppedState, acts)
    ensures Final(StoppedState, acts) == HandedOver(h).(prevPt := Point(50, 50), entry := [None, None, None, None])
    ensures Trace(StoppedState, acts) == HandOver(h) + [LostInput(LeftBy51), Returned(true)]
  {
    var to := HandedOver(h).(entry := [None, None, None, None]);
    acts := ToRemoteMove(h);
    acts := Walk(acts, Unregister(NM_POS_RIGHT), to.(thread := InRemote(Middle)), []);
    to := to.(prevPt := Point(50, 50));
    acts := Walk(acts, RemoteBody(100, 100), to.(thread := BeforeCheck(LeftBy51, true)), []);
    acts := Walk(acts, CheckSlot, to, [LostInput(LeftBy51), Returned(true)]);
  }

  /** Movement does get lost: a run from a stopped hook that unregisters the handler in mid move ends with a
      nonzero delta dropped, and nothing forwarded. */
  lemma MovementCanBeLost(h: Handler) returns (acts: seq<Action>)
    ensures IsRun(StoppedState, acts) && Final(StoppedState, acts).thread.Idle?
    ensures var l := BookAll(Ledger(Origin, Origin, Origin), Trace(StoppedState, acts));
      && l == Ledger(Crossing, Origin, Point(-51, 0))
      && l.forwarded != Final(StoppedState, acts).prevPt.Minus(l.anchor)
  {
    acts := ToDrop(h);
    var drop := [LostInput(LeftBy51), Returned(true)];
    BookConcat(Ledger(Origin, Origin, Origin), HandOver(h), drop);
    BookShort(Ledger(Origin, Origin, Origin), HandOver(h));
    BookShort(Ledger(Crossing, Origin, Origin), drop);
  }
}
