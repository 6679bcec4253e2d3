/** The unlocked accesses of a remote mouse call: which handler and context they find while other threads
    change the slots, and where messages go. */
module HookCalls {
  import opened Options
  import opened ClientHook
  import opened HookRuns

  // ---------- other threads between two accesses ----------

  // What one action makes of a slot.
  function SlotBy(slot: Option<Handler>, pos: nat, a: Action): Option<Handler> {
    match a
    case Register(p, h) => if slot == None && p == pos then Some(h) else slot
    case Unregister(p) => if p == pos then None else slot
    case _ => slot
  }

  // What is in a slot after some actions, by its registrations and unregistrations.
  function SlotAfter(slot: Option<Handler>, pos: nat, acts: seq<Action>): Option<Handler>
    decreases |acts|
  {
    if acts == [] then slot else SlotAfter(SlotBy(slot, pos, acts[0]), pos, acts[1..])
  }

  lemma {:induction false} SlotAfterConcat(slot: Option<Handler>, pos: nat, a: seq<Action>, b: seq<Action>)
    ensures SlotAfter(slot, pos, a + b) == SlotAfter(SlotAfter(slot, pos, a), pos, b)
    decreases |a|
  {
    if a == [] {
      assert a + b == b;
    } else {
      assert (a + b)[0] == a[0] && (a + b)[1..] == a[1..] + b;
      SlotAfterConcat(SlotBy(slot, pos, a[0]), pos, a[1..], b);
    }
  }

  predicate ByOtherThreads(acts: seq<Action>) {
    forall a <- acts :: a.Register? || a.Unregister? || a.ControlReturn?
  }

  lemma {:induction false} OthersOnlyTouchSlots(s: State, acts: seq<Action>)
    requires WellFormed(s) && ByOtherThreads(acts) && s.alive && s.currPos < NM_POS_MAX
    ensures IsRun(s, acts) && Trace(s, acts) == []
    ensures var t := Final(s, acts);
      && t.thread == s.thread && t.currPos == s.currPos && t.prevPt == s.prevPt && t.alive
      && t.entry[t.currPos] == SlotAfter(s.entry[s.currPos], s.currPos, acts)
    decreases |acts|
  {
    if acts != [] {
      assert acts[0] in acts;
      assert forall a <- acts[1..] :: a in acts;
      OthersOnlyTouchSlots(Step(s, acts[0]).after, acts[1..]);
    }
  }

  // Other threads first, then one access of the hook thread.
  lemma OthersThen(s: State, others: seq<Action>, a: Action)
    requires WellFormed(s) && ByOtherThreads(others) && ActsRemotely(s.thread) && Enabled(s, a)
    requires a.CheckSlot? || a.ReadFirst? || a.CallSlot?
    ensures IsRun(s, others) && Enabled(Final(s, others), a) && IsRun(s, others + [a])
    ensures var t := Final(s, others);
      && t.thread == s.thread && t.currPos == s.currPos && t.alive
      && t.entry[t.currPos] == SlotAfter(s.entry[s.currPos], s.currPos, others)
      && Outcome(Final(s, others + [a]), Trace(s, others + [a])) == Step(t, a)
  {
    OthersOnlyTouchSlots(s, others);
    Single(Final(s, others), a);
    Join(s, others, [a]);
  }

  // ---------- the pair a call delivers ----------

  // A call: other threads' steps before the first read and between the two reads.
  function CallRun(untilRead: seq<Action>, untilCall: seq<Action>, contextFirst: bool): seq<Action> {
    (untilRead + [ReadFirst(contextFirst)]) + (untilCall + [CallSlot])
  }

  // What a call does that finds called when it reads the handler and other when it reads the context.
  function CallEffects(pos: nat, called: Option<Handler>, other: Option<Handler>, msg: Message, callNext: bool): seq<Effect> {
    if called == None then [CalledNull(msg)]
    else [SentInput(pos, Handler(called.value.fn, ContextOf(other)), msg), Returned(callNext)]
  }

  /** The call goes through the slot's handler at one moment with the slot's context of another; it is a null
      call exactly when the slot is empty at the handler's moment. */
  lemma CallReadsTwice(s: State, untilRead: seq<Action>, untilCall: seq<Action>, contextFirst: bool)
    requires WellFormed(s) && s.thread.BeforeCall? && ByOtherThreads(untilRead) && ByOtherThreads(untilCall)
    ensures IsRun(s, CallRun(untilRead, untilCall, contextFirst))
    ensures var first := SlotAfter(s.entry[s.currPos], s.currPos, untilRead);
      var second := SlotAfter(first, s.currPos, untilCall);
      var called, other := if contextFirst then second else first, if contextFirst then first else second;
      Trace(s, CallRun(untilRead, untilCall, contextFirst))
        == CallEffects(s.currPos, called, other, s.thread.msg, s.thread.callNext)
    ensures Final(s, CallRun(untilRead, untilCall, contextFirst)).thread.Idle?
  {
    OthersThen(s, untilRead, ReadFirst(contextFirst));
    var t := Final(s, untilRead + [ReadFirst(contextFirst)]);
    OthersThen(t, untilCall, CallSlot);
    Join(s, untilRead + [ReadFirst(contextFirst)], untilCall + [CallSlot]);
  }

  // The slot at the two reads of a call.
  function AtHandler(slot: Option<Handler>, pos: nat, untilCall: seq<Action>, contextFirst: bool): Option<Handler> {
    if contextFirst then SlotAfter(slot, pos, untilCall) else slot
  }

  /** A call that goes through a handler delivers the pair that was registered with it exactly when the slot
      held the same context at both reads. */
  lemma RegisteredPairIff(s: State, untilRead: seq<Action>, untilCall: seq<Action>, contextFirst: bool)
    requires WellFormed(s) && s.thread.BeforeCall? && ByOtherThreads(untilRead) && ByOtherThreads(untilCall)
    requires AtHandler(SlotAfter(s.entry[s.currPos], s.currPos, untilRead), s.currPos, untilCall, contextFirst).Some?
    ensures IsRun(s, CallRun(untilRead, untilCall, contextFirst))
    ensures var first := SlotAfter(s.entry[s.currPos], s.currPos, untilRead);
      var h, t := AtHandler(first, s.currPos, untilCall, contextFirst).value, Trace(s, CallRun(untilRead, untilCall, contextFirst));
      (SentInput(s.currPos, h, s.thread.msg) in t) <==> (ContextOf(first) == ContextOf(SlotAfter(first, s.currPos, untilCall)))
  {
    CallReadsTwice(s, untilRead, untilCall, contextFirst);
  }

  // Contexts are sessions: not NULL, and none of them is registered a second time.
  predicate FreshContexts(ctx: int, pos: nat, acts: seq<Action>) {
    ctx != 0 && forall a <- acts :: a.Register? && a.pos == pos ==> a.h.ctx != ctx
  }

  lemma {:induction false} ContextIsGone(slot: Option<Handler>, ctx: int, pos: nat, acts: seq<Action>)
    requires FreshContexts(ctx, pos, acts) && ContextOf(slot) != ctx
    ensures ContextOf(SlotAfter(slot, pos, acts)) != ctx
    decreases |acts|
  {
    if acts != [] {
      assert acts[0] in acts;
      assert forall a <- acts[1..] :: a in acts;
      ContextIsGone(SlotBy(slot, pos, acts[0]), ctx, pos, acts[1..]);
    }
  }

  /** With such contexts that means: exactly when the slot was not unregistered between the two reads. */
  lemma {:induction false} SameContextIffNotUnregistered(slot: Option<Handler>, pos: Position, acts: seq<Action>)
    requires slot.Some? && FreshContexts(slot.value.ctx, pos, acts)
    ensures ContextOf(SlotAfter(slot, pos, acts)) == slot.value.ctx <==> Unregister(pos) !in acts
    decreases |acts|
  {
    if acts != [] {
      assert acts[0] in acts;
      assert forall a <- acts[1..] :: a in acts;
      if acts[0] == Unregister(pos) {
        ContextIsGone(None, slot.value.ctx, pos, acts[1..]);
      } else {
        SameContextIffNotUnregistered(slot, pos, acts[1..]);
        assert Unregister(pos) in acts <==> Unregister(pos) in acts[1..];
      }
    }
  }

  /** From check to call: the call goes through a null handler exactly when the slot's last change before the
      handler was read was an unregistration. */
  lemma NullCallIffUnregisteredMeanwhile(s: State, untilRead: seq<Action>, untilCall: seq<Action>, contextFirst: bool)
    requires WellFormed(s) && s.thread.BeforeCheck? && s.entry[s.currPos].Some?
    requires ByOtherThreads(untilRead) && ByOtherThreads(untilCall)
    ensures var all := [CheckSlot] + CallRun(untilRead, untilCall, contextFirst);
      && IsRun(s, all)
      && (CalledNull(s.thread.msg) in Trace(s, all) <==>
            AtHandler(SlotAfter(s.entry[s.currPos], s.currPos, untilRead), s.currPos, untilCall, contextFirst) == None)
  {
    Single(s, CheckSlot);
    CallReadsTwice(Final(s, [CheckSlot]), untilRead, untilCall, contextFirst);
    Join(s, [CheckSlot], CallRun(untilRead, untilCall, contextFirst));
  }

  // ---------- runs that reach it ----------

  // A remote move to the middle of the screen, 51 to the left, is about to be handled.
  const Middle := MouseEvent(Move, Point(50, 50), 0)
  const LeftBy51 := Mouse(Move, Point(-51, 0), 0)

  lemma ToRemoteMove(h: Handler) returns (acts: seq<Action>)
    ensures IsRun(StoppedState, acts)
    ensures Final(StoppedState, acts) == HandedOver(h).(thread := InRemote(Middle))
    ensures Trace(StoppedState, acts) == HandOver(h)
  {
    acts := ToRemote(h);
    acts := Walk(acts, BeginMouse(Middle), HandedOver(h).(thread := InRemote(Middle)), []);
  }

  function AtCall(h: Handler): State { HandedOver(h).(prevPt := Point(50, 50), thread := BeforeCall(LeftBy51, true)) }

  lemma ToCall(h: Handler) returns (acts: seq<Action>)
    ensures IsRun(StoppedState, acts)
    ensures Final(StoppedState, acts) == AtCall(h) && Trace(StoppedState, acts) == HandOver(h)
  {
    var to := HandedOver(h).(prevPt := Point(50, 50));
    acts := ToRemoteMove(h);
    acts := Walk(acts, RemoteBody(100, 100), to.(thread := BeforeCheck(LeftBy51, true)), []);
    acts := Walk(acts, CheckSlot, AtCall(h), []);
  }

  // Any call from there, whatever the other threads do around its reads.
  lemma CallFromThere(h: Handler, untilRead: seq<Action>, untilCall: seq<Action>, contextFirst: bool) returns (acts: seq<Action>)
    requires ByOtherThreads(untilRead) && ByOtherThreads(untilCall)
    ensures IsRun(StoppedState, acts)
    ensures var first := SlotAfter(Some(h), NM_POS_RIGHT, untilRead);
      var second := SlotAfter(first, NM_POS_RIGHT, untilCall);
      var called, other := if contextFirst then second else first, if contextFirst then first else second;
      Trace(StoppedState, acts) == HandOver(h) + CallEffects(NM_POS_RIGHT, called, other, LeftBy51, true)
  {
    acts := ToCall(h);
    CallReadsTwice(AtCall(h), untilRead, untilCall, contextFirst);
    Join(StoppedState, acts, CallRun(untilRead, untilCall, contextFirst));
    acts := acts + CallRun(untilRead, untilCall, contextFirst);
  }

  lemma SlotAfterOne(slot: Option<Handler>, pos: nat, a: Action, b: Action)
    ensures SlotAfter(slot, pos, []) == slot
    ensures SlotAfter(slot, pos, [a, b]) == SlotAfter(SlotAfter(slot, pos, [a]), pos, [b])
  {
    assert [a, b][1..] == [b] && [a][1..] == [];
  }

  /** It does happen: a run from a stopped hook whose call goes through an emptied slot. */
  lemma ANullCallCanHappen(h: Handler) returns (acts: seq<Action>)
    ensures IsRun(StoppedState, acts)
    ensures Trace(StoppedState, acts) == HandOver(h) + [CalledNull(LeftBy51)]
  {
    var gone := [Unregister(NM_POS_RIGHT)];
    assert gone[1..] == [];
    acts := CallFromThere(h, gone, [], false);
  }

  /** And a run whose call passes the context of another registration, or NULL, to the first one's handler. */
  lemma AContextCanBeAnothers(h: Handler, g: Handler) returns (another: seq<Action>, nothing: seq<Action>)
    ensures IsRun(StoppedState, another) && IsRun(StoppedState, nothing)
    ensures Trace(StoppedState, another)
      == HandOver(h) + [SentInput(NM_POS_RIGHT, Handler(h.fn, g.ctx), LeftBy51), Returned(true)]
    ensures Trace(StoppedState, nothing)
      == HandOver(h) + [SentInput(NM_POS_RIGHT, Handler(h.fn, 0), LeftBy51), Returned(true)]
  {
    var gone, taken := Unregister(NM_POS_RIGHT), Register(NM_POS_RIGHT, g);
    SlotAfterOne(Some(h), NM_POS_RIGHT, gone, taken);
    assert [gone][1..] == [] && [taken][1..] == [];
    another := CallFromThere(h, [], [gone, taken], false);
    nothing := CallFromThere(h, [], [gone], false);
  }

  // ---------- which slots and handlers messages go to ----------

  // The side of the screen the pointer has crossed, left and right before up and down.
  predicate Crossed(pos: nat, m: Message) {
    && m.Enter? && pos < NM_POS_MAX
    && (pos == NM_POS_LEFT <==> m.pt.x < 0)
    && (pos == NM_POS_RIGHT <==> m.pt.x >= 0 && m.pt.x > m.cx)
    && (pos == NM_POS_UP <==> 0 <= m.pt.x <= m.cx && m.pt.y < 0)
    && (pos == NM_POS_DOWN <==> 0 <= m.pt.x <= m.cx && m.pt.y >= 0 && m.pt.y > m.cy)
  }

  type Registration = (nat, Handler)

  function Registrations(acts: seq<Action>): set<Registration> {
    if acts == [] then {}
    else Registrations(acts[1..]) + match acts[0] case Register(pos, h) => {(pos, h)} case _ => {}
  }

  ghost predicate KnownFunction(pos: nat, fn: int, known: set<Registration>) { exists ctx :: (pos, Handler(fn, ctx)) in known }

  ghost predicate KnownContext(pos: nat, ctx: int, known: set<Registration>) {
    ctx == 0 || exists fn :: (pos, Handler(fn, ctx)) in known
  }

  // ENTER only goes to a registered handler of the crossed side. A key goes to a registered pair; a mouse
  // message to a registered function of the slot, with NULL or a registered context of the slot.
  ghost predicate WellOffered(e: Effect, known: set<Registration>) {
    match e
    case SentEnter(pos, h, msg, _) => Crossed(pos, msg) && (pos, h) in known
    case SentInput(pos, h, msg) =>
      && !msg.Enter? && (msg.Keyboard? ==> (pos, h) in known)
      && KnownFunction(pos, h.fn, known) && KnownContext(pos, h.ctx, known)
    case _ => true
  }

  // The message of a callback between its locked part and its call.
  predicate Carries(c: Callback) { c.BeforeCheck? || c.BeforeCall? || c.HandlerRead? || c.ContextRead? }

  ghost predicate Known(s: State, known: set<Registration>)
    requires s.Valid()
  {
    && (forall pos | 0 <= pos < NM_POS_MAX && s.entry[pos].Some? :: (pos, s.entry[pos].value) in known)
    && (Carries(s.thread) ==> s.thread.msg.Mouse?)
    && (s.thread.HandlerRead? && s.thread.fn.Some? ==> KnownFunction(s.currPos, s.thread.fn.value, known))
    && (s.thread.ContextRead? ==> KnownContext(s.currPos, s.thread.ctx, known))
  }

  function Learned(known: set<Registration>, a: Action): set<Registration> {
    if a.Register? then known + {(a.pos, a.h)} else known
  }

  lemma SlotIsKnown(s: State, pos: nat, known: set<Registration>)
    requires s.Valid() && Known(s, known) && pos < NM_POS_MAX
    ensures KnownContext(pos, ContextOf(s.entry[pos]), known)
    ensures s.entry[pos].Some? ==> KnownFunction(pos, s.entry[pos].value.fn, known)
  {
    if s.entry[pos].Some? {
      var h := s.entry[pos].value;
      assert (pos, Handler(h.fn, h.ctx)) in known;
    }
  }

  lemma StepOffersWell(s: State, a: Action, known: set<Registration>)
    requires WellFormed(s) && Enabled(s, a) && Known(s, known)
    ensures forall e <- Step(s, a).effects :: WellOffered(e, known)
  {
    if s.currPos < NM_POS_MAX { SlotIsKnown(s, s.currPos, known); }
  }

  lemma KnownGrows(s: State, known: set<Registration>, more: set<Registration>)
    requires s.Valid() && Known(s, known) && known <= more
    ensures Known(s, more)
  {
  }

  lemma OfferedGrows(e: Effect, known: set<Registration>, more: set<Registration>)
    requires WellOffered(e, known) && known <= more
    ensures WellOffered(e, more)
  {
  }

  lemma StepKeepsKnown(s: State, a: Action, known: set<Registration>)
    requires WellFormed(s) && Enabled(s, a) && Known(s, known)
    ensures Known(Step(s, a).after, Learned(known, a))
  {
    KnownGrows(s, known, Learned(known, a));
    if s.currPos < NM_POS_MAX { SlotIsKnown(s, s.currPos, known); }
  }

  lemma {:induction false} RunOffersWell(s: State, acts: seq<Action>, known: set<Registration>)
    requires WellFormed(s) && IsRun(s, acts) && Known(s, known)
    ensures forall e <- Trace(s, acts) :: WellOffered(e, known + Registrations(acts))
    decreases |acts|
  {
    if acts != [] {
      var o := Step(s, acts[0]);
      StepOffersWell(s, acts[0], known);
      StepKeepsKnown(s, acts[0], known);
      RunOffersWell(o.after, acts[1..], Learned(known, acts[0]));
      assert Learned(known, acts[0]) + Registrations(acts[1..]) == known + Registrations(acts);
      forall e <- Trace(s, acts)
        ensures WellOffered(e, known + Registrations(acts))
      {
        assert e in o.effects || e in Trace(o.after, acts[1..]);
        if e in o.effects { OfferedGrows(e, known, known + Registrations(acts)); }
      }
    }
  }

  /** Over every run from a stopped hook: an ENTER is only ever sent to a handler registered for the side of
      the screen its pointer has crossed; a key to a pair registered for its slot; a mouse message to a
      function registered for its slot, with a context registered for that slot or NULL. */
  lemma MessagesGoToTheCrossedSide(acts: seq<Action>)
    requires IsRun(StoppedState, acts)
    ensures forall e <- Trace(StoppedState, acts) :: WellOffered(e, Registrations(acts))
  {
    RunOffersWell(StoppedState, acts, {});
    assert {} + Registrations(acts) == Registrations(acts);
  }

  // Nothing has changed the slot since it was checked or read.
  predicate Undisturbed(s: State)
    requires WellFormed(s)
  {
    && (Carries(s.thread) && !s.thread.BeforeCheck? ==> s.entry[s.currPos].Some?)
    && (s.thread.HandlerRead? ==> s.thread.fn == FunctionOf(s.entry[s.currPos]))
    && (s.thread.ContextRead? ==> s.thread.ctx == ContextOf(s.entry[s.currPos]))
  }

  lemma {:induction false} UndisturbedRun(s: State, acts: seq<Action>, known: set<Registration>)
    requires WellFormed(s) && IsRun(s, acts) && Known(s, known) && Undisturbed(s)
    requires forall a <- acts :: !a.Unregister?
    ensures forall e <- Trace(s, acts) :: e.SentInput? ==> (e.pos, e.h) in known + Registrations(acts)
    ensures forall e <- Trace(s, acts) :: !e.CalledNull?
    decreases |acts|
  {
    if acts != [] {
      assert acts[0] in acts;
      assert forall a <- acts[1..] :: a in acts;
      var o := Step(s, acts[0]);
      StepKeepsKnown(s, acts[0], known);
      UndisturbedStep(s, acts[0], known);
      UndisturbedRun(o.after, acts[1..], Learned(known, acts[0]));
      assert Learned(known, acts[0]) + Registrations(acts[1..]) == known + Registrations(acts);
      assert forall e <- Trace(s, acts) :: e in o.effects || e in Trace(o.after, acts[1..]);
    }
  }

  lemma UndisturbedStep(s: State, a: Action, known: set<Registration>)
    requires WellFormed(s) && Enabled(s, a) && Known(s, known) && Undisturbed(s) && !a.Unregister?
    ensures Undisturbed(Step(s, a).after)
    ensures forall e <- Step(s, a).effects :: !e.CalledNull? && (e.SentInput? ==> (e.pos, e.h) in known)
  {
  }

  /** Without an unregistration every message of a run goes to a registered pair of its slot. */
  lemma InputGoesToRegisteredPairs(acts: seq<Action>)
    requires IsRun(StoppedState, acts) && forall a <- acts :: !a.Unregister?
    ensures forall e <- Trace(StoppedState, acts) :: e.SentInput? ==> (e.pos, e.h) in Registrations(acts)
  {
    UndisturbedRun(StoppedState, acts, {});
    assert {} + Registrations(acts) == Registrations(acts);
  }

  // ---------- what the messages say ----------

  /** A key message says down for the two kinds of key-down and up for the two kinds of key-up, and carries the
      low bytes of both codes; other kinds have no message. */
  lemma KeyMessageSaysWhatHappened(k: KeyEvent)
    ensures KeyMessage(k).Some? <==> k.kind != OtherKey
    ensures KeyMessage(k).Some? ==>
      var m := KeyMessage(k).value;
      && m.Keyboard? && (m.down <==> k.kind == KeyDown || k.kind == SysKeyDown)
      && 0 <= m.vk < 0x100 && (k.vkCode - m.vk) % 0x100 == 0
      && 0 <= m.scan < 0x100 && (k.scanCode - m.scan) % 0x100 == 0
  {
  }

  // ---------- what becomes of the events ----------

  // What the hook returns right after each thing it does for an event: a move inside the screen and an event
  // offered as ENTER go on to the next hook, everything else that is sent, dropped or warped is swallowed.
  predicate AnsweredWith(e: Effect, passedOn: bool) {
    match e
    case SentEnter(_, _, _, _) => passedOn
    case SentInput(_, _, msg) => passedOn == (msg.Mouse? && msg.kind == Move)
    case LostInput(msg) => passedOn == (msg.Mouse? && msg.kind == Move)
    case Warped(_, _) => !passedOn
    case _ => true
  }

  predicate NeedsAnswer(e: Effect) { e.SentEnter? || e.SentInput? || e.LostInput? || e.Warped? }

  predicate WellAnswered(t: seq<Effect>) {
    forall i | 0 <= i < |t| && NeedsAnswer(t[i]) :: i + 1 < |t| && t[i + 1].Returned? && AnsweredWith(t[i], t[i + 1].callNext)
  }

  // A carried message knows whether its event goes on.
  predicate CarriesItsAnswer(c: Callback) { Carries(c) ==> c.msg.Mouse? && (c.callNext <==> c.msg.kind == Move) }

  lemma StepAnswersWell(s: State, a: Action)
    requires WellFormed(s) && Enabled(s, a) && CarriesItsAnswer(s.thread)
    ensures CarriesItsAnswer(Step(s, a).after.thread) && WellAnswered(Step(s, a).effects)
  {
  }

  /** An event that leads to nothing but an answer goes on exactly when it was handled in NORMAL. */
  lemma QuietEventsGoOnInNormal(s: State, a: Action)
    requires WellFormed(s) && Enabled(s, a) && |Step(s, a).effects| == 1 && Step(s, a).effects[0].Returned?
    ensures Step(s, a).effects[0].callNext <==> s.thread.InNormal? || (s.thread.Idle? && s.state == Normal)
  {
  }

  lemma {:induction false} RunAnswersWell(s: State, acts: seq<Action>)
    requires WellFormed(s) && IsRun(s, acts) && CarriesItsAnswer(s.thread)
    ensures WellAnswered(Trace(s, acts))
    decreases |acts|
  {
    if acts != [] {
      var o := Step(s, acts[0]);
      var rest := Trace(o.after, acts[1..]);
      StepAnswersWell(s, acts[0]);
      RunAnswersWell(o.after, acts[1..]);
      var t := o.effects + rest;
      forall i | 0 <= i < |t| && NeedsAnswer(t[i])
        ensures i + 1 < |t| && t[i + 1].Returned? && AnsweredWith(t[i], t[i + 1].callNext)
      {
        if i < |o.effects| { assert NeedsAnswer(o.effects[i]); } else { assert NeedsAnswer(rest[i - |o.effects|]); }
      }
    }
  }

  /** Over every run from a stopped hook: only moves that are forwarded (or found no handler) and moves that
      offered ENTER go on; every other event handled remotely, keys, buttons, wheel and edge hits, is swallowed. */
  lemma RemoteEventsAreSwallowedButMoves(acts: seq<Action>)
    requires IsRun(StoppedState, acts)
    ensures WellAnswered(Trace(StoppedState, acts))
  {
    RunAnswersWell(StoppedState, acts);
  }

  // ---------- calls that arrive late ----------

  // Whether the hook runs after some starts and stops.
  predicate RunsAfter(runs: bool, acts: seq<Action>)
    decreases |acts|
  {
    if acts == [] then runs
    else RunsAfter(match acts[0] case Start => true case StopHook => false case _ => runs, acts[1..])
  }

  /** A register, unregister or control-return call that has passed its unlocked test locks a mutex that still
      exists, or exists again, exactly when the last start or stop since the test was not a stop. */
  lemma {:induction false} LateCallLocksALiveMutexIff(s: State, acts: seq<Action>)
    requires WellFormed(s) && IsRun(s, acts)
    ensures Final(s, acts).alive <==> RunsAfter(s.alive, acts)
    decreases |acts|
  {
    if acts != [] {
      LateCallLocksALiveMutexIff(Step(s, acts[0]).after, acts[1..]);
    }
  }
}
