/** The client's input hook: a STOP/NORMAL/REMOTE machine whose hook thread runs one callback at a
    time while other threads register, unregister and take control back. Every lock-held region,
    and every unlocked access between two of them, is one step. */
module ClientHook {
  import opened Options
  import opened Widths

  const NM_POS_LEFT := 0
  const NM_POS_RIGHT := 1
  const NM_POS_UP := 2
  const NM_POS_DOWN := 3
  const NM_POS_MAX := 4

  type Position = p: nat | p < NM_POS_MAX

  datatype HookState = Stop | Normal | Remote
  datatype Handler = Handler(fn: int, ctx: int)
  datatype Point = Point(x: int, y: int) {
    function Plus(p: Point): Point { Point(x + p.x, y + p.y) }
    function Minus(p: Point): Point { Point(x - p.x, y - p.y) }
  }
  const Origin := Point(0, 0)

  datatype MouseKind = Move | LeftDown | LeftUp | Wheel | HWheel | RightDown | RightUp | OtherMouse
  datatype MouseEvent = MouseEvent(kind: MouseKind, pt: Point, mouseData: uint32)
  datatype KeyKind = KeyDown | SysKeyDown | KeyUp | SysKeyUp | OtherKey
  datatype KeyEvent = KeyEvent(kind: KeyKind, vkCode: uint32, scanCode: uint32)

  datatype Message =
    | Enter(cx: int, cy: int, pt: Point)
    | Mouse(kind: MouseKind, delta: Point, data: int)
    | Keyboard(down: bool, vk: int, scan: int)

  // What the hook thread holds in locals between two steps of one callback.
  datatype Callback =
    | Idle
    | InNormal(event: MouseEvent)
    | InRemote(event: MouseEvent)
    | BeforeCheck(msg: Message, callNext: bool)
    | BeforeCall(msg: Message, callNext: bool)
    | HandlerRead(msg: Message, callNext: bool, fn: Option<int>)
    | ContextRead(msg: Message, callNext: bool, ctx: int)
    | InRemoteKey(key: KeyEvent)

  // The globals (alive: __g_thread is not NULL) plus the hook thread's locals.
  datatype State = State(alive: bool, state: HookState, currPos: nat, prevPt: Point, entry: seq<Option<Handler>>, thread: Callback)
  {
    predicate Valid() { |entry| == NM_POS_MAX && currPos <= NM_POS_MAX }
  }

  datatype Effect =
    | SentEnter(pos: nat, h: Handler, msg: Message, accepted: bool)
    | SentInput(pos: nat, h: Handler, msg: Message)
    | LostInput(msg: Message)                         // no handler in the slot: the message is dropped
    | CalledNull(msg: Message)                        // the slot was emptied between check and handler read
    | Warped(request: Point, anchor: Point)           // mouse_event at a screen edge
    | Returned(callNext: bool)                        // callback result: pass the event on, or swallow it
    | Fatal                                           // a callback that finds the machine stopped

  datatype Action =
    | Start
    | StopHook
    | Register(pos: Position, h: Handler)
    | Unregister(pos: Position)
    | ControlReturn
    | BeginMouse(mouse: MouseEvent)
    | BeginKey(key: KeyEvent)
    | NormalBody(cx: int, cy: int, accept: bool)
    | RemoteBody(cx: int, cy: int)
    | CheckSlot
    | ReadFirst(contextFirst: bool)
    | CallSlot
    | KeyBody

  datatype Outcome = Outcome(after: State, effects: seq<Effect>)

  const StoppedState := State(false, Stop, NM_POS_MAX, Origin, [None, None, None, None], Idle)

  // ---------- steps ----------

  function TrySlot(cx: int, cy: int, pt: Point): Option<Position> {
    if pt.x < 0 then Some(NM_POS_LEFT)
    else if pt.x > cx then Some(NM_POS_RIGHT)
    else if pt.y < 0 then Some(NM_POS_UP)
    else if pt.y > cy then Some(NM_POS_DOWN)
    else None
  }

  function NormalStep(s: State, e: MouseEvent, cx: int, cy: int, accept: bool): Outcome
    requires s.Valid()
  {
    var done := s.(thread := Idle);
    var slot := TrySlot(cx, cy, e.pt);
    if e.kind != Move || slot == None || s.entry[slot.value] == None then Outcome(done, [Returned(true)])
    else
      var sent := SentEnter(slot.value, s.entry[slot.value].value, Enter(cx, cy, e.pt), accept);
      if accept then Outcome(done.(state := Remote, currPos := slot.value, prevPt := e.pt), [sent, Returned(true)])
      else Outcome(done, [sent, Returned(true)])
  }

  // Where a move at the screen edge is re-anchored, and the warp it requests.
  function EdgeWarp(cx: int, cy: int, pt: Point): Option<Effect> {
    if pt.x >= cx then Some(Warped(Point(-cx, 0), Point(0, pt.y)))
    else if pt.x <= 0 then Some(Warped(Point(cx, 0), Point(cx, pt.y)))
    else if pt.y >= cy then Some(Warped(Point(0, -cy), Point(pt.x, 0)))
    else if pt.y <= 0 then Some(Warped(Point(0, cy), Point(pt.x, cy)))
    else None
  }

  // (short)((mouseData >> 16) & 0xffff)
  function HighWord(mouseData: uint32): (w: int)
    ensures -0x8000 <= w < 0x8000
    ensures (w - mouseData / 0x10000) % 0x10000 == 0
  {
    var u := (mouseData / 0x10000) % 0x10000;
    if u >= 0x8000 then u - 0x10000 else u
  }

  function RemoteStep(s: State, e: MouseEvent, cx: int, cy: int): Outcome {
    match e.kind
    case Move =>
      var warp := EdgeWarp(cx, cy, e.pt);
      if warp.Some? then
        Outcome(s.(prevPt := warp.value.anchor, thread := Idle), [warp.value, Returned(false)])
      else
        Outcome(s.(prevPt := e.pt, thread := BeforeCheck(Mouse(Move, e.pt.Minus(s.prevPt), 0), true)), [])
    case LeftDown | LeftUp | Wheel =>
      Outcome(s.(thread := BeforeCheck(Mouse(e.kind, Origin, HighWord(e.mouseData)), false)), [])
    case HWheel | RightDown | RightUp =>
      Outcome(s.(thread := BeforeCheck(Mouse(e.kind, Origin, 0), false)), [])
    case OtherMouse =>
      Outcome(s.(thread := Idle), [Returned(false)])
  }

  function CheckStep(s: State, msg: Message, callNext: bool): Outcome
    requires s.Valid() && s.currPos < NM_POS_MAX
  {
    if s.entry[s.currPos] == None then Outcome(s.(thread := Idle), [LostInput(msg), Returned(callNext)])
    else Outcome(s.(thread := BeforeCall(msg, callNext)), [])
  }

  // The two fields of a slot; both are NULL in an empty one.
  function FunctionOf(slot: Option<Handler>): Option<int> { if slot == None then None else Some(slot.value.fn) }

  function ContextOf(slot: Option<Handler>): int { if slot == None then 0 else slot.value.ctx }

  // The call reads handler and context separately; which of them first is up to the compiler.
  function ReadStep(s: State, msg: Message, callNext: bool, contextFirst: bool): Outcome
    requires s.Valid() && s.currPos < NM_POS_MAX
  {
    var slot := s.entry[s.currPos];
    Outcome(s.(thread := if contextFirst then ContextRead(msg, callNext, ContextOf(slot))
                         else HandlerRead(msg, callNext, FunctionOf(slot))), [])
  }

  // The function the call goes through and the context it passes, after the second read.
  function CalledFunction(s: State): Option<int>
    requires s.Valid() && s.currPos < NM_POS_MAX && (s.thread.HandlerRead? || s.thread.ContextRead?)
  {
    if s.thread.HandlerRead? then s.thread.fn else FunctionOf(s.entry[s.currPos])
  }

  function PassedContext(s: State): int
    requires s.Valid() && s.currPos < NM_POS_MAX && (s.thread.HandlerRead? || s.thread.ContextRead?)
  {
    if s.thread.ContextRead? then s.thread.ctx else ContextOf(s.entry[s.currPos])
  }

  function CallStep(s: State): Outcome
    requires s.Valid() && s.currPos < NM_POS_MAX && (s.thread.HandlerRead? || s.thread.ContextRead?)
  {
    var done, fn := s.(thread := Idle), CalledFunction(s);
    if fn == None then Outcome(done, [CalledNull(s.thread.msg)])
    else
      var h := Handler(fn.value, PassedContext(s));
      Outcome(done, [SentInput(s.currPos, h, s.thread.msg), Returned(s.thread.callNext)])
  }

  function KeyMessage(k: KeyEvent): Option<Message> {
    match k.kind
    case KeyDown | SysKeyDown => Some(Keyboard(true, k.vkCode % 0x100, k.scanCode % 0x100))
    case KeyUp | SysKeyUp => Some(Keyboard(false, k.vkCode % 0x100, k.scanCode % 0x100))
    case OtherKey => None
  }

  function KeyStep(s: State, k: KeyEvent): Outcome
    requires s.Valid() && s.currPos < NM_POS_MAX
  {
    var done := s.(thread := Idle);
    var msg := KeyMessage(k);
    if msg == None then Outcome(done, [Returned(false)])
    else if s.entry[s.currPos] == None then Outcome(done, [LostInput(msg.value), Returned(false)])
    else Outcome(done, [SentInput(s.currPos, s.entry[s.currPos].value, msg.value), Returned(false)])
  }

  // Which steps are possible. Stopping waits for the hook thread, so it finds it between callbacks.
  predicate Enabled(s: State, a: Action) {
    match a
    case Start | StopHook => s.thread.Idle?
    case Register(_, _) | Unregister(_) | ControlReturn => true
    case BeginMouse(_) | BeginKey(_) => s.thread.Idle? && s.alive
    case NormalBody(_, _, _) => s.thread.InNormal?
    case RemoteBody(_, _) => s.thread.InRemote?
    case CheckSlot => s.thread.BeforeCheck?
    case ReadFirst(_) => s.thread.BeforeCall?
    case CallSlot => s.thread.HandlerRead? || s.thread.ContextRead?
    case KeyBody => s.thread.InRemoteKey?
  }

  // A callback that is committed to the remote side, whatever the state variable says by now.
  predicate ActsRemotely(c: Callback) {
    c.InRemote? || c.BeforeCheck? || c.BeforeCall? || c.HandlerRead? || c.ContextRead? || c.InRemoteKey?
  }

  predicate WellFormed(s: State) {
    && s.Valid()
    && (s.alive <==> s.state != Stop)
    && (!s.thread.Idle? ==> s.alive)
    && (ActsRemotely(s.thread) || s.state == Remote ==> s.currPos < NM_POS_MAX)
  }

  function BeginMouseStep(s: State, e: MouseEvent): Outcome {
    match s.state
    case Normal => Outcome(s.(thread := InNormal(e)), [])
    case Remote => Outcome(s.(thread := InRemote(e)), [])
    case Stop => Outcome(s, [Fatal])
  }

  function BeginKeyStep(s: State, k: KeyEvent): Outcome {
    match s.state
    case Normal => Outcome(s, [Returned(true)])
    case Remote => Outcome(s.(thread := InRemoteKey(k)), [])
    case Stop => Outcome(s, [Fatal])
  }

  function Step(s: State, a: Action): (o: Outcome)
    requires WellFormed(s) && Enabled(s, a)
    ensures WellFormed(o.after)
  {
    match a
    case Start =>
      if s.state != Stop then Outcome(s, [])
      else Outcome(StoppedState.(alive := true, state := Normal, prevPt := s.prevPt), [])
    case StopHook =>
      if s.state == Stop then Outcome(s, []) else Outcome(StoppedState.(prevPt := s.prevPt), [])
    case Register(pos, h) =>
      if s.state == Stop || s.entry[pos].Some? then Outcome(s, [])
      else Outcome(s.(entry := s.entry[pos := Some(h)]), [])
    case Unregister(pos) =>
      if s.state == Stop then Outcome(s, []) else Outcome(s.(entry := s.entry[pos := None]), [])
    case ControlReturn =>
      if s.state == Stop then Outcome(s, []) else Outcome(s.(state := Normal), [])
    case BeginMouse(e) => BeginMouseStep(s, e)
    case BeginKey(k) => BeginKeyStep(s, k)
    case NormalBody(cx, cy, accept) => NormalStep(s, s.thread.event, cx, cy, accept)
    case RemoteBody(cx, cy) => RemoteStep(s, s.thread.event, cx, cy)
    case CheckSlot => CheckStep(s, s.thread.msg, s.thread.callNext)
    case ReadFirst(contextFirst) => ReadStep(s, s.thread.msg, s.thread.callNext, contextFirst)
    case CallSlot => CallStep(s)
    case KeyBody => KeyStep(s, s.thread.key)
  }

  /** A start of a running hook, and every other call on a stopped one, changes nothing. */
  lemma WrongStateChangesNothing(s: State, a: Action)
    requires WellFormed(s) && Enabled(s, a)
    requires if s.state == Stop then a.StopHook? || a.Register? || a.Unregister? || a.ControlReturn? else a.Start?
    ensures Step(s, a) == Outcome(s, [])
  {
  }

  // ---------- the code ----------

  /** The globals of the hook and the hook thread's locals, updated in place. */
  class Hook {
    var alive: bool
    var state: HookState
    var currPos: nat
    var prevPt: Point
    var entry: array<Option<Handler>>
    var thread: Callback

    ghost predicate Valid() reads this, entry { entry.Length == NM_POS_MAX && WellFormed(Now()) }

    ghost function Now(): State reads this, entry { State(alive, state, currPos, prevPt, entry[..], thread) }

    constructor ()
      ensures Valid() && fresh(entry) && Now() == StoppedState
    {
      alive, state, currPos, prevPt, thread := false, Stop, NM_POS_MAX, Origin, Idle;
      entry := new Option<Handler>[4][None, None, None, None];
    }

    method Start() returns (ret: bool)
      requires Valid() && Enabled(Now(), Action.Start)
      modifies this, entry
      ensures Valid() && entry == old(entry)
      ensures Now() == Step(old(Now()), Action.Start).after
      ensures ret == (old(state) == HookState.Stop) && (!ret ==> Now() == old(Now()))
      ensures ret ==> state == Normal && alive && currPos == NM_POS_MAX && entry[..] == [None, None, None, None]
    {
      if state != HookState.Stop {
        return false;
      }
      ClearEntries();
      state, currPos := HookState.Stop, NM_POS_MAX;
      alive := true;
      state := Normal; // first act of the new hook thread, awaited before returning
      return true;
    }

    method ClearEntries()
      requires entry.Length == NM_POS_MAX
      modifies entry
      ensures entry[..] == [None, None, None, None]
    {
      for i := 0 to NM_POS_MAX
        invariant forall j :: 0 <= j < i ==> entry[j] == None
      {
        entry[i] := None;
      }
    }

    method StopHooking() returns (ret: bool)
      requires Valid() && Enabled(Now(), StopHook)
      modifies this, entry
      ensures Valid() && entry == old(entry)
      ensures Now() == Step(old(Now()), StopHook).after
      ensures ret == (old(state) != HookState.Stop) && (!ret ==> Now() == old(Now()))
      ensures state == HookState.Stop && !alive
      ensures ret ==> currPos == NM_POS_MAX && entry[..] == [None, None, None, None]
    {
      if state == HookState.Stop {
        return false;
      }
      alive := false;
      ClearEntries();
      state, currPos := HookState.Stop, NM_POS_MAX;
      return true;
    }

    /** Returns true whenever the hook runs, even if the slot was taken and nothing was installed. */
    method RegisterHandler(pos: Position, h: Handler) returns (ret: bool)
      requires Valid()
      modifies entry
      ensures Valid() && Now() == Step(old(Now()), Register(pos, h)).after
      ensures ret == (state != HookState.Stop)
      ensures (ret && entry[pos] == Some(h)) <==>
        state != HookState.Stop && (old(entry[pos]) == None || old(entry[pos]) == Some(h))
    {
      if state == HookState.Stop {
        return false;
      }
      ret := true;
      if entry[pos].Some? {
        ret := false;
      } else {
        entry[pos] := Some(h);
      }
      return true;
    }

    method UnRegisterHandler(pos: Position) returns (ret: bool)
      requires Valid()
      modifies entry
      ensures Valid() && Now() == Step(old(Now()), Unregister(pos)).after
      ensures ret == (state != HookState.Stop)
    {
      if state == HookState.Stop {
        return false;
      }
      entry[pos] := None;
      return true;
    }

    method TakeControlBack() returns (ret: bool)
      requires Valid()
      modifies this`state
      ensures Valid() && Now() == Step(old(Now()), ControlReturn).after
      ensures ret == (old(state) != HookState.Stop)
    {
      if state == HookState.Stop {
        return false;
      }
      state := Normal;
      return true;
    }

    /** First step of mouse_hook_func: read the state under the lock, then branch on the copy. */
    method MouseHookFunc(e: MouseEvent) returns (effects: seq<Effect>)
      requires Valid() && Enabled(Now(), BeginMouse(e))
      modifies this`thread
      ensures Valid() && Outcome(Now(), effects) == Step(old(Now()), BeginMouse(e))
    {
      var s := state;
      match s
      case Normal => thread := InNormal(e); effects := [];
      case Remote => thread := InRemote(e); effects := [];
      case Stop => effects := [Fatal];
    }

    method OnNormalMouseAction(cx: int, cy: int, accept: bool) returns (effects: seq<Effect>)
      requires Valid() && Enabled(Now(), NormalBody(cx, cy, accept))
      modifies this
      ensures Valid() && entry == old(entry)
      ensures Outcome(Now(), effects) == Step(old(Now()), NormalBody(cx, cy, accept))
    {
      var w, pt := thread.event.kind, thread.event.pt;
      thread := Idle;
      effects := [Returned(true)];
      if w != Move {
        return;
      }
      var msg := Enter(cx, cy, pt);
      var pos: Position;
      if pt.x < 0 {
        pos := NM_POS_LEFT;
      } else if pt.x > cx {
        pos := NM_POS_RIGHT;
      } else if pt.y < 0 {
        pos := NM_POS_UP;
      } else if pt.y > cy {
        pos := NM_POS_DOWN;
      } else {
        return;
      }
      if entry[pos].Some? {
        effects := [SentEnter(pos, entry[pos].value, msg, accept), Returned(true)];
        if accept {
          state := Remote;
          currPos := pos;
          prevPt := pt;
        }
      }
    }

    /** The locked part of on_remote_mouse_action. */
    method OnRemoteMouseAction(cx: int, cy: int) returns (effects: seq<Effect>)
      requires Valid() && Enabled(Now(), RemoteBody(cx, cy))
      modifies this
      ensures Valid() && entry == old(entry)
      ensures Outcome(Now(), effects) == Step(old(Now()), RemoteBody(cx, cy))
    {
      var w, pt, mouseData := thread.event.kind, thread.event.pt, thread.event.mouseData;
      var needSendMsg, needCallNext := true, true;
      var relative, data := Origin, 0;
      effects := [];
      match w {
        case Move =>
          if pt.x >= cx {
            prevPt := Point(0, pt.y);
            effects := [Warped(Point(-cx, 0), prevPt)];
            needSendMsg, needCallNext := false, false;
          } else if pt.x <= 0 {
            prevPt := Point(cx, pt.y);
            effects := [Warped(Point(cx, 0), prevPt)];
            needSendMsg, needCallNext := false, false;
          } else if pt.y >= cy {
            prevPt := Point(pt.x, 0);
            effects := [Warped(Point(0, -cy), prevPt)];
            needSendMsg, needCallNext := false, false;
          } else if pt.y <= 0 {
            prevPt := Point(pt.x, cy);
            effects := [Warped(Point(0, cy), prevPt)];
            needSendMsg, needCallNext := false, false;
          } else {
            relative := Point(pt.x - prevPt.x, pt.y - prevPt.y);
            prevPt := pt;
          }
        case LeftDown | LeftUp | Wheel =>
          data := HighWord(mouseData);
          needSendMsg, needCallNext := true, false;
        case HWheel | RightDown | RightUp =>
          needSendMsg, needCallNext := true, false;
        case OtherMouse =>
          needSendMsg, needCallNext := false, false;
      }
      if needSendMsg {
        thread := BeforeCheck(Mouse(w, relative, data), needCallNext);
      } else {
        thread := Idle;
        effects := effects + [Returned(needCallNext)];
      }
    }

    /** The unlocked accesses after it: test the slot, read handler and context, then call. */
    method CheckHandler() returns (effects: seq<Effect>)
      requires Valid() && Enabled(Now(), CheckSlot)
      modifies this`thread
      ensures Valid() && Outcome(Now(), effects) == Step(old(Now()), CheckSlot)
    {
      var msg, callNext := thread.msg, thread.callNext;
      if entry[currPos].Some? {
        thread := BeforeCall(msg, callNext);
        effects := [];
      } else {
        thread := Idle;
        effects := [LostInput(msg), Returned(callNext)];
      }
    }

    // The first of the call's two reads.
    method ReadFirst(contextFirst: bool)
      requires Valid() && Enabled(Now(), Action.ReadFirst(contextFirst))
      modifies this`thread
      ensures Valid() && Outcome(Now(), []) == Step(old(Now()), Action.ReadFirst(contextFirst))
    {
      var msg, callNext := thread.msg, thread.callNext;
      if contextFirst {
        var ctx := if entry[currPos].Some? then entry[currPos].value.ctx else 0;
        thread := ContextRead(msg, callNext, ctx);
      } else {
        var fn := if entry[currPos].Some? then Some(entry[currPos].value.fn) else None;
        thread := HandlerRead(msg, callNext, fn);
      }
    }

    /** The second read, and the call. */
    method CallHandler() returns (effects: seq<Effect>)
      requires Valid() && Enabled(Now(), CallSlot)
      modifies this`thread
      ensures Valid() && Outcome(Now(), effects) == Step(old(Now()), CallSlot)
    {
      var msg, callNext := thread.msg, thread.callNext;
      var fn, ctx := None, 0;
      if thread.HandlerRead? {
        fn := thread.fn;
        if entry[currPos].Some? {
          ctx := entry[currPos].value.ctx;
        }
      } else {
        ctx := thread.ctx;
        if entry[currPos].Some? {
          fn := Some(entry[currPos].value.fn);
        }
      }
      thread := Idle;
      if fn.Some? {
        effects := [SentInput(currPos, Handler(fn.value, ctx), msg), Returned(callNext)];
      } else {
        effects := [CalledNull(msg)];
      }
    }

    method KeyboardHookFunc(k: KeyEvent) returns (effects: seq<Effect>)
      requires Valid() && Enabled(Now(), BeginKey(k))
      modifies this`thread
      ensures Valid() && Outcome(Now(), effects) == Step(old(Now()), BeginKey(k))
    {
      var s := state;
      match s
      case Normal => effects := [Returned(true)];
      case Remote => thread := InRemoteKey(k); effects := [];
      case Stop => effects := [Fatal];
    }

    /** The locked test and call of keyboard_hook_func; a remote key event is always swallowed. */
    method SendKey() returns (effects: seq<Effect>)
      requires Valid() && Enabled(Now(), KeyBody)
      modifies this`thread
      ensures Valid() && Outcome(Now(), effects) == Step(old(Now()), KeyBody)
    {
      var w := thread.key.kind;
      var isKeyDown, needSendMsg, vk, scan := false, false, 0, 0;
      match w {
        case KeyDown | SysKeyDown =>
          isKeyDown, needSendMsg := true, true;
          vk, scan := thread.key.vkCode % 0x100, thread.key.scanCode % 0x100;
        case KeyUp | SysKeyUp =>
          isKeyDown, needSendMsg := false, true;
          vk, scan := thread.key.vkCode % 0x100, thread.key.scanCode % 0x100;
        case OtherKey =>
          isKeyDown, needSendMsg := false, false;
      }
      thread := Idle;
      effects := [Returned(false)];
      if needSendMsg {
        var msg := Keyboard(isKeyDown, vk, scan);
        if entry[currPos].Some? {
          effects := [SentInput(currPos, entry[currPos].value, msg), Returned(false)];
        } else {
          effects := [LostInput(msg), Returned(false)];
        }
      }
    }
  }
}
