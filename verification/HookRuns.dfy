/** What every interleaving of the hook's steps keeps. A run is any sequence of enabled steps. */
module HookRuns {
  import opened Options
  import opened ClientHook
  import opened Sequences

  // ---------- runs ----------

  predicate IsRun(s: State, acts: seq<Action>)
    requires WellFormed(s)
    decreases |acts|
  {
    acts != [] ==> Enabled(s, acts[0]) && IsRun(Step(s, acts[0]).after, acts[1..])
  }

  function Final(s: State, acts: seq<Action>): (t: State)
    requires WellFormed(s) && IsRun(s, acts)
    ensures WellFormed(t)
    decreases |acts|
  {
    if acts == [] then s else Final(Step(s, acts[0]).after, acts[1..])
  }

  function Trace(s: State, acts: seq<Action>): seq<Effect>
    requires WellFormed(s) && IsRun(s, acts)
    decreases |acts|
  {
    if acts == [] then [] else Step(s, acts[0]).effects + Trace(Step(s, acts[0]).after, acts[1..])
  }

  lemma {:induction false} RunSplit(s: State, a: seq<Action>, b: seq<Action>)
    requires WellFormed(s) && IsRun(s, a + b)
    ensures IsRun(s, a) && IsRun(Final(s, a), b)
    ensures Final(s, a + b) == Final(Final(s, a), b)
    ensures Trace(s, a + b) == Trace(s, a) + Trace(Final(s, a), b)
    decreases |a|
  {
    if a == [] {
      assert a + b == b;
    } else {
      assert (a + b)[0] == a[0] && (a + b)[1..] == a[1..] + b;
      var o := Step(s, a[0]);
      RunSplit(o.after, a[1..], b);
      Associate(o.effects, Trace(o.after, a[1..]), Trace(Final(s, a), b));
    }
  }

  lemma {:induction false} RunJoin(s: State, a: seq<Action>, b: seq<Action>)
    requires WellFormed(s) && IsRun(s, a) && IsRun(Final(s, a), b)
    ensures IsRun(s, a + b)
    decreases |a|
  {
    if a == [] {
      assert a + b == b;
    } else {
      assert (a + b)[0] == a[0] && (a + b)[1..] == a[1..] + b;
      RunJoin(Step(s, a[0]).after, a[1..], b);
    }
  }

  lemma Join(s: State, a: seq<Action>, b: seq<Action>)
    requires WellFormed(s) && IsRun(s, a) && IsRun(Final(s, a), b)
    ensures IsRun(s, a + b)
    ensures Final(s, a + b) == Final(Final(s, a), b)
    ensures Trace(s, a + b) == Trace(s, a) + Trace(Final(s, a), b)
  {
    RunJoin(s, a, b);
    RunSplit(s, a, b);
  }

  lemma Single(s: State, a: Action)
    requires WellFormed(s) && Enabled(s, a)
    ensures IsRun(s, [a]) && Outcome(Final(s, [a]), Trace(s, [a])) == Step(s, a)
  {
    assert [a][1..] == [];
  }

  // One more step of a run, where it leads and what it does.
  lemma Walk(acts: seq<Action>, a: Action, t: State, effects: seq<Effect>) returns (next: seq<Action>)
    requires IsRun(StoppedState, acts) && Enabled(Final(StoppedState, acts), a)
    requires Step(Final(StoppedState, acts), a) == Outcome(t, effects)
    ensures next == acts + [a] && IsRun(StoppedState, next)
    ensures Final(StoppedState, next) == t && Trace(StoppedState, next) == Trace(StoppedState, acts) + effects
  {
    next := acts + [a];
    Single(Final(StoppedState, acts), a);
    Join(StoppedState, acts, [a]);
  }

  // A state that is reached: a 100 x 100 screen, the pointer handed over to the right.
  const Crossing := Point(101, 50)

  function HandedOver(h: Handler): State { State(true, Remote, NM_POS_RIGHT, Crossing, [None, Some(h), None, None], Idle) }

  function HandOver(h: Handler): seq<Effect> {
    [SentEnter(NM_POS_RIGHT, h, Enter(100, 100, Crossing), true), Returned(true)]
  }

  lemma ToRemote(h: Handler) returns (acts: seq<Action>)
    ensures IsRun(StoppedState, acts)
    ensures Final(StoppedState, acts) == HandedOver(h) && Trace(StoppedState, acts) == HandOver(h)
  {
    var normal := StoppedState.(alive := true, state := Normal);
    var move := MouseEvent(Move, Crossing, 0);
    acts := Walk([], Start, normal, []);
    normal := normal.(entry := [None, Some(h), None, None]);
    acts := Walk(acts, Register(NM_POS_RIGHT, h), normal, []);
    acts := Walk(acts, BeginMouse(move), normal.(thread := InNormal(move)), []);
    acts := Walk(acts, NormalBody(100, 100, true), HandedOver(h), HandOver(h));
  }

  predicate AcceptedEnter(e: Effect) { e.SentEnter? && e.accepted }

  function Inputs(t: seq<Effect>): nat {
    if t == [] then 0 else (if t[0].SentInput? then 1 else 0) + Inputs(t[1..])
  }

  lemma {:induction false} InputsOfConcat(a: seq<Effect>, b: seq<Effect>)
    ensures Inputs(a + b) == Inputs(a) + Inputs(b)
  {
    if a == [] {
      assert a + b == b;
    } else {
      assert (a + b)[1..] == a[1..] + b;
      InputsOfConcat(a[1..], b);
    }
  }

  lemma InputsShort(t: seq<Effect>)
    requires |t| <= 2
    ensures Inputs(t) == (if |t| > 0 && t[0].SentInput? then 1 else 0) + (if |t| > 1 && t[1].SentInput? then 1 else 0)
  {
    if |t| == 1 { assert t[1..] == []; }
    if |t| == 2 { assert t[1..][0] == t[1] && t[1..][1..] == []; }
  }

  // ---------- giving control back ----------

  lemma StepDeliversWhatIsInFlight(s: State, a: Action)
    requires WellFormed(s) && Enabled(s, a) && s.state != Remote
    requires forall e <- Step(s, a).effects :: !AcceptedEnter(e)
    ensures Inputs(Step(s, a).effects) + InFlight(Step(s, a).after.thread) <= InFlight(s.thread)
    ensures Step(s, a).after.state != Remote
  {
    InputsShort(Step(s, a).effects);
    match a
    case NormalBody(cx, cy, accept) =>
      if accept && |Step(s, a).effects| == 2 { assert AcceptedEnter(Step(s, a).effects[0]); }
    case _ =>
  }

  function InFlight(c: Callback): nat { if ActsRemotely(c) then 1 else 0 }

  /** Away from REMOTE and without a newly accepted ENTER, only a callback already committed to the
      remote side can still deliver. */
  lemma {:induction false} OnlyTheStaleCallbackDelivers(s: State, acts: seq<Action>)
    requires WellFormed(s) && IsRun(s, acts) && s.state != Remote
    requires forall e <- Trace(s, acts) :: !AcceptedEnter(e)
    ensures Inputs(Trace(s, acts)) + InFlight(Final(s, acts).thread) <= InFlight(s.thread)
    ensures Final(s, acts).state != Remote
    decreases |acts|
  {
    if acts != [] {
      var o := Step(s, acts[0]);
      var rest := Trace(o.after, acts[1..]);
      assert forall e <- o.effects :: e in Trace(s, acts);
      assert forall e <- rest :: e in Trace(s, acts);
      StepDeliversWhatIsInFlight(s, acts[0]);
      OnlyTheStaleCallbackDelivers(o.after, acts[1..]);
      InputsOfConcat(o.effects, rest);
    }
  }

  /** In every interleaving, at most one mouse or keyboard message is delivered after a
      Hook_Cli_ControlReturn and before the next accepted ENTER, and none if no callback was
      acting remotely at that moment. */
  lemma AtMostOneMessageAfterControlReturn(s: State, acts: seq<Action>)
    requires WellFormed(s) && IsRun(Step(s, ControlReturn).after, acts)
    requires forall e <- Trace(Step(s, ControlReturn).after, acts) :: !AcceptedEnter(e)
    ensures Inputs(Trace(Step(s, ControlReturn).after, acts)) <= InFlight(s.thread) <= 1
  {
    OnlyTheStaleCallbackDelivers(Step(s, ControlReturn).after, acts);
  }

  /** The bound is reached: in this run from a stopped hook a key callback reads REMOTE, control is given
      back, and the callback still delivers. */
  lemma AStaleMessageCanFollow(h: Handler) returns (acts: seq<Action>)
    ensures IsRun(StoppedState, acts)
    ensures var t := Step(Final(StoppedState, acts), ControlReturn).after;
      IsRun(t, [KeyBody]) && Inputs(Trace(t, [KeyBody])) == 1
  {
    var key := KeyEvent(KeyDown, 65, 30);
    acts := ToRemote(h);
    acts := Walk(acts, BeginKey(key), HandedOver(h).(thread := InRemoteKey(key)), []);
    var t := Step(Final(StoppedState, acts), ControlReturn).after;
    Single(t, KeyBody);
    InputsShort(Trace(t, [KeyBody]));
  }

  // ---------- where messages go ----------

  // The slot whose handler most recently accepted ENTER, in trace order.
  function LastAccepted(t: seq<Effect>, start: Option<nat>): Option<nat> {
    if t == [] then start
    else LastAccepted(t[1..], if AcceptedEnter(t[0]) then Some(t[0].pos) else start)
  }

  // Every input is addressed to the slot that most recently accepted ENTER; nothing fatal happens.
  predicate WellAddressed(t: seq<Effect>, last: Option<nat>) {
    t != [] ==>
      && !t[0].Fatal?
      && (t[0].SentInput? ==> last == Some(t[0].pos) && t[0].pos < NM_POS_MAX)
      && WellAddressed(t[1..], if AcceptedEnter(t[0]) then Some(t[0].pos) else last)
  }

  lemma {:induction false} AddressedConcat(a: seq<Effect>, b: seq<Effect>, last: Option<nat>)
    ensures WellAddressed(a + b, last) <==> WellAddressed(a, last) && WellAddressed(b, LastAccepted(a, last))
    ensures LastAccepted(a + b, last) == LastAccepted(b, LastAccepted(a, last))
  {
    if a == [] {
      assert a + b == b;
    } else {
      assert (a + b)[1..] == a[1..] + b;
      AddressedConcat(a[1..], b, if AcceptedEnter(a[0]) then Some(a[0].pos) else last);
    }
  }

  lemma AddressedOne(e: Effect, last: Option<nat>)
    ensures WellAddressed([e], last) <==>
      !e.Fatal? && (e.SentInput? ==> last == Some(e.pos) && e.pos < NM_POS_MAX)
    ensures LastAccepted([e], last) == if AcceptedEnter(e) then Some(e.pos) else last
  {
    assert [e][1..] == [];
  }

  // The current position is the last accepted one whenever the machine acts, or may act, remotely.
  predicate Located(s: State, last: Option<nat>) {
    ActsRemotely(s.thread) || s.state == Remote ==> last == Some(s.currPos)
  }

  lemma StepKeepsLocation(s: State, a: Action, last: Option<nat>)
    requires WellFormed(s) && Enabled(s, a) && Located(s, last)
    ensures WellAddressed(Step(s, a).effects, last)
    ensures Located(Step(s, a).after, LastAccepted(Step(s, a).effects, last))
  {
    var t := Step(s, a).effects;
    if |t| == 1 { assert t == [t[0]]; AddressedOne(t[0], last); }
    if |t| == 2 {
      assert t == [t[0]] + [t[1]];
      AddressedOne(t[0], last);
      AddressedOne(t[1], LastAccepted([t[0]], last));
      AddressedConcat([t[0]], [t[1]], last);
    }
  }

  lemma {:induction false} RunKeepsLocation(s: State, acts: seq<Action>, last: Option<nat>)
    requires WellFormed(s) && IsRun(s, acts) && Located(s, last)
    ensures WellAddressed(Trace(s, acts), last)
    ensures Located(Final(s, acts), LastAccepted(Trace(s, acts), last))
    decreases |acts|
  {
    if acts != [] {
      var o := Step(s, acts[0]);
      StepKeepsLocation(s, acts[0], last);
      RunKeepsLocation(o.after, acts[1..], LastAccepted(o.effects, last));
      AddressedConcat(o.effects, Trace(o.after, acts[1..]), last);
    }
  }

  /** From a stopped hook on: a callback acting on a REMOTE snapshot, even a stale one, finds a real
      slot index, the one whose handler most recently accepted ENTER, and every message went there. */
  lemma RemoteActsOnTheAcceptedSlot(acts: seq<Action>)
    requires IsRun(StoppedState, acts)
    ensures WellAddressed(Trace(StoppedState, acts), None)
    ensures var s := Final(StoppedState, acts);
      ActsRemotely(s.thread) ==>
        s.currPos < NM_POS_MAX && LastAccepted(Trace(StoppedState, acts), None) == Some(s.currPos)
  {
    RunKeepsLocation(StoppedState, acts, None);
  }

  // One step: an ENTER is offered exactly for a move beyond a screen border with a handler on that side,
  // the horizontal borders first.
  lemma EnterGoesToTheCrossedSide(s: State, cx: nat, cy: nat, accept: bool, pos: nat, h: Handler, msg: Message)
    requires WellFormed(s) && s.thread.InNormal?
    ensures var o := Step(s, NormalBody(cx, cy, accept));
      var pt := s.thread.event.pt;
      SentEnter(pos, h, msg, accept) in o.effects <==>
        && s.thread.event.kind == Move && msg == Enter(cx, cy, pt) && pos < NM_POS_MAX && s.entry[pos] == Some(h)
        && (pos == NM_POS_LEFT <==> pt.x < 0)
        && (pos == NM_POS_RIGHT <==> pt.x > cx)
        && (pos == NM_POS_UP <==> 0 <= pt.x <= cx && pt.y < 0)
        && (pos == NM_POS_DOWN <==> 0 <= pt.x <= cx && pt.y > cy)
  {
  }

  // The border a remote move has hit: its axis, x before y, and whether it is the far one.
  datatype Border = Border(horizontal: bool, far: bool)

  predicate Hits(cx: int, cy: int, pt: Point, b: Border) {
    if b.horizontal then (if b.far then pt.x >= cx else pt.x <= 0)
    else 0 < pt.x < cx && (if b.far then pt.y >= cy else pt.y <= 0)
  }

  /** A warp leads to the opposite border: it requests the screen's full extent away from the border hit and
      nothing on the other axis, and anchors on the opposite border with the other coordinate kept. There is
      a warp exactly when a border is hit. */
  lemma WarpLeadsToTheOppositeBorder(cx: int, cy: int, pt: Point, b: Border)
    requires cx > 0 && cy > 0 && Hits(cx, cy, pt, b)
    ensures var extent := if b.horizontal then cx else cy;
      var hit := if b.far then extent else 0;
      EdgeWarp(cx, cy, pt) == Some(
        if b.horizontal then Warped(Point(extent - 2 * hit, 0), Point(extent - hit, pt.y))
        else Warped(Point(0, extent - 2 * hit), Point(pt.x, extent - hit)))
  {
  }

  lemma WarpIffABorderIsHit(cx: int, cy: int, pt: Point)
    requires cx > 0 && cy > 0
    ensures EdgeWarp(cx, cy, pt).Some? <==> !(0 < pt.x < cx && 0 < pt.y < cy)
    ensures EdgeWarp(cx, cy, pt).Some? <==> exists b :: Hits(cx, cy, pt, b)
  {
    if EdgeWarp(cx, cy, pt).Some? {
      var b := Border(!(0 < pt.x < cx), if 0 < pt.x < cx then pt.y >= cy else pt.x >= cx);
      assert Hits(cx, cy, pt, b);
    }
  }

  /** The new anchor is where the requested warp would put the pointer exactly when the pointer sits
      on the border itself; past the border the anchor is the opposite border all the same. */
  lemma AnchorIsWarpTargetIffOnTheBorder(cx: int, cy: int, pt: Point)
    requires cx > 0 && cy > 0 && EdgeWarp(cx, cy, pt).Some?
    ensures var w := EdgeWarp(cx, cy, pt).value;
      w.Warped? && (w.anchor == pt.Plus(w.request) <==>
        pt.x == cx || pt.x == 0 || (0 < pt.x < cx && (pt.y == cy || pt.y == 0)))
    ensures EdgeWarp(cx, cy, pt).value.anchor.x in {0, pt.x, cx} && EdgeWarp(cx, cy, pt).value.anchor.y in {0, pt.y, cy}
  {
  }
}
