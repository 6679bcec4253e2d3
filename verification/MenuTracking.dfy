/** Everything that can happen to menus while a popup is tracked: popups initialised, and on an attached bar
    menu-select messages that clean up in the middle. */
module MenuTracking {
  import opened MenuConversion
  import opened MenuRestoration

  // Menus at rest whose popups pending have been converted and not yet set back.
  function Pending(m: Memory, cs: seq<int>, pending: seq<Menu>): Tracking
    requires forall h <- pending :: h in m.menus
  {
    Tracking(ConvertAll(m, cs, pending), pending)
  }

  lemma PendingInit(m: Memory, cs: seq<int>, attached: bool, pending: seq<Menu>, h: Menu)
    requires h != 0 && h in m.menus && 0 !in pending && forall g <- pending :: g in m.menus
    ensures forall g <- pending + [h] :: g in m.menus
    ensures Handled(Pending(m, cs, pending), cs, attached, Init(h)) == Pending(m, cs, pending + [h])
  {
    var all := pending + [h];
    assert all[..|all| - 1] == pending && all[|all| - 1] == h;
  }

  // Whether a closing menu-select comes while the menu is converted.
  predicate ClosesLater(pending: bool, events: seq<Message>, h: Menu)
    decreases |events|
  {
    events != [] &&
    match events[0]
    case Init(g) => ClosesLater(pending || g == h, events[1..], h)
    case Select(closing) => (closing && pending) || ClosesLater(pending, events[1..], h)
  }

  // The same in one sentence.
  predicate SelectAfterInit(pending: bool, events: seq<Message>, h: Menu) {
    exists j | 0 <= j < |events| :: events[j] == Select(true) && (pending || Init(h) in events[..j])
  }

  lemma {:induction false} ClosesLaterIff(pending: bool, events: seq<Message>, h: Menu)
    ensures ClosesLater(pending, events, h) <==> SelectAfterInit(pending, events, h)
    decreases |events|
  {
    if events != [] {
      var rest := events[1..];
      var now := pending || events[0] == Init(h);
      ClosesLaterIff(now, rest, h);
      forall j | 0 < j < |events|
        ensures events[j] == rest[j - 1]
        ensures Init(h) in events[..j] <==> events[0] == Init(h) || Init(h) in rest[..j - 1]
      {
        assert events[..j] == [events[0]] + rest[..j - 1];
      }
      if SelectAfterInit(now, rest, h) {
        var j :| 0 <= j < |rest| && rest[j] == Select(true) && (now || Init(h) in rest[..j]);
        assert events[j + 1] == Select(true);
      }
      if SelectAfterInit(pending, events, h) && !(events[0] == Select(true) && pending) {
        var j :| 0 <= j < |events| && events[j] == Select(true) && (pending || Init(h) in events[..j]);
        if j > 0 { assert rest[j - 1] == Select(true); }
      }
    }
  }

  // What an item is after tracking.
  function Afterwards(o: Item, initialised: bool, closed: bool): Item {
    if initialised && !o.ownerDraw then Returned(o, closed) else o
  }

  lemma ReturnedTwice(o: Item, first: bool, second: bool)
    ensures Returned(Returned(o, true), second) == Returned(o, true)
    ensures Returned(Returned(o, first), false) == Returned(o, first)
  {
  }

  ghost predicate TrackedWell(m: Memory, r: Tracking, attached: bool, pending: seq<Menu>, events: seq<Message>) {
    && r.stack == [] && AtRest(r.memory) && SameShape(m, r.memory)
    && forall h <- m.menus, i | 0 <= i < |m.menus[h]| :: ItemTracked(m, r, attached, pending, events, h, i)
  }

  ghost predicate ItemTracked(m: Memory, r: Tracking, attached: bool, pending: seq<Menu>, events: seq<Message>, h: Menu, i: nat)
    requires m.HasItem(h, i) && r.memory.HasItem(h, i)
  {
    r.memory.menus[h][i]
      == Afterwards(m.menus[h][i], h in pending || Init(h) in events, attached && ClosesLater(h in pending, events, h))
  }

  lemma {:induction false} TrackingFrom(m: Memory, cs: seq<int>, attached: bool, pending: seq<Menu>, events: seq<Message>)
    requires AtRest(m) && 0 !in pending && (forall h <- pending :: h in m.menus)
    requires forall e <- events :: e.Init? ==> e.h != 0 && e.h in m.menus
    ensures TrackedWell(m, CleanedUp(HandledAll(Pending(m, cs, pending), cs, attached, events)), attached, pending, events)
    decreases |events|
  {
    var t := Pending(m, cs, pending);
    if events == [] {
      CleanupRestoresEveryItem(m, cs, false, pending);
      var r := CleanedUp(t);
      forall h <- m.menus, i | 0 <= i < |m.menus[h]|
        ensures ItemTracked(m, r, attached, pending, events, h, i)
      {
      }
    } else {
      var rest := events[1..];
      assert events[0] in events && forall e <- rest :: e in events;
      if events[0].Init? {
        InitFirst(m, cs, attached, pending, events);
      } else if attached && events[0].closing {
        CloseFirst(m, cs, pending, events);
      } else {
        TrackingFrom(m, cs, attached, pending, rest);
        var r := CleanedUp(HandledAll(t, cs, attached, rest));
        forall h <- m.menus, i | 0 <= i < |m.menus[h]|
          ensures ItemTracked(m, r, attached, pending, events, h, i)
        {
          assert ItemTracked(m, r, attached, pending, rest, h, i);
          assert Init(h) in events <==> Init(h) in rest;
        }
      }
    }
  }

  lemma {:induction false} InitFirst(m: Memory, cs: seq<int>, attached: bool, pending: seq<Menu>, events: seq<Message>)
    requires AtRest(m) && 0 !in pending && (forall h <- pending :: h in m.menus)
    requires events != [] && events[0].Init? && forall e <- events :: e.Init? ==> e.h != 0 && e.h in m.menus
    ensures TrackedWell(m, CleanedUp(HandledAll(Pending(m, cs, pending), cs, attached, events)), attached, pending, events)
    decreases |events|, 0
  {
    var g, rest := events[0].h, events[1..];
    assert events[0] in events && forall e <- rest :: e in events;
    PendingInit(m, cs, attached, pending, g);
    TrackingFrom(m, cs, attached, pending + [g], rest);
    var r := CleanedUp(HandledAll(Pending(m, cs, pending + [g]), cs, attached, rest));
    forall h <- m.menus, i | 0 <= i < |m.menus[h]|
      ensures ItemTracked(m, r, attached, pending, events, h, i)
    {
      assert ItemTracked(m, r, attached, pending + [g], rest, h, i);
      assert Init(h) in events <==> h == g || Init(h) in rest;
    }
  }

  lemma {:induction false} CloseFirst(m: Memory, cs: seq<int>, pending: seq<Menu>, events: seq<Message>)
    requires AtRest(m) && 0 !in pending && (forall h <- pending :: h in m.menus)
    requires events != [] && events[0] == Select(true) && forall e <- events :: e.Init? ==> e.h != 0 && e.h in m.menus
    ensures TrackedWell(m, CleanedUp(HandledAll(Pending(m, cs, pending), cs, true, events)), true, pending, events)
    decreases |events|, 0
  {
    var rest, closed := events[1..], Restored(m, cs, true, pending);
    assert forall e <- rest :: e in events;
    CleanupRestoresEveryItem(m, cs, true, pending);
    TrackingFrom(closed, cs, true, [], rest);
    assert Pending(closed, cs, []) == Tracking(closed, []);
    var r := CleanedUp(HandledAll(Tracking(closed, []), cs, true, rest));
    forall h <- m.menus, i | 0 <= i < |m.menus[h]|
      ensures ItemTracked(m, r, true, pending, events, h, i)
    {
      assert ItemTracked(closed, r, true, [], rest, h, i);
      assert Init(h) in events <==> Init(h) in rest;
      ReturnedTwice(m.menus[h][i], true, ClosesLater(false, rest, h));
      if h !in pending { assert closed.menus[h][i] == m.menus[h][i]; }
    }
  }

  /** For every sequence of messages while a popup is tracked, popups of the same menu any number of times and,
      on an attached bar, closing menu-selects anywhere: afterwards the handle stack is empty, no record is
      live and each was freed exactly once; the items of initialised menus have the type and text they had,
      and their state unless the bar is attached and a closing menu-select followed an initialisation of
      their menu, which zeroes it; owner-draw items of others and all other menus are untouched. */
  lemma TrackingRestoresEveryItem(m: Memory, cs: seq<int>, attached: bool, events: seq<Message>)
    requires AtRest(m) && forall e <- events :: e.Init? ==> e.h != 0 && e.h in m.menus
    ensures var r := CleanedUp(HandledAll(Tracking(m, []), cs, attached, events));
      && r.stack == [] && AtRest(r.memory) && SameShape(m, r.memory)
      && forall h <- m.menus, i | 0 <= i < |m.menus[h]| ::
           r.memory.menus[h][i]
             == Afterwards(m.menus[h][i], Init(h) in events, attached && SelectAfterInit(false, events, h))
  {
    assert Pending(m, cs, []) == Tracking(m, []);
    TrackingFrom(m, cs, attached, [], events);
    var r := CleanedUp(HandledAll(Tracking(m, []), cs, attached, events));
    forall h <- m.menus, i | 0 <= i < |m.menus[h]|
      ensures r.memory.menus[h][i]
        == Afterwards(m.menus[h][i], Init(h) in events, attached && SelectAfterInit(false, events, h))
    {
      assert ItemTracked(m, r, attached, [], events, h, i);
      ClosesLaterIff(false, events, h);
    }
  }

  /** An item the bar may convert, and that was checked or disabled, loses that state exactly when the bar is
      attached and a closing menu-select comes after an initialisation of its menu. */
  lemma StateIsLostIff(m: Memory, cs: seq<int>, attached: bool, events: seq<Message>, h: Menu, i: nat)
    requires AtRest(m) && forall e <- events :: e.Init? ==> e.h != 0 && e.h in m.menus
    requires m.HasItem(h, i) && !m.menus[h][i].ownerDraw && m.menus[h][i].state != 0
    ensures var r := CleanedUp(HandledAll(Tracking(m, []), cs, attached, events)).memory;
      && r.HasItem(h, i)
      && (r.menus[h][i].state != m.menus[h][i].state <==>
            attached && exists j | 0 <= j < |events| :: events[j] == Select(true) && Init(h) in events[..j])
  {
    TrackingRestoresEveryItem(m, cs, attached, events);
    var r := CleanedUp(HandledAll(Tracking(m, []), cs, attached, events)).memory;
    assert r.menus[h][i] == Afterwards(m.menus[h][i], Init(h) in events, attached && SelectAfterInit(false, events, h));
    if j :| 0 <= j < |events| && events[j] == Select(true) && Init(h) in events[..j] {
      assert Init(h) in events;
    }
  }
}
