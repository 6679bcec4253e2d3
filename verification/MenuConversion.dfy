/** The command bar's menus: popup items are turned into owner-draw items while a popup is tracked, and
    turned back afterwards. Menus live in the system, item records in memory the bar allocates. */
module MenuConversion {

  type Menu = int // HMENU; 0 is NULL
  const MAX_TEXT := 100

  // dwItemData: nothing, somebody else's value, or a pointer to one of the bar's records.
  datatype Data = NoData | Foreign(value: int) | Ours(id: nat)

  // fType is kept as its owner-draw bit and the rest.
  datatype Item = Item(ownerDraw: bool, kind: int, state: int, text: string, id: int, data: Data)

  datatype Record = Record(kind: int, state: int, text: string, button: int)

  // The menus, the live records, how often each record was freed, and how many were allocated.
  datatype Memory = Memory(menus: map<Menu, seq<Item>>, records: map<nat, Record>, freed: multiset<nat>, issued: nat)
  {
    predicate HasItem(h: Menu, i: nat) { h in menus && i < |menus[h]| }

    predicate IsOurs(it: Item) { it.data.Ours? && it.data.id in records }
  }

  // GetMenuItemInfo fills a buffer of MAX_TEXT characters, terminator included.
  function Cut(text: string): string { if |text| > MAX_TEXT - 1 then text[..MAX_TEXT - 1] else text }

  // Index of the command among the bar's buttons, or -1.
  function Button(commands: seq<int>, id: int): (j: int)
    ensures -1 <= j < |commands|
    ensures j >= 0 ==> commands[j] == id && id !in commands[..j]
    ensures j == -1 <==> id !in commands
  {
    if commands == [] then -1
    else if commands[0] == id then 0
    else
      var j := Button(commands[1..], id);
      assert j >= 0 ==> commands[..j + 1] == [commands[0]] + commands[1..][..j];
      if j < 0 then -1 else j + 1
  }

  // ---------- the operations on values ----------

  function Saved(it: Item, commands: seq<int>): Record {
    Record(it.kind, it.state, Cut(it.text), Button(commands, it.id))
  }

  /** The record of an item names the bar's first button with the item's command, or none if there is none, and
      keeps its type and state and what fits of its text. */
  lemma RecordTellsTheItem(it: Item, commands: seq<int>)
    ensures var rec := Saved(it, commands);
      && rec.kind == it.kind && rec.state == it.state && rec.text <= it.text
      && (|it.text| < MAX_TEXT ==> rec.text == it.text) && (|it.text| >= MAX_TEXT ==> |rec.text| == MAX_TEXT - 1)
      && (it.id !in commands ==> rec.button == -1)
      && (it.id in commands ==>
            0 <= rec.button < |commands| && commands[rec.button] == it.id && it.id !in commands[..rec.button])
  {
  }

  function ConvertAt(m: Memory, commands: seq<int>, h: Menu, i: nat): (r: Memory)
    requires m.HasItem(h, i)
    ensures r.menus.Keys == m.menus.Keys && |r.menus[h]| == |m.menus[h]|
  {
    var it := m.menus[h][i];
    if it.ownerDraw then m
    else
      var converted := it.(ownerDraw := true, text := Cut(it.text), data := Ours(m.issued));
      Memory(m.menus[h := m.menus[h][i := converted]], m.records[m.issued := Saved(it, commands)], m.freed, m.issued + 1)
  }

  /** What conversion leaves: an owner-draw item that points to its own new record and shows what fits of its
      text, with type, state and command as before; all other items, records and menus as they were. */
  lemma ConvertedItem(m: Memory, commands: seq<int>, h: Menu, i: nat)
    requires m.HasItem(h, i) && !m.menus[h][i].ownerDraw && m.issued !in m.records
    ensures var r, o := ConvertAt(m, commands, h, i), m.menus[h][i];
      var c := r.menus[h][i];
      && c.ownerDraw && c.kind == o.kind && c.state == o.state && c.id == o.id
      && c.text <= o.text && (|o.text| < MAX_TEXT ==> c.text == o.text) && (|o.text| >= MAX_TEXT ==> |c.text| == MAX_TEXT - 1)
      && c.data.Ours? && c.data.id !in m.records && r.records == m.records[c.data.id := Saved(o, commands)]
      && (forall g <- m.menus, j | 0 <= j < |m.menus[g]| && (g, j) != (h, i) :: r.menus[g][j] == m.menus[g][j])
      && r.freed == m.freed
  {
  }

  function ConvertFrom(m: Memory, commands: seq<int>, h: Menu, i: nat): (r: Memory)
    requires h in m.menus && i <= |m.menus[h]|
    ensures r.menus.Keys == m.menus.Keys
    decreases |m.menus[h]| - i
  {
    if i == |m.menus[h]| then m else ConvertFrom(ConvertAt(m, commands, h, i), commands, h, i + 1)
  }

  function ConvertAll(m: Memory, commands: seq<int>, inits: seq<Menu>): (r: Memory)
    requires forall h <- inits :: h in m.menus
    ensures r.menus.Keys == m.menus.Keys
    decreases |inits|
  {
    if inits == [] then m
    else
      var last := |inits| - 1;
      assert inits[last] in inits && forall h <- inits[..last] :: h in inits;
      ConvertFrom(ConvertAll(m, commands, inits[..last]), commands, inits[last], 0)
  }

  // The cleanup of a closing attached menu (closing) sets the state from a structure that has none.
  function RestoredBy(it: Item, rec: Record, closing: bool): Item {
    Item(false, rec.kind, if closing then 0 else rec.state, rec.text, it.id, NoData)
  }

  function RestoreAt(m: Memory, h: Menu, i: nat, closing: bool): (r: Memory)
    requires m.HasItem(h, i)
    ensures r.menus.Keys == m.menus.Keys && |r.menus[h]| == |m.menus[h]|
  {
    var it := m.menus[h][i];
    if !m.IsOurs(it) then m
    else
      var id := it.data.id;
      Memory(m.menus[h := m.menus[h][i := RestoredBy(it, m.records[id], closing)]], m.records - {id}, m.freed + multiset{id}, m.issued)
  }

  function RestoreFrom(m: Memory, h: Menu, i: nat, closing: bool): (r: Memory)
    requires h in m.menus && i <= |m.menus[h]|
    ensures r.menus.Keys == m.menus.Keys
    decreases |m.menus[h]| - i
  {
    if i == |m.menus[h]| then m else RestoreFrom(RestoreAt(m, h, i, closing), h, i + 1, closing)
  }

  // The cleanup loop over a handle stack, last pushed first.
  function RestoreAll(m: Memory, stack: seq<Menu>, closing: bool): (r: Memory)
    requires forall h <- stack :: h in m.menus
    ensures r.menus.Keys == m.menus.Keys
    decreases |stack|
  {
    if stack == [] then m
    else
      var last := |stack| - 1;
      assert stack[last] in stack && forall h <- stack[..last] :: h in stack;
      RestoreAll(RestoreFrom(m, stack[last], 0, closing), stack[..last], closing)
  }

  lemma PopRestores(m: Memory, stack: seq<Menu>, closing: bool)
    requires stack != [] && forall h <- stack :: h in m.menus
    ensures var h, left := stack[|stack| - 1], stack[..|stack| - 1];
      && h in stack && (forall g <- left :: g in stack)
      && RestoreAll(m, stack, closing) == RestoreAll(RestoreFrom(m, h, 0, closing), left, closing)
  {
  }

  // ---------- messages ----------

  // What the bar gets while menus are up: a popup about to be shown, or a menu-select message, with
  // closing when the menu goes away.
  datatype Message = Init(h: Menu) | Select(closing: bool)

  // The menus with everything that hangs on them, and the handle stack.
  datatype Tracking = Tracking(memory: Memory, stack: seq<Menu>)
  {
    predicate Valid() { 0 !in stack && forall h <- stack :: h in memory.menus }

    predicate Accepts(e: Message) { e.Init? ==> e.h != 0 && e.h in memory.menus }
  }

  // One message, with images shown and the bar's menu active or attached.
  function Handled(t: Tracking, commands: seq<int>, attached: bool, e: Message): (r: Tracking)
    requires t.Valid() && t.Accepts(e)
    ensures r.Valid() && r.memory.menus.Keys == t.memory.menus.Keys
  {
    match e
    case Init(h) => Tracking(ConvertFrom(t.memory, commands, h, 0), t.stack + [h])
    case Select(closing) => if attached && closing then Tracking(RestoreAll(t.memory, t.stack, true), []) else t
  }

  function HandledAll(t: Tracking, commands: seq<int>, attached: bool, events: seq<Message>): (r: Tracking)
    requires t.Valid() && forall e <- events :: t.Accepts(e)
    ensures r.Valid() && r.memory.menus.Keys == t.memory.menus.Keys
    decreases |events|
  {
    if events == [] then t
    else
      assert events[0] in events && forall e <- events[1..] :: e in events;
      var u := Handled(t, commands, attached, events[0]);
      assert forall e <- events[1..] :: t.Accepts(e) && (e.Init? ==> e.h in t.memory.menus.Keys);
      HandledAll(u, commands, attached, events[1..])
  }

  // The end of tracking.
  function CleanedUp(t: Tracking): Tracking
    requires t.Valid()
  {
    Tracking(RestoreAll(t.memory, t.stack, false), [])
  }

  lemma NextMessage(t: Tracking, commands: seq<int>, attached: bool, events: seq<Message>, k: nat)
    requires k < |events| && t.Valid() && forall e <- events[k..] :: t.Accepts(e)
    ensures t.Accepts(events[k])
    ensures var u := Handled(t, commands, attached, events[k]);
      (forall e <- events[k + 1..] :: u.Accepts(e)) &&
      HandledAll(t, commands, attached, events[k..]) == HandledAll(u, commands, attached, events[k + 1..])
  {
    assert events[k..][0] == events[k] && events[k..][1..] == events[k + 1..];
    assert forall e <- events[k..][1..] :: e in events[k..];
    assert forall e <- events[k + 1..] :: t.Accepts(e) && (e.Init? ==> e.h in t.memory.menus.Keys);
  }

  // ---------- the code ----------

  class CommandBar {
    var menus: map<Menu, seq<Item>>
    var stack: seq<Menu>
    var records: map<nat, Record>
    var freed: multiset<nat>
    var issued: nat
    const commands: seq<int>
    var imagesVisible: bool
    var attachedMenu: bool
    var menuActive: bool

    function Now(): Memory reads this { Memory(menus, records, freed, issued) }

    constructor (menus: map<Menu, seq<Item>>, commands: seq<int>, imagesVisible: bool, attachedMenu: bool)
      ensures Now() == Memory(menus, map[], multiset{}, 0) && stack == [] && this.commands == commands
      ensures this.imagesVisible == imagesVisible && this.attachedMenu == attachedMenu && !menuActive
    {
      this.menus, this.commands, stack := menus, commands, [];
      this.imagesVisible, this.attachedMenu, menuActive := imagesVisible, attachedMenu, false;
      records, freed, issued := map[], multiset{}, 0;
    }

    method Push(h: Menu)
      modifies this`stack
      ensures stack == old(stack) + [h]
    {
      stack := stack + [h];
    }

    /** NULL when the stack is empty. */
    method Pop() returns (h: Menu)
      modifies this`stack
      ensures Popped(old(stack), h, stack)
    {
      var last := |stack| - 1;
      if last < 0 {
        return 0;
      }
      h := stack[last];
      stack := stack[..last];
    }

    // h is what popping left gave and stack what it left behind.
    static predicate Popped(left: seq<Menu>, h: Menu, stack: seq<Menu>) {
      if left == [] then h == 0 && stack == [] else h == left[|left| - 1] && stack == left[..|left| - 1]
    }

    method FindButton(id: int) returns (iButton: int)
      ensures iButton == Button(commands, id)
    {
      iButton := -1;
      var j := 0;
      while j < |commands|
        invariant 0 <= j <= |commands| && id !in commands[..j] && iButton == -1
      {
        if commands[j] == id {
          ButtonIs(commands, id, j);
          return j;
        }
        j := j + 1;
      }
      assert commands[..j] == commands;
    }

    method OnInitMenuPopup(systemMenu: bool, h: Menu)
      requires h in menus
      modifies this`menus, this`stack, this`records, this`issued
      ensures var converts := !systemMenu && (attachedMenu || menuActive) && imagesVisible;
        && Now() == (if converts then ConvertFrom(old(Now()), commands, h, 0) else old(Now()))
        && stack == (if converts then old(stack) + [h] else old(stack))
    {
      if systemMenu {
        return;
      }
      if !(attachedMenu || menuActive) {
        return;
      }
      if imagesVisible {
        var i := 0;
        while i < |menus[h]|
          invariant h in menus && 0 <= i <= |menus[h]| && stack == old(stack)
          invariant ConvertFrom(Now(), commands, h, i) == ConvertFrom(old(Now()), commands, h, 0)
          decreases |menus[h]| - i
        {
          ConvertItem(h, i);
          i := i + 1;
        }
        Push(h);
      }
    }

    // The loop body: an item that is not owner-drawn gets a record of what it was.
    method ConvertItem(h: Menu, i: nat)
      requires Now().HasItem(h, i)
      modifies this`menus, this`records, this`issued
      ensures Now() == ConvertAt(old(Now()), commands, h, i)
    {
      var mii := menus[h][i];
      if !mii.ownerDraw {
        var iButton := FindButton(mii.id);
        var text := Cut(mii.text);
        records := records[issued := Record(mii.kind, mii.state, text, iButton)];
        menus := menus[h := menus[h][i := Item(true, mii.kind, mii.state, text, mii.id, Ours(issued))]];
        issued := issued + 1;
      }
    }

    // The loop body of the cleanup: a converted item is set back and its record deleted.
    method RestoreItem(h: Menu, i: nat, closing: bool)
      requires Now().HasItem(h, i)
      modifies this`menus, this`records, this`freed
      ensures Now() == RestoreAt(old(Now()), h, i, closing)
    {
      var mii := menus[h][i];
      if mii.data.Ours? && mii.data.id in records {
        var pMI := records[mii.data.id];
        var fState := 0;
        if !closing {
          fState := pMI.state;
        }
        menus := menus[h := menus[h][i := Item(false, pMI.kind, fState, pMI.text, mii.id, NoData)]];
        records := records - {mii.data.id};
        freed := freed + multiset{mii.data.id};
      }
    }

    /** The cleanup loop at the end of DoTrackPopupMenu, and in OnMenuSelect (closing). */
    method CleanUp(closing: bool)
      requires 0 !in stack && forall h <- stack :: h in menus
      modifies this`menus, this`stack, this`records, this`freed
      ensures Now() == (if imagesVisible then RestoreAll(old(Now()), old(stack), closing) else old(Now()))
      ensures stack == if imagesVisible then [] else old(stack)
    {
      if imagesVisible {
        RestoreStack(closing);
      }
    }

    method RestoreStack(closing: bool)
      requires 0 !in stack && forall h <- stack :: h in menus
      modifies this`menus, this`stack, this`records, this`freed
      ensures Now() == RestoreAll(old(Now()), old(stack), closing) && stack == []
    {
      ghost var left, end := stack, RestoreAll(Now(), stack, closing);
      var h := Pop();
      while h != 0
        invariant 0 !in left && forall m <- left :: m in menus
        invariant end == RestoreAll(Now(), left, closing)
        invariant Popped(left, h, stack)
        decreases |left|
      {
        PopRestores(Now(), left, closing);
        RestoreMenu(h, closing);
        left := stack;
        h := Pop();
      }
    }

    method RestoreMenu(h: Menu, closing: bool)
      requires h in menus
      modifies this`menus, this`records, this`freed
      ensures Now() == RestoreFrom(old(Now()), h, 0, closing)
    {
      var i := 0;
      while i < |menus[h]|
        invariant h in menus && 0 <= i <= |menus[h]|
        invariant RestoreFrom(Now(), h, i, closing) == RestoreFrom(old(Now()), h, 0, closing)
        decreases |menus[h]| - i
      {
        RestoreItem(h, i, closing);
        i := i + 1;
      }
    }

    /** OnMenuSelect: when an attached menu closes, everything converted so far is set back. */
    method OnMenuSelect(menuClosing: bool)
      requires 0 !in stack && forall h <- stack :: h in menus
      modifies this`menus, this`stack, this`records, this`freed
      ensures var cleans := attachedMenu && menuClosing && imagesVisible;
        && Now() == (if cleans then RestoreAll(old(Now()), old(stack), true) else old(Now()))
        && stack == (if cleans then [] else old(stack))
    {
      if !attachedMenu {
        return;
      }
      if menuClosing {
        CleanUp(true);
      }
    }

    function Track(): Tracking reads this { Tracking(Now(), stack) }

    // The window procedure, for one message while menus are up.
    method Dispatch(e: Message)
      requires Track().Valid() && Track().Accepts(e) && (attachedMenu || menuActive)
      modifies this`menus, this`stack, this`records, this`freed, this`issued
      ensures Track() == if imagesVisible then Handled(old(Track()), commands, attachedMenu, e) else old(Track())
    {
      match e
      case Init(h) => OnInitMenuPopup(false, h);
      case Select(closing) => OnMenuSelect(closing);
    }

    // TrackPopupMenuEx: the system tracks the menu and the bar gets these messages.
    method TrackPopupMenuEx(events: seq<Message>)
      requires Track().Valid() && (forall e <- events :: Track().Accepts(e)) && (attachedMenu || menuActive)
      modifies this`menus, this`stack, this`records, this`freed, this`issued
      ensures Track().Valid()
      ensures Track() == if imagesVisible then HandledAll(old(Track()), commands, attachedMenu, events) else old(Track())
    {
      if !imagesVisible {
        IgnoreAll(events);
        return;
      }
      ghost var all := HandledAll(Track(), commands, attachedMenu, events);
      var k := 0;
      while k < |events|
        invariant 0 <= k <= |events| && Track().Valid() && forall e <- events[k..] :: Track().Accepts(e)
        invariant HandledAll(Track(), commands, attachedMenu, events[k..]) == all
      {
        NextMessage(Track(), commands, attachedMenu, events, k);
        Dispatch(events[k]);
        k := k + 1;
      }
    }

    // The same while images are hidden, which changes nothing.
    method IgnoreAll(events: seq<Message>)
      requires !imagesVisible && Track().Valid() && (forall e <- events :: Track().Accepts(e)) && (attachedMenu || menuActive)
      modifies this`menus, this`stack, this`records, this`freed, this`issued
      ensures Track() == old(Track())
    {
      ghost var start := Track();
      for k := 0 to |events|
        invariant Track() == start
      {
        assert events[k] in events;
        Dispatch(events[k]);
      }
    }

    /** DoTrackPopupMenu: events are the messages the bar gets while the system tracks the menu. */
    method DoTrackPopupMenu(events: seq<Message>)
      requires Track().Valid() && forall e <- events :: Track().Accepts(e)
      modifies this`menus, this`stack, this`records, this`freed, this`issued, this`menuActive
      ensures Track() == if imagesVisible then CleanedUp(HandledAll(old(Track()), commands, attachedMenu, events)) else old(Track())
      ensures !menuActive
    {
      menuActive := true;
      TrackPopupMenuEx(events);
      menuActive := false;
      CleanUp(false);
    }
  }

  lemma {:induction false} ButtonIs(commands: seq<int>, id: int, j: nat)
    requires j < |commands| && commands[j] == id && id !in commands[..j]
    ensures Button(commands, id) == j
    decreases j
  {
    if j > 0 {
      assert commands[..j][0] == commands[0];
      assert commands[1..][..j - 1] == commands[..j][1..];
      ButtonIs(commands[1..], id, j - 1);
    }
  }
}
