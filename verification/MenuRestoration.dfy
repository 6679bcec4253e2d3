/** What a whole tracked popup does to the menus: every item comes back, every record is freed once. */
module MenuRestoration {
  import opened MenuConversion

  type Place = (Menu, nat)

  // No item carries a record, none is live, and each one ever allocated has been freed once.
  ghost predicate AtRest(m: Memory) {
    && m.records == map[]
    && (forall h <- m.menus, i | 0 <= i < |m.menus[h]| :: !m.menus[h][i].data.Ours?)
    && FreedOnce(m)
  }

  ghost predicate FreedOnce(m: Memory) {
    && (forall id <- m.records :: id < m.issued)
    && (forall id: nat :: m.freed[id] == if id < m.issued && id !in m.records then 1 else 0)
  }

  // An item that was converted and set back: its own item data is gone, an overlong text is cut.
  function Returned(o: Item, closing: bool): Item {
    Item(false, o.kind, if closing then 0 else o.state, Cut(o.text), o.id, NoData)
  }

  // ---------- the invariant ----------

  // m0: the menus before tracking; own: which item each live record belongs to; seen: the items some
  // conversion loop has passed; back: the items some cleanup loop has passed.
  ghost predicate Inv(m0: Memory, m: Memory, cs: seq<int>, closing: bool, own: map<nat, Place>, seen: set<Place>, back: set<Place>) {
    && SameShape(m0, m)
    && (forall h <- m0.menus, i | 0 <= i < |m0.menus[h]| :: ItemOk(m0, m, cs, closing, own, seen, back, h, i))
    && own.Keys == m.records.Keys
    && (forall id <- own :: OwnerOk(m0, m, own, seen, back, id))
    && FreedOnce(m)
  }

  ghost predicate SameShape(m0: Memory, m: Memory) {
    && m.menus.Keys == m0.menus.Keys
    && forall h <- m0.menus :: |m.menus[h]| == |m0.menus[h]|
  }

  ghost predicate ItemOk(m0: Memory, m: Memory, cs: seq<int>, closing: bool, own: map<nat, Place>, seen: set<Place>, back: set<Place>, h: Menu, i: nat)
    requires m0.HasItem(h, i) && m.HasItem(h, i)
  {
    var o, it := m0.menus[h][i], m.menus[h][i];
    && !o.data.Ours?
    && if o.ownerDraw || (h, i) !in seen then it == o
       else if (h, i) in back then it == Returned(o, closing)
       else
         && it.ownerDraw && it.id == o.id && it.data.Ours?
         && it.data.id in own && own[it.data.id] == (h, i)
         && it.data.id in m.records && m.records[it.data.id] == Saved(o, cs)
  }

  ghost predicate OwnerOk(m0: Memory, m: Memory, own: map<nat, Place>, seen: set<Place>, back: set<Place>, id: nat)
    requires id in own
  {
    var (h, i) := own[id];
    && m0.HasItem(h, i) && m.HasItem(h, i) && m.menus[h][i].data == Ours(id)
    && (h, i) in seen && (h, i) !in back && !m0.menus[h][i].ownerDraw
  }

  lemma OwnersAreNotBack(m0: Memory, m: Memory, cs: seq<int>, closing: bool, own: map<nat, Place>, seen: set<Place>, back: set<Place>)
    requires Inv(m0, m, cs, closing, own, seen, back)
    ensures forall id <- own :: own[id] in seen - back
  {
    forall id <- own
      ensures own[id] in seen - back
    {
      assert OwnerOk(m0, m, own, seen, back, id);
      var (h, i) := own[id];
      assert own[id] == (h, i);
    }
  }

  // ---------- one item ----------

  lemma ConvertAtKeeps(m0: Memory, m: Memory, cs: seq<int>, closing: bool, own: map<nat, Place>, seen: set<Place>, h: Menu, i: nat)
    returns (own': map<nat, Place>)
    requires Inv(m0, m, cs, closing, own, seen, {}) && m0.HasItem(h, i)
    ensures m.HasItem(h, i) && Inv(m0, ConvertAt(m, cs, h, i), cs, closing, own', seen + {(h, i)}, {})
  {
    assert ItemOk(m0, m, cs, closing, own, seen, {}, h, i);
    var r := ConvertAt(m, cs, h, i);
    var seen' := seen + {(h, i)};
    own' := if m.menus[h][i].ownerDraw then own else own[m.issued := (h, i)];
    forall g <- m0.menus, j | 0 <= j < |m0.menus[g]|
      ensures ItemOk(m0, r, cs, closing, own', seen', {}, g, j)
    {
      assert ItemOk(m0, m, cs, closing, own, seen, {}, g, j);
    }
    forall id <- own'
      ensures OwnerOk(m0, r, own', seen', {}, id)
    {
      assert id in own ==> OwnerOk(m0, m, own, seen, {}, id);
    }
  }

  lemma RestoreAtKeeps(m0: Memory, m: Memory, cs: seq<int>, closing: bool, own: map<nat, Place>, seen: set<Place>, back: set<Place>, h: Menu, i: nat)
    returns (own': map<nat, Place>)
    requires Inv(m0, m, cs, closing, own, seen, back) && m0.HasItem(h, i)
    ensures m.HasItem(h, i) && Inv(m0, RestoreAt(m, h, i, closing), cs, closing, own', seen, back + {(h, i)})
  {
    assert ItemOk(m0, m, cs, closing, own, seen, back, h, i);
    var it := m.menus[h][i];
    if m.IsOurs(it) {
      own' := SetBackKeeps(m0, m, cs, closing, own, seen, back, h, i);
    } else {
      own' := own;
      var back' := back + {(h, i)};
      forall g <- m0.menus, j | 0 <= j < |m0.menus[g]|
        ensures ItemOk(m0, m, cs, closing, own, seen, back', g, j)
      {
        assert ItemOk(m0, m, cs, closing, own, seen, back, g, j);
      }
      forall id <- own
        ensures OwnerOk(m0, m, own, seen, back', id)
      {
        assert OwnerOk(m0, m, own, seen, back, id);
      }
    }
  }

  lemma SetBackKeeps(m0: Memory, m: Memory, cs: seq<int>, closing: bool, own: map<nat, Place>, seen: set<Place>, back: set<Place>, h: Menu, i: nat)
    returns (own': map<nat, Place>)
    requires Inv(m0, m, cs, closing, own, seen, back) && m0.HasItem(h, i)
    requires m.HasItem(h, i) && m.IsOurs(m.menus[h][i]) && ItemOk(m0, m, cs, closing, own, seen, back, h, i)
    ensures Inv(m0, RestoreAt(m, h, i, closing), cs, closing, own', seen, back + {(h, i)})
  {
    var r := RestoreAt(m, h, i, closing);
    var back' := back + {(h, i)};
    own' := own - {m.menus[h][i].data.id};
    forall g <- m0.menus, j | 0 <= j < |m0.menus[g]|
      ensures ItemOk(m0, r, cs, closing, own', seen, back', g, j)
    {
      assert ItemOk(m0, m, cs, closing, own, seen, back, g, j);
    }
    forall id <- own'
      ensures OwnerOk(m0, r, own', seen, back', id)
    {
      assert OwnerOk(m0, m, own, seen, back, id);
    }
  }

  // ---------- whole menus ----------

  function PlacesFrom(m0: Memory, h: Menu, i: nat): set<Place>
    requires h in m0.menus
  {
    set j: nat | i <= j < |m0.menus[h]| :: (h, j)
  }

  lemma {:induction false} ConvertFromKeeps(m0: Memory, m: Memory, cs: seq<int>, closing: bool, own: map<nat, Place>, seen: set<Place>, h: Menu, i: nat)
    returns (own': map<nat, Place>)
    requires Inv(m0, m, cs, closing, own, seen, {}) && h in m0.menus && i <= |m0.menus[h]|
    ensures Inv(m0, ConvertFrom(m, cs, h, i), cs, closing, own', seen + PlacesFrom(m0, h, i), {})
    decreases |m0.menus[h]| - i
  {
    if i == |m0.menus[h]| {
      own' := own;
      assert seen + PlacesFrom(m0, h, i) == seen;
    } else {
      own' := ConvertAtKeeps(m0, m, cs, closing, own, seen, h, i);
      own' := ConvertFromKeeps(m0, ConvertAt(m, cs, h, i), cs, closing, own', seen + {(h, i)}, h, i + 1);
      assert seen + {(h, i)} + PlacesFrom(m0, h, i + 1) == seen + PlacesFrom(m0, h, i);
    }
  }

  lemma {:induction false} RestoreFromKeeps(m0: Memory, m: Memory, cs: seq<int>, closing: bool, own: map<nat, Place>, seen: set<Place>, back: set<Place>, h: Menu, i: nat)
    returns (own': map<nat, Place>)
    requires Inv(m0, m, cs, closing, own, seen, back) && h in m0.menus && i <= |m0.menus[h]|
    ensures Inv(m0, RestoreFrom(m, h, i, closing), cs, closing, own', seen, back + PlacesFrom(m0, h, i))
    decreases |m0.menus[h]| - i
  {
    if i == |m0.menus[h]| {
      own' := own;
      assert back + PlacesFrom(m0, h, i) == back;
    } else {
      own' := RestoreAtKeeps(m0, m, cs, closing, own, seen, back, h, i);
      own' := RestoreFromKeeps(m0, RestoreAt(m, h, i, closing), cs, closing, own', seen, back + {(h, i)}, h, i + 1);
      assert back + {(h, i)} + PlacesFrom(m0, h, i + 1) == back + PlacesFrom(m0, h, i);
    }
  }

  function PlacesOf(m0: Memory, inits: seq<Menu>): set<Place>
    requires forall h <- inits :: h in m0.menus
  {
    set h <- inits, i: nat | 0 <= i < |m0.menus[h]| :: (h, i)
  }

  lemma PlacesOfLast(m0: Memory, inits: seq<Menu>)
    requires inits != [] && forall h <- inits :: h in m0.menus
    ensures forall h <- inits[..|inits| - 1] :: h in m0.menus
    ensures inits[|inits| - 1] in m0.menus
    ensures PlacesOf(m0, inits) == PlacesOf(m0, inits[..|inits| - 1]) + PlacesFrom(m0, inits[|inits| - 1], 0)
  {
    var last := |inits| - 1;
    assert inits[last] in inits;
    assert forall h <- inits[..last] :: h in inits;
    assert forall h <- inits :: h in inits[..last] || h == inits[last];
  }

  lemma {:induction false} ConvertAllKeeps(m0: Memory, cs: seq<int>, closing: bool, inits: seq<Menu>)
    returns (own: map<nat, Place>)
    requires AtRest(m0) && forall h <- inits :: h in m0.menus
    ensures Inv(m0, ConvertAll(m0, cs, inits), cs, closing, own, PlacesOf(m0, inits), {})
    decreases |inits|
  {
    if inits == [] {
      own := map[];
      assert PlacesOf(m0, inits) == {};
    } else {
      var last := |inits| - 1;
      PlacesOfLast(m0, inits);
      own := ConvertAllKeeps(m0, cs, closing, inits[..last]);
      own := ConvertFromKeeps(m0, ConvertAll(m0, cs, inits[..last]), cs, closing, own, PlacesOf(m0, inits[..last]), inits[last], 0);
    }
  }

  lemma {:induction false} RestoreAllKeeps(m0: Memory, m: Memory, cs: seq<int>, closing: bool, own: map<nat, Place>, seen: set<Place>, back: set<Place>, stack: seq<Menu>)
    returns (own': map<nat, Place>)
    requires Inv(m0, m, cs, closing, own, seen, back) && forall h <- stack :: h in m0.menus
    ensures Inv(m0, RestoreAll(m, stack, closing), cs, closing, own', seen, back + PlacesOf(m0, stack))
    decreases |stack|
  {
    if stack == [] {
      own' := own;
      assert back + PlacesOf(m0, stack) == back;
    } else {
      var last := |stack| - 1;
      PlacesOfLast(m0, stack);
      var back' := back + PlacesFrom(m0, stack[last], 0);
      own' := RestoreFromKeeps(m0, m, cs, closing, own, seen, back, stack[last], 0);
      own' := RestoreAllKeeps(m0, RestoreFrom(m, stack[last], 0, closing), cs, closing, own', seen, back', stack[..last]);
      assert back' + PlacesOf(m0, stack[..last]) == back + PlacesOf(m0, stack);
    }
  }

  // ---------- conversions and one cleanup ----------

  // Popups are initialised, then one of the two cleanups sets back what the stack holds.
  function Restored(m: Memory, cs: seq<int>, closing: bool, inits: seq<Menu>): Memory
    requires forall h <- inits :: h in m.menus
  {
    RestoreAll(ConvertAll(m, cs, inits), inits, closing)
  }

  /** For every sequence of popup initialisations, the same menu any number of times: afterwards no
      record is live and each was freed exactly once, the items of initialised menus have the type,
      state and text they had, and foreign owner-draw items and all other menus are untouched. The
      cleanup of a closing attached menu does the same except that it zeroes the states. */
  lemma CleanupRestoresEveryItem(m: Memory, cs: seq<int>, closing: bool, inits: seq<Menu>)
    requires AtRest(m) && forall h <- inits :: h in m.menus
    ensures var r := Restored(m, cs, closing, inits);
      && AtRest(r) && SameShape(m, r)
      && forall h <- m.menus, i | 0 <= i < |m.menus[h]| ::
           r.menus[h][i] == if h in inits && !m.menus[h][i].ownerDraw then Returned(m.menus[h][i], closing) else m.menus[h][i]
  {
    var own := ConvertAllKeeps(m, cs, closing, inits);
    var places := PlacesOf(m, inits);
    var r := Restored(m, cs, closing, inits);
    own := RestoreAllKeeps(m, ConvertAll(m, cs, inits), cs, closing, own, places, {}, inits);
    assert {} + places == places;
    OwnersAreNotBack(m, r, cs, closing, own, places, places);
    assert own.Keys == {};
    assert r.records == map[];
    forall h <- m.menus, i | 0 <= i < |m.menus[h]|
      ensures r.menus[h][i] == if h in inits && !m.menus[h][i].ownerDraw then Returned(m.menus[h][i], closing) else m.menus[h][i]
      ensures !r.menus[h][i].data.Ours?
    {
      assert ItemOk(m, r, cs, closing, own, places, places, h, i);
      assert (h, i) in places <==> h in inits;
    }
  }

  /** A converted item comes back exactly as it was if and only if it carried no item data of its own, its
      text fits the 100-character buffer and, for the closing cleanup, it was enabled and unchecked. */
  lemma ItemUnchangedIff(m: Memory, cs: seq<int>, closing: bool, inits: seq<Menu>, h: Menu, i: nat)
    requires AtRest(m) && (forall g <- inits :: g in m.menus) && m.HasItem(h, i)
    requires h in inits && !m.menus[h][i].ownerDraw
    ensures var r := Restored(m, cs, closing, inits);
      r.HasItem(h, i) &&
      (r.menus[h][i] == m.menus[h][i] <==>
        m.menus[h][i].data == NoData && |m.menus[h][i].text| <= 99 && (closing ==> m.menus[h][i].state == 0))
  {
    CleanupRestoresEveryItem(m, cs, closing, inits);
    assert Restored(m, cs, closing, inits).menus[h][i] == Returned(m.menus[h][i], closing);
  }
}
