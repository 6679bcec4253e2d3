/** The tabbed view's page list: pages in tab order, the active index, and which page windows are shown. */
module TabView {
  import opened Sequences

  type Window = int

  datatype Tabs = Tabs(pages: seq<Window>, active: int, shown: set<Window>, destroyed: set<Window>)
  {
    // The active index is -1 exactly when there are no pages, and otherwise names a page.
    predicate Valid() {
      if pages == [] then active == -1 else 0 <= active < |pages|
    }

    predicate Distinct() { forall i, j | 0 <= i < j < |pages| :: pages[i] != pages[j] }

    predicate OnlyActiveShown() { forall k | 0 <= k < |pages| :: pages[k] in shown <==> k == active }
  }

  // ---------- the operations on values ----------

  // Hides the page the old index names now, then shows the new one.
  function Activated(t: Tabs, n: nat): Tabs
    requires n < |t.pages| && -1 <= t.active < |t.pages|
  {
    var hidden := if t.active == -1 then t.shown else t.shown - {t.pages[t.active]};
    t.(active := n, shown := hidden + {t.pages[n]})
  }

  function Inserted(t: Tabs, n: nat, w: Window): Tabs
    requires t.Valid() && n <= |t.pages|
  {
    Activated(t.(pages := InsertAt(t.pages, n, w)), n)
  }

  function Removed(t: Tabs, n: nat, destroy: bool): Tabs
    requires t.Valid() && n < |t.pages|
  {
    var w := t.pages[n];
    var u := Tabs(Without(t.pages, n), -1, t.shown - {w}, if destroy then t.destroyed + {w} else t.destroyed);
    if t.active != n then Activated(u, if n < t.active then t.active - 1 else t.active)
    else if n > 0 then Activated(u, n - 1)
    else if u.pages != [] then Activated(u, 0)
    else u
  }

  function Windows(s: seq<Window>): (ws: set<Window>)
    ensures forall k :: 0 <= k < |s| ==> s[k] in ws
    decreases |s|
  {
    if s == [] then {} else Windows(s[..|s| - 1]) + {s[|s| - 1]}
  }

  function AllRemoved(t: Tabs, destroy: bool): Tabs {
    var ws := Windows(t.pages);
    if t.pages == [] then t
    else Tabs([], -1, t.shown - ws, if destroy then t.destroyed + ws else t.destroyed)
  }

  lemma {:induction false} WindowsAre(s: seq<Window>, w: Window)
    ensures w in Windows(s) <==> w in s
    decreases |s|
  {
    if s != [] {
      assert s == s[..|s| - 1] + [s[|s| - 1]];
      WindowsAre(s[..|s| - 1], w);
    }
  }

  /** After removing all pages none of them is shown, they are destroyed exactly if asked for, and no other
      window is touched. */
  lemma NoPageIsLeft(t: Tabs, destroy: bool, w: Window)
    requires t.Valid()
    ensures var u := AllRemoved(t, destroy);
      && u.pages == [] && u.active == -1
      && (w in u.shown <==> w in t.shown && w !in t.pages)
      && (w in u.destroyed <==> w in t.destroyed || (destroy && w in t.pages))
  {
    WindowsAre(t.pages, w);
  }

  // Remove the page at i, insert it at j, activate it there.
  function MovedPages(s: seq<Window>, i: nat, j: nat): seq<Window>
    requires i < |s| && j < |s|
  {
    InsertAt(Without(s, i), j, s[i])
  }

  function Moved(t: Tabs, i: nat, j: nat): Tabs
    requires t.Valid() && i < |t.pages| && j < |t.pages|
  {
    if i == j then t else Activated(t.(pages := MovedPages(t.pages, i, j)), j)
  }

  // ---------- the code ----------

  class TabViewImpl {
    var pages: seq<Window>
    var nActivePage: int
    var shown: set<Window>
    var destroyed: set<Window>
    var bDestroyPageOnRemove: bool

    function Now(): Tabs reads this { Tabs(pages, nActivePage, shown, destroyed) }

    constructor (bDestroyPageOnRemove: bool)
      ensures Now() == Tabs([], -1, {}, {}) && this.bDestroyPageOnRemove == bDestroyPageOnRemove
    {
      pages, nActivePage, shown, destroyed := [], -1, {}, {};
      this.bDestroyPageOnRemove := bDestroyPageOnRemove;
    }

    predicate IsValidPageIndex(nPage: int) reads this { 0 <= nPage < |pages| }

    method ShowWindow(w: Window, show: bool)
      modifies this`shown
      ensures shown == if show then old(shown) + {w} else old(shown) - {w}
    {
      shown := if show then shown + {w} else shown - {w};
    }

    method DestroyWindow(w: Window)
      modifies this`shown, this`destroyed
      ensures shown == old(shown) - {w} && destroyed == old(destroyed) + {w}
    {
      shown, destroyed := shown - {w}, destroyed + {w};
    }

    method SetActivePage(nPage: int)
      requires IsValidPageIndex(nPage) && -1 <= nActivePage < |pages|
      modifies this`nActivePage, this`shown
      ensures Now() == Activated(old(Now()), nPage)
    {
      if nActivePage != -1 {
        ShowWindow(pages[nActivePage], false);
      }
      nActivePage := nPage;
      ShowWindow(pages[nActivePage], true);
    }

    /** inserted: whether the tab control accepts the new tab. */
    method InsertPage(nPage: int, hWndView: Window, inserted: bool) returns (ok: bool)
      requires Now().Valid() && 0 <= nPage <= |pages|
      modifies this`pages, this`nActivePage, this`shown
      ensures ok == inserted
      ensures Now() == if inserted then Inserted(old(Now()), nPage, hWndView) else old(Now())
    {
      if !inserted {
        return false;
      }
      pages := InsertAt(pages, nPage, hWndView);
      SetActivePage(nPage);
      return true;
    }

    method AddPage(hWndView: Window, inserted: bool) returns (ok: bool)
      requires Now().Valid()
      modifies this`pages, this`nActivePage, this`shown
      ensures ok == inserted
      ensures Now() == if inserted then Inserted(old(Now()), |old(pages)|, hWndView) else old(Now())
    {
      ok := InsertPage(|pages|, hWndView, inserted);
    }

    method RemovePage(nPage: int)
      requires Now().Valid() && IsValidPageIndex(nPage)
      modifies this`pages, this`nActivePage, this`shown, this`destroyed
      ensures Now() == Removed(old(Now()), nPage, bDestroyPageOnRemove)
    {
      if bDestroyPageOnRemove {
        DestroyWindow(pages[nPage]);
      } else {
        ShowWindow(pages[nPage], false);
      }
      pages := Without(pages, nPage);
      if nActivePage == nPage {
        nActivePage := -1;
        if nPage > 0 {
          SetActivePage(nPage - 1);
        } else if |pages| > 0 {
          SetActivePage(nPage);
        }
      } else {
        var n := if nPage < nActivePage then nActivePage - 1 else nActivePage;
        nActivePage := -1;
        SetActivePage(n);
      }
    }

    method RemoveAllPages()
      modifies this`pages, this`nActivePage, this`shown, this`destroyed
      ensures Now() == AllRemoved(old(Now()), bDestroyPageOnRemove)
    {
      if |pages| == 0 {
        return;
      }
      var i := 0;
      while i < |pages|
        invariant 0 <= i <= |pages| && pages == old(pages)
        invariant shown == old(shown) - Windows(pages[..i])
        invariant destroyed == if bDestroyPageOnRemove then old(destroyed) + Windows(pages[..i]) else old(destroyed)
      {
        assert pages[..i + 1][..i] == pages[..i];
        if bDestroyPageOnRemove {
          DestroyWindow(pages[i]);
        } else {
          ShowWindow(pages[i], false);
        }
        i := i + 1;
      }
      assert pages[..i] == pages;
      pages := [];
      nActivePage := -1;
    }

    /** Inserts a copy of the tab first, then deletes the original at its shifted index. */
    method MovePage(nMovePage: int, nInsertBeforePage: int, inserted: bool) returns (ok: bool)
      requires Now().Valid()
      modifies this`pages, this`nActivePage, this`shown
      ensures var valid := 0 <= nMovePage < |old(pages)| && 0 <= nInsertBeforePage < |old(pages)|;
        && ok == (valid && (nMovePage == nInsertBeforePage || inserted))
        && Now() == if ok then Moved(old(Now()), nMovePage, nInsertBeforePage) else old(Now())
      ensures nMovePage == nInsertBeforePage ==> Now() == old(Now())
    {
      if !IsValidPageIndex(nMovePage) || !IsValidPageIndex(nInsertBeforePage) {
        return false;
      }
      if nMovePage == nInsertBeforePage {
        return true;
      }
      var tcix := pages[nMovePage];
      var nInsertItem := if nInsertBeforePage > nMovePage then nInsertBeforePage + 1 else nInsertBeforePage;
      if !inserted {
        return false;
      }
      ghost var s := pages;
      pages := InsertAt(pages, nInsertItem, tcix);
      if nMovePage > nInsertBeforePage {
        pages := Without(pages, nMovePage + 1);
      } else if nMovePage < nInsertBeforePage {
        pages := Without(pages, nMovePage);
      }
      CopyThenDelete(s, nMovePage, nInsertBeforePage);
      SetActivePage(nInsertBeforePage);
      return true;
    }
  }

  /** Inserting the copy first and deleting the original afterwards is removing, then inserting. */
  lemma CopyThenDelete(s: seq<Window>, i: nat, j: nat)
    requires i < |s| && j < |s| && i != j
    ensures i < j ==> Without(InsertAt(s, j + 1, s[i]), i) == MovedPages(s, i, j)
    ensures i > j ==> Without(InsertAt(s, j, s[i]), i + 1) == MovedPages(s, i, j)
  {
  }

  // ---------- runs ----------

  datatype Op =
    | Add(w: Window)
    | Insert(n: nat, w: Window)
    | Activate(n: nat)
    | Remove(n: nat, destroy: bool)
    | RemoveAll(destroy: bool)
    | Move(i: nat, j: nat)

  predicate CanApply(t: Tabs, op: Op) {
    match op
    case Add(w) => w !in t.pages
    case Insert(n, w) => n <= |t.pages| && w !in t.pages
    case Activate(n) => n < |t.pages|
    case Remove(n, _) => n < |t.pages|
    case RemoveAll(_) => true
    case Move(i, j) => i < |t.pages| && j < |t.pages|
  }

  function Apply(t: Tabs, op: Op): (r: Tabs)
    requires t.Valid() && CanApply(t, op)
    ensures r.Valid()
  {
    match op
    case Add(w) => Inserted(t, |t.pages|, w)
    case Insert(n, w) => Inserted(t, n, w)
    case Activate(n) => Activated(t, n)
    case Remove(n, destroy) => Removed(t, n, destroy)
    case RemoveAll(destroy) => AllRemoved(t, destroy)
    case Move(i, j) => Moved(t, i, j)
  }

  // When the index used to hide the old page still names it.
  predicate Tidy(t: Tabs, op: Op) {
    match op
    case Insert(n, _) => n > t.active
    case Move(i, j) => i == j || i == t.active || t.active < (if i < j then i else j) || t.active > (if i < j then j else i)
    case _ => true
  }

  lemma MovedAt(s: seq<Window>, i: nat, j: nat, k: nat)
    requires i < |s| && j < |s| && k < |s|
    ensures |MovedPages(s, i, j)| == |s|
    ensures MovedPages(s, i, j)[k] ==
      if k == j then s[i] else if i <= k < j then s[k + 1] else if j < k <= i then s[k - 1] else s[k]
  {
  }

  lemma InsertedAt(s: seq<Window>, n: nat, w: Window, k: nat)
    requires n <= |s| && k <= |s|
    ensures InsertAt(s, n, w)[k] == if k < n then s[k] else if k == n then w else s[k - 1]
  {
  }

  lemma InsertKeepsDistinct(t: Tabs, n: nat, w: Window)
    requires t.Valid() && t.Distinct() && n <= |t.pages| && w !in t.pages
    ensures Inserted(t, n, w).Distinct()
  {
    forall a, b | 0 <= a < b <= |t.pages|
      ensures InsertAt(t.pages, n, w)[a] != InsertAt(t.pages, n, w)[b]
    {
      InsertedAt(t.pages, n, w, a);
      InsertedAt(t.pages, n, w, b);
    }
  }

  lemma MoveKeepsDistinct(t: Tabs, i: nat, j: nat)
    requires t.Valid() && t.Distinct() && i < |t.pages| && j < |t.pages|
    ensures Moved(t, i, j).Distinct()
  {
    MovedAt(t.pages, i, j, 0);
    forall a, b | 0 <= a < b < |t.pages|
      ensures MovedPages(t.pages, i, j)[a] != MovedPages(t.pages, i, j)[b]
    {
      MovedAt(t.pages, i, j, a);
      MovedAt(t.pages, i, j, b);
    }
  }

  lemma RemoveKeepsDistinct(t: Tabs, n: nat, destroy: bool)
    requires t.Valid() && t.Distinct() && n < |t.pages|
    ensures Removed(t, n, destroy).pages == Without(t.pages, n)
    ensures Removed(t, n, destroy).Distinct()
  {
    var s, u := t.pages, Without(t.pages, n);
    forall a, b | 0 <= a < b < |u| ensures u[a] != u[b] {
      assert u[a] == s[if a < n then a else a + 1] && u[b] == s[if b < n then b else b + 1];
    }
  }

  lemma DistinctKept(t: Tabs, op: Op)
    requires t.Valid() && t.Distinct() && CanApply(t, op)
    ensures Apply(t, op).Distinct()
  {
    match op
    case Add(w) => InsertKeepsDistinct(t, |t.pages|, w);
    case Insert(n, w) => InsertKeepsDistinct(t, n, w);
    case Activate(_) =>
    case Remove(n, destroy) => RemoveKeepsDistinct(t, n, destroy);
    case RemoveAll(_) =>
    case Move(i, j) => MoveKeepsDistinct(t, i, j);
  }

  /** An operation leaves only the active page shown exactly when it does not insert at or before the
      active page and does not move another page across it. */
  lemma OnlyActiveShownIffTidy(t: Tabs, op: Op)
    requires t.Valid() && t.Distinct() && t.OnlyActiveShown() && CanApply(t, op)
    ensures Apply(t, op).OnlyActiveShown() <==> Tidy(t, op)
  {
    match op
    case Add(w) => InsertIsTidyIff(t, |t.pages|, w);
    case Insert(n, w) => InsertIsTidyIff(t, n, w);
    case Activate(_) =>
    case Remove(n, destroy) => RemoveIsTidy(t, n, destroy);
    case RemoveAll(_) =>
    case Move(i, j) => MoveIsTidyIff(t, i, j);
  }

  lemma InsertIsTidyIff(t: Tabs, n: nat, w: Window)
    requires t.Valid() && t.Distinct() && t.OnlyActiveShown() && n <= |t.pages| && w !in t.pages
    ensures Inserted(t, n, w).OnlyActiveShown() <==> n > t.active
  {
    var u := Inserted(t, n, w);
    if n > t.active {
      forall k | 0 <= k <= |t.pages| ensures u.pages[k] in u.shown <==> k == n {
        InsertedAt(t.pages, n, w, k);
        if t.active >= 0 { InsertedAt(t.pages, n, w, t.active); }
      }
    } else {
      // the window at the old index is the new page or the old left neighbour; the old page stays shown
      InsertedAt(t.pages, n, w, t.active);
      InsertedAt(t.pages, n, w, t.active + 1);
    }
  }

  lemma RemoveIsTidy(t: Tabs, n: nat, destroy: bool)
    requires t.Valid() && t.Distinct() && t.OnlyActiveShown() && n < |t.pages|
    ensures Removed(t, n, destroy).OnlyActiveShown()
  {
    var u, s := Removed(t, n, destroy), t.pages;
    RemoveKeepsDistinct(t, n, destroy);
    forall k | 0 <= k < |u.pages| ensures u.pages[k] in u.shown <==> k == u.active {
      assert u.pages[k] == s[if k < n then k else k + 1];
    }
  }

  lemma MoveIsTidyIff(t: Tabs, i: nat, j: nat)
    requires t.Valid() && t.Distinct() && t.OnlyActiveShown() && i < |t.pages| && j < |t.pages|
    ensures Moved(t, i, j).OnlyActiveShown() <==> Tidy(t, Move(i, j))
  {
    var s, u, a := t.pages, Moved(t, i, j), t.active;
    if i != j {
      MovedAt(s, i, j, a);
      MovedAt(s, i, j, j);
      if Tidy(t, Move(i, j)) {
        forall k | 0 <= k < |u.pages| ensures u.pages[k] in u.shown <==> k == j {
          MovedAt(s, i, j, k);
        }
      } else {
        MovedAt(s, i, j, if i < j then a - 1 else a + 1); // where the old active page is now
      }
    }
  }

  /** Removing another page keeps the same page active; removing the active one activates its left
      neighbour, or the new first page. */
  lemma RemoveKeepsOrReplacesActive(t: Tabs, n: nat, destroy: bool)
    requires t.Valid() && n < |t.pages|
    ensures var u := Removed(t, n, destroy);
      && u.Valid() && u.pages == Without(t.pages, n)
      && (n != t.active ==> u.pages[u.active] == t.pages[t.active])
      && (n == t.active && n > 0 ==> u.pages[u.active] == t.pages[n - 1])
      && (n == t.active == 0 && |t.pages| > 1 ==> u.pages[u.active] == t.pages[1])
      && (forall w :: w in u.destroyed <==> w in t.destroyed || (destroy && w == t.pages[n]))
      && t.pages[n] !in u.shown - (if u.active >= 0 then {u.pages[u.active]} else {})
  {
  }

  lemma InsertAtMultiset(s: seq<Window>, n: nat, w: Window)
    requires n <= |s|
    ensures multiset(InsertAt(s, n, w)) == multiset(s) + multiset{w}
  {
    assert s == s[..n] + s[n..];
  }

  lemma TakeOutWhatWasPutIn(s: seq<Window>, n: nat, w: Window)
    requires n <= |s|
    ensures Without(InsertAt(s, n, w), n) == s
  {
  }

  lemma PutBackWhatWasTakenOut(s: seq<Window>, n: nat)
    requires n < |s|
    ensures InsertAt(Without(s, n), n, s[n]) == s
  {
  }

  /** Moving a page activates it at its new place, keeps the order of the others, and loses none. */
  lemma MoveActivatesTheMovedPage(t: Tabs, i: nat, j: nat)
    requires t.Valid() && i < |t.pages| && j < |t.pages| && i != j
    ensures var u := Moved(t, i, j);
      && u.active == j && u.pages[j] == t.pages[i] && u.pages[j] in u.shown
      && Without(u.pages, j) == Without(t.pages, i)
      && multiset(u.pages) == multiset(t.pages)
  {
    var s, rest := t.pages, Without(t.pages, i);
    InsertAtMultiset(rest, j, s[i]);
    InsertAtMultiset(rest, i, s[i]);
    PutBackWhatWasTakenOut(s, i);
    TakeOutWhatWasPutIn(rest, j, s[i]);
  }

  predicate IsRun(t: Tabs, ops: seq<Op>)
    requires t.Valid()
    decreases |ops|
  {
    ops != [] ==> CanApply(t, ops[0]) && IsRun(Apply(t, ops[0]), ops[1..])
  }

  function Final(t: Tabs, ops: seq<Op>): Tabs
    requires t.Valid() && IsRun(t, ops)
    decreases |ops|
  {
    if ops == [] then t else Final(Apply(t, ops[0]), ops[1..])
  }

  predicate AllTidy(t: Tabs, ops: seq<Op>)
    requires t.Valid() && IsRun(t, ops)
    decreases |ops|
  {
    ops != [] ==> Tidy(t, ops[0]) && AllTidy(Apply(t, ops[0]), ops[1..])
  }

  /** Over every run the active index is -1 exactly without pages and otherwise valid, pages stay
      distinct, and as long as all operations are tidy only the active page is shown. */
  lemma {:induction false} RunsKeepTheActivePage(t: Tabs, ops: seq<Op>)
    requires t.Valid() && t.Distinct() && IsRun(t, ops)
    ensures Final(t, ops).Valid() && Final(t, ops).Distinct()
    ensures t.OnlyActiveShown() && AllTidy(t, ops) ==> Final(t, ops).OnlyActiveShown()
    decreases |ops|
  {
    if ops != [] {
      DistinctKept(t, ops[0]);
      if t.OnlyActiveShown() { OnlyActiveShownIffTidy(t, ops[0]); }
      RunsKeepTheActivePage(Apply(t, ops[0]), ops[1..]);
    }
  }
}
