/** The sortable list view: sort types parallel to the columns, the sort column's mark in the header, and
    sorting the items through temporary item data. */
module SortColumns {
  import opened Options
  import opened Sequences

  // The sort types used here by value; the others lie between them.
  const COLSORT_NONE := 0
  const COLSORT_TEXT := 1
  const COLSORT_LAST := 9

  type SortType = n: int | COLSORT_NONE <= n <= COLSORT_LAST

  type ColumnId = int

  // ---------- what a header item looks like ----------

  datatype Flag = SortUp | SortDown | Image | Bitmap | BitmapOnRight | Other(bit: nat)

  datatype Look = Look(bitmap: int, fmt: set<Flag>)

  const ARROWS := {SortUp, SortDown}

  // What differs between installations: whether common controls 6 draws the arrow, and else the two bitmaps.
  datatype Style = Style(commCtrl6: bool, upBitmap: int, downBitmap: int)
  {
    // The sort column's look, given the look it has as an ordinary column.
    function Marked(own: Look, descending: bool): Look {
      if commCtrl6 then own.(fmt := own.fmt - ARROWS + {if descending then SortDown else SortUp})
      else Look(if descending then downBitmap else upBitmap, own.fmt - {Image} + {Bitmap, BitmapOnRight})
    }

    // What is left of a column's look once it has been the sort column.
    function Kept(own: Look): Look {
      if commCtrl6 then own.(fmt := own.fmt - ARROWS) else own
    }
  }

  /** The mark shows the direction: common controls 6 draws the down arrow and no other exactly when descending;
      otherwise the down bitmap stands on the right, instead of an image, exactly when descending. */
  lemma MarkShowsTheDirection(s: Style, own: Look, descending: bool)
    ensures var marked := s.Marked(own, descending);
      if s.commCtrl6 then
        && marked.bitmap == own.bitmap
        && (SortDown in marked.fmt <==> descending) && (SortUp in marked.fmt <==> !descending)
        && (forall f | f !in ARROWS :: f in marked.fmt <==> f in own.fmt)
      else
        && (descending ==> marked.bitmap == s.downBitmap) && (!descending ==> marked.bitmap == s.upBitmap)
        && Bitmap in marked.fmt && BitmapOnRight in marked.fmt && Image !in marked.fmt
        && (forall f | f !in {Image, Bitmap, BitmapOnRight} :: f in marked.fmt <==> f in own.fmt)
  {
  }

  // ---------- the state the code keeps ----------

  datatype HeaderItem = HeaderItem(id: ColumnId, look: Look)

  datatype View = View(columns: seq<HeaderItem>, sortTypes: seq<SortType>, sortColumn: int,
                       descending: bool, oldLook: Look)
  {
    predicate Valid() {
      |sortTypes| == |columns| && -1 <= sortColumn < |columns|
    }

    predicate Distinct() {
      forall i, j | 0 <= i < j < |columns| :: columns[i].id != columns[j].id
    }
  }

  function WithLook(columns: seq<HeaderItem>, n: nat, look: Look): (r: seq<HeaderItem>)
    requires n < |columns|
    ensures |r| == |columns| && r[n].look == look
    ensures forall k :: 0 <= k < |r| ==> r[k].id == columns[k].id && (k != n ==> r[k] == columns[k])
  {
    columns[n := columns[n].(look := look)]
  }

  function ColumnInserted(v: View, n: nat, item: HeaderItem): View
    requires v.Valid() && n <= |v.columns|
  {
    v.(columns := InsertAt(v.columns, n, item), sortTypes := InsertAt(v.sortTypes, n, COLSORT_TEXT),
       sortColumn := if n <= v.sortColumn then v.sortColumn + 1 else v.sortColumn)
  }

  function ColumnDeleted(v: View, n: nat): View
    requires v.Valid() && n < |v.columns|
  {
    v.(columns := Without(v.columns, n), sortTypes := Without(v.sortTypes, n),
       sortColumn := if v.sortColumn == n then -1 else if v.sortColumn > n then v.sortColumn - 1 else v.sortColumn)
  }

  function Unmarked(v: View, s: Style, iCol: int): View
    requires v.Valid() && -1 <= iCol < |v.columns|
  {
    var was := v.sortColumn;
    if was == iCol || was < 0 then v
    else v.(columns := WithLook(v.columns, was, if s.commCtrl6 then s.Kept(v.columns[was].look) else v.oldLook))
  }

  function Chosen(v: View, s: Style, iCol: int): View
    requires v.Valid() && -1 <= iCol < |v.columns|
  {
    var u := Unmarked(v, s, iCol);
    if iCol < 0 then u.(sortColumn := iCol)
    else
      var look := u.columns[iCol].look;
      u.(sortColumn := iCol,
         oldLook := if s.commCtrl6 || v.sortColumn == iCol then v.oldLook else look,
         columns := WithLook(u.columns, iCol, s.Marked(look, v.descending)))
  }

  // ---------- sorting the items ----------

  // An item's data is the application's own value or, during a sort, the index of a compare parameter.
  datatype ItemData = User(value: int) | Param(index: nat)

  datatype Row = Row(text: string, data: ItemData)

  function Iota(n: nat): (s: seq<nat>)
    ensures |s| == n && forall k :: 0 <= k < n ==> s[k] == k
  {
    seq(n, k => k)
  }

  predicate IsPermutation(p: seq<nat>, n: nat) {
    multiset(p) == multiset(Iota(n))
  }

  lemma PermutationStaysInRange(p: seq<nat>, n: nat)
    requires IsPermutation(p, n)
    ensures |p| == n && forall k :: 0 <= k < |p| ==> p[k] < n
  {
    assert |multiset(p)| == |p| && |multiset(Iota(n))| == n;
    forall k | 0 <= k < |p| ensures p[k] < n {
      assert p[k] in multiset(p);
      assert p[k] in Iota(n);
    }
  }

  function Permuted(rows: seq<Row>, p: seq<nat>): (r: seq<Row>)
    requires forall k :: 0 <= k < |p| ==> p[k] < |rows|
    ensures |r| == |p| && forall k :: 0 <= k < |r| ==> r[k] == rows[p[k]]
  {
    seq(|p|, k requires 0 <= k < |p| => rows[p[k]])
  }

  lemma MultisetWithout<T>(p: seq<T>, i: nat)
    requires i < |p|
    ensures multiset(p) == multiset(Without(p, i)) + multiset{p[i]}
    ensures multiset(Without(p, i)) == multiset(p) - multiset{p[i]}
  {
    assert p == p[..i] + [p[i]] + p[i + 1..];
  }

  lemma PermutedWithout(rows: seq<Row>, p: seq<nat>, i: nat)
    requires i < |p| && forall k :: 0 <= k < |p| ==> p[k] < |rows|
    ensures multiset(Permuted(rows, p)) == multiset(Permuted(rows, Without(p, i))) + multiset{rows[p[i]]}
  {
    var r := Permuted(rows, p);
    assert Permuted(rows, Without(p, i)) == Without(r, i);
    MultisetWithout(r, i);
  }

  lemma {:induction false} SameIndicesSameRows(rows: seq<Row>, p: seq<nat>, q: seq<nat>)
    requires multiset(p) == multiset(q)
    requires forall k :: 0 <= k < |p| ==> p[k] < |rows|
    requires forall k :: 0 <= k < |q| ==> q[k] < |rows|
    ensures multiset(Permuted(rows, p)) == multiset(Permuted(rows, q))
    decreases |p|
  {
    if p == [] {
      assert |multiset(q)| == |q| == 0;
    } else {
      assert p[0] in multiset(q);
      var i :| 0 <= i < |q| && q[i] == p[0];
      MultisetWithout(p, 0);
      MultisetWithout(q, i);
      SameIndicesSameRows(rows, Without(p, 0), Without(q, i));
      PermutedWithout(rows, p, 0);
      PermutedWithout(rows, q, i);
    }
  }

  /** Sorting loses no item and gives every item its own data back, whatever order the system chose. */
  lemma SortingPermutesItemsWithTheirData(rows: seq<Row>, p: seq<nat>)
    requires IsPermutation(p, |rows|)
    ensures |p| == |rows| && (forall k :: 0 <= k < |p| ==> p[k] < |rows|)
    ensures multiset(Permuted(rows, p)) == multiset(rows)
  {
    PermutationStaysInRange(p, |rows|);
    SameIndicesSameRows(rows, p, Iota(|rows|));
    assert Permuted(rows, Iota(|rows|)) == rows;
  }

  lemma ShiftOne(types: seq<SortType>, was: seq<SortType>, i: nat)
    requires 0 < i < |types| == |was| + 1
    requires types[..i] == was[..i] && types[i + 1..] == was[i..]
    ensures var next := types[i := types[i - 1]];
      next[..i - 1] == was[..i - 1] && next[i..] == was[i - 1..]
  {
    assert types[i - 1] == types[..i][i - 1];
    assert types[i := types[i - 1]][i..] == [types[i - 1]] + types[i + 1..];
    assert types[..i][..i - 1] == types[..i - 1];
  }

  lemma Shifted(types: seq<SortType>, was: seq<SortType>, n: nat)
    requires n < |types| == |was| + 1 && types[..n] == was[..n] && types[n + 1..] == was[n..]
    ensures types[n := COLSORT_TEXT] == InsertAt(was, n, COLSORT_TEXT)
  {
    var next := types[n := COLSORT_TEXT];
    assert next == next[..n] + [next[n]] + next[n + 1..];
  }

  // ---------- the code ----------

  class SortListView {
    const style: Style
    var columns: seq<HeaderItem>
    var m_arrColSortType: seq<SortType>
    var m_iSortColumn: int
    var m_bSortDescending: bool
    var oldSortCol: Look
    var rows: seq<Row>

    function Now(): View reads this { View(columns, m_arrColSortType, m_iSortColumn, m_bSortDescending, oldSortCol) }

    constructor (style: Style)
      ensures Now() == View([], [], -1, false, Look(0, {})) && Now().Valid()
      ensures rows == [] && this.style == style
    {
      columns, m_arrColSortType, m_iSortColumn, m_bSortDescending := [], [], -1, false;
      oldSortCol, rows := Look(0, {}), [];
      this.style := style;
    }

    method SetSortColumn(iCol: int)
      requires Now().Valid() && -1 <= iCol < |m_arrColSortType|
      modifies this`columns, this`m_iSortColumn, this`oldSortCol
      ensures Now() == Chosen(old(Now()), style, iCol)
    {
      var iOldSortCol := m_iSortColumn;
      m_iSortColumn := iCol;
      if style.commCtrl6 {
        if iOldSortCol != iCol && iOldSortCol >= 0 {
          var look := columns[iOldSortCol].look;
          columns := WithLook(columns, iOldSortCol, look.(fmt := look.fmt - ARROWS));
        }
        if iCol >= 0 {
          var look := columns[iCol].look;
          look := look.(fmt := look.fmt - ARROWS);
          look := look.(fmt := look.fmt + {if m_bSortDescending then SortDown else SortUp});
          columns := WithLook(columns, iCol, look);
        }
        return;
      }
      if iOldSortCol != iCol && iOldSortCol >= 0 {
        columns := WithLook(columns, iOldSortCol, oldSortCol);
      }
      if iCol >= 0 {
        var look := columns[iCol].look;
        if iOldSortCol != iCol {
          oldSortCol := look;
        }
        look := look.(fmt := look.fmt - {Image});
        look := look.(fmt := look.fmt + {Bitmap, BitmapOnRight});
        look := look.(bitmap := if m_bSortDescending then style.downBitmap else style.upBitmap);
        columns := WithLook(columns, iCol, look);
      }
    }

    method SetColumnSortType(iCol: int, wType: SortType)
      requires 0 <= iCol < |m_arrColSortType|
      modifies this`m_arrColSortType
      ensures m_arrColSortType == old(m_arrColSortType)[iCol := wType]
    {
      m_arrColSortType := m_arrColSortType[iCol := wType];
    }

    /** result: the index at which the list control put the column, or -1. */
    method OnInsertColumn(item: HeaderItem, result: int) returns (lRet: int)
      requires Now().Valid() && -1 <= result <= |columns|
      modifies this`columns, this`m_arrColSortType, this`m_iSortColumn
      ensures lRet == result
      ensures Now() == if result == -1 then old(Now()) else ColumnInserted(old(Now()), result, item)
    {
      lRet := result;
      if lRet == -1 {
        return;
      }
      columns := InsertAt(columns, lRet, item);
      ghost var was := m_arrColSortType;
      m_arrColSortType := m_arrColSortType + [COLSORT_NONE];
      var nCount := |m_arrColSortType|;
      var i := nCount - 1;
      while i > lRet
        invariant lRet <= i < nCount == |m_arrColSortType| == |was| + 1
        invariant columns == InsertAt(old(columns), lRet, item) && m_iSortColumn == old(m_iSortColumn)
        invariant m_arrColSortType[..i] == was[..i] && m_arrColSortType[i + 1..] == was[i..]
      {
        ShiftOne(m_arrColSortType, was, i);
        m_arrColSortType := m_arrColSortType[i := m_arrColSortType[i - 1]];
        i := i - 1;
      }
      Shifted(m_arrColSortType, was, lRet);
      m_arrColSortType := m_arrColSortType[lRet := COLSORT_TEXT];
      if lRet <= m_iSortColumn {
        m_iSortColumn := m_iSortColumn + 1;
      }
    }

    /** deleted: whether the list control deleted the column, which it does for no index but a real one. */
    method OnDeleteColumn(iCol: int, deleted: bool) returns (lRet: bool)
      requires Now().Valid() && (deleted ==> 0 <= iCol < |columns|)
      modifies this`columns, this`m_arrColSortType, this`m_iSortColumn
      ensures lRet == deleted
      ensures Now() == if deleted then ColumnDeleted(old(Now()), iCol) else old(Now())
    {
      if !deleted {
        return false;
      }
      columns := Without(columns, iCol);
      if m_iSortColumn == iCol {
        m_iSortColumn := -1;
      } else if m_iSortColumn > iCol {
        m_iSortColumn := m_iSortColumn - 1;
      }
      m_arrColSortType := Without(m_arrColSortType, iCol);
      return true;
    }

    // The first loop: every item's data goes into a compare parameter, and is replaced by its index.
    method SetParams() returns (param: seq<ItemData>)
      modifies this`rows
      ensures |param| == |rows| == |old(rows)|
      ensures forall k :: 0 <= k < |rows| ==>
        param[k] == old(rows)[k].data && rows[k] == old(rows)[k].(data := Param(k))
    {
      param := [];
      var i, nCount := 0, |rows|;
      while i < nCount
        invariant 0 <= i <= nCount == |rows| && |param| == i
        invariant forall k :: 0 <= k < i ==> param[k] == old(rows)[k].data
        invariant forall k :: 0 <= k < nCount ==>
          rows[k] == if k < i then old(rows)[k].(data := Param(k)) else old(rows)[k]
      {
        param := param + [rows[i].data];
        rows := rows[i := rows[i].(data := Param(i))];
        i := i + 1;
      }
    }

    // The second loop, after the system has moved the items: each parameter's saved data goes back.
    method RestoreData(param: seq<ItemData>, ghost was: seq<Row>, ghost order: seq<nat>)
      requires |param| == |was| && |order| == |rows| && forall k :: 0 <= k < |was| ==> param[k] == was[k].data
      requires forall k :: 0 <= k < |order| ==> order[k] < |was|
      requires forall k :: 0 <= k < |rows| ==> rows[k] == was[order[k]].(data := Param(order[k]))
      modifies this`rows
      ensures |rows| == |order| && forall k :: 0 <= k < |rows| ==> rows[k] == was[order[k]]
    {
      var i, nCount := 0, |rows|;
      while i < nCount
        invariant 0 <= i <= nCount == |rows|
        invariant forall k :: 0 <= k < nCount ==>
          rows[k] == if k < i then was[order[k]] else was[order[k]].(data := Param(order[k]))
      {
        rows := rows[i := rows[i].(data := param[rows[i].data.index])];
        i := i + 1;
      }
    }

    /** order and sorted: the order in which the list control left the items, and the result it reported. */
    method DoSortItems(iCol: int, bDescending: bool, order: seq<nat>, sorted: bool) returns (bRet: bool)
      requires Now().Valid() && 0 <= iCol < |m_arrColSortType| && IsPermutation(order, |rows|)
      modifies this`columns, this`m_iSortColumn, this`m_bSortDescending, this`oldSortCol, this`rows
      ensures |order| == |old(rows)| && forall k :: 0 <= k < |order| ==> order[k] < |old(rows)|
      ensures var can := old(m_arrColSortType)[iCol] != COLSORT_NONE;
        && bRet == (can && (|old(rows)| < 2 || sorted))
        && rows == (if can && |old(rows)| >= 2 then Permuted(old(rows), order) else old(rows))
      ensures Now() == if bRet then Chosen(old(Now()).(descending := bDescending), style, iCol) else old(Now())
    {
      PermutationStaysInRange(order, |rows|);
      if m_arrColSortType[iCol] == COLSORT_NONE {
        return false;
      }
      var nCount := |rows|;
      if nCount < 2 {
        m_bSortDescending := bDescending;
        SetSortColumn(iCol);
        return true;
      }
      var param := SetParams();
      rows := Permuted(rows, order);
      RestoreData(param, old(rows), order);
      assert rows == Permuted(old(rows), order);
      bRet := sorted;
      if bRet {
        m_bSortDescending := bDescending;
        SetSortColumn(iCol);
      }
    }

    method OnHeaderItemClick(iItem: int, iButton: int, order: seq<nat>, sorted: bool)
      requires Now().Valid() && 0 <= iItem < |m_arrColSortType| && IsPermutation(order, |rows|)
      modifies this`columns, this`m_iSortColumn, this`m_bSortDescending, this`oldSortCol, this`rows
      ensures Now() ==
        if iButton == 0 && old(m_arrColSortType)[iItem] != COLSORT_NONE && (|old(rows)| < 2 || sorted)
        then Chosen(old(Now()).(descending := old(m_iSortColumn) == iItem && !old(m_bSortDescending)), style, iItem)
        else old(Now())
      ensures multiset(rows) == multiset(old(rows))
    {
      if iButton == 0 {
        SortingPermutesItemsWithTheirData(rows, order);
        var bDescending := if m_iSortColumn == iItem then !m_bSortDescending else false;
        var _ := DoSortItems(iItem, bDescending, order, sorted);
      }
    }
  }

  // ---------- the sheet an application sees ----------

  // A column as its owner thinks of it: who it is, how it sorts, and the look it was given.
  datatype Column = Column(id: ColumnId, sortType: SortType, own: Look)

  datatype Sheet = Sheet(columns: seq<Column>, sortedBy: Option<ColumnId>, descending: bool)

  // The code's state shows the sheet: positions, types, looks, and the sort column by identity.
  ghost predicate Shows(v: View, s: Style, sheet: Sheet) {
    && v.Valid() && v.Distinct() && |sheet.columns| == |v.columns| && sheet.descending == v.descending
    && (forall k :: 0 <= k < |v.columns| ==> ShowsColumn(v, s, sheet, k))
    && (if v.sortColumn < 0 then sheet.sortedBy == None else sheet.sortedBy == Some(v.columns[v.sortColumn].id))
  }

  ghost predicate ShowsColumn(v: View, s: Style, sheet: Sheet, k: nat)
    requires v.Valid() && |sheet.columns| == |v.columns| && k < |v.columns|
  {
    var c := sheet.columns[k];
    && c.id == v.columns[k].id && c.sortType == v.sortTypes[k]
    && (k != v.sortColumn ==> v.columns[k].look == c.own)
    && (k == v.sortColumn ==> v.columns[k].look == s.Marked(c.own, v.descending) && s.Kept(c.own) == c.own)
    && (k == v.sortColumn && !s.commCtrl6 ==> v.oldLook == c.own)
  }

  datatype Op =
    | InsertColumn(n: nat, item: HeaderItem)
    | DeleteColumn(n: nat)
    | SetType(n: nat, sortType: SortType)
    | Choose(iCol: int)
    | Sort(n: nat, descending: bool)

  // What the operations mean for the application. Nothing here counts positions of the sort column.
  function Edited(sheet: Sheet, s: Style, op: Op): Sheet
    requires CanApply(|sheet.columns|, op)
  {
    match op
    case InsertColumn(n, item) => sheet.(columns := InsertAt(sheet.columns, n, Column(item.id, COLSORT_TEXT, item.look)))
    case DeleteColumn(n) =>
      sheet.(columns := Without(sheet.columns, n),
             sortedBy := if sheet.sortedBy == Some(sheet.columns[n].id) then None else sheet.sortedBy)
    case SetType(n, sortType) => sheet.(columns := sheet.columns[n := sheet.columns[n].(sortType := sortType)])
    case Choose(iCol) => if iCol < 0 then sheet.(sortedBy := None) else SortedBy(sheet, s, iCol)
    case Sort(n, descending) =>
      if sheet.columns[n].sortType == COLSORT_NONE then sheet
      else SortedBy(sheet.(descending := descending), s, n)
  }

  function SortedBy(sheet: Sheet, s: Style, n: nat): Sheet
    requires n < |sheet.columns|
  {
    var c := sheet.columns[n];
    sheet.(sortedBy := Some(c.id), columns := sheet.columns[n := c.(own := s.Kept(c.own))])
  }

  predicate CanApply(count: nat, op: Op) {
    match op
    case InsertColumn(n, _) => n <= count
    case DeleteColumn(n) => n < count
    case SetType(n, _) => n < count
    case Choose(iCol) => -1 <= iCol < count
    case Sort(n, _) => n < count
  }

  // What the code does for them; sorting is a successful sort.
  function Apply(v: View, s: Style, op: Op): View
    requires v.Valid() && CanApply(|v.columns|, op)
  {
    match op
    case InsertColumn(n, item) => ColumnInserted(v, n, item)
    case DeleteColumn(n) => ColumnDeleted(v, n)
    case SetType(n, sortType) => v.(sortTypes := v.sortTypes[n := sortType])
    case Choose(iCol) => Chosen(v, s, iCol)
    case Sort(n, descending) =>
      if v.sortTypes[n] == COLSORT_NONE then v else Chosen(v.(descending := descending), s, n)
  }

  predicate NewId(v: View, op: Op) {
    op.InsertColumn? ==> forall k :: 0 <= k < |v.columns| ==> v.columns[k].id != op.item.id
  }

  lemma InsertShows(v: View, s: Style, sheet: Sheet, n: nat, item: HeaderItem)
    requires Shows(v, s, sheet) && n <= |v.columns| && NewId(v, InsertColumn(n, item))
    ensures Shows(ColumnInserted(v, n, item), s, Edited(sheet, s, InsertColumn(n, item)))
  {
    var u, after := ColumnInserted(v, n, item), Edited(sheet, s, InsertColumn(n, item));
    forall k | 0 <= k < |u.columns| ensures ShowsColumn(u, s, after, k) {
      if k != n {
        var was := if k < n then k else k - 1;
        assert ShowsColumn(v, s, sheet, was);
        assert after.columns[k] == sheet.columns[was] && u.columns[k] == v.columns[was];
      }
    }
    forall i, j | 0 <= i < j < |u.columns| ensures u.columns[i].id != u.columns[j].id {
      assert i != n ==> u.columns[i] == v.columns[if i < n then i else i - 1];
      assert j != n ==> u.columns[j] == v.columns[if j < n then j else j - 1];
    }
  }

  lemma DeleteShows(v: View, s: Style, sheet: Sheet, n: nat)
    requires Shows(v, s, sheet) && n < |v.columns|
    ensures Shows(ColumnDeleted(v, n), s, Edited(sheet, s, DeleteColumn(n)))
  {
    var u, after := ColumnDeleted(v, n), Edited(sheet, s, DeleteColumn(n));
    forall k | 0 <= k < |u.columns| ensures ShowsColumn(u, s, after, k) {
      var was := if k < n then k else k + 1;
      assert ShowsColumn(v, s, sheet, was);
      assert after.columns[k] == sheet.columns[was] && u.columns[k] == v.columns[was];
    }
    forall i, j | 0 <= i < j < |u.columns| ensures u.columns[i].id != u.columns[j].id {
      assert u.columns[i] == v.columns[if i < n then i else i + 1];
      assert u.columns[j] == v.columns[if j < n then j else j + 1];
    }
    assert ShowsColumn(v, s, sheet, n);
  }

  lemma SetTypeShows(v: View, s: Style, sheet: Sheet, n: nat, sortType: SortType)
    requires Shows(v, s, sheet) && n < |v.columns|
    ensures Shows(v.(sortTypes := v.sortTypes[n := sortType]), s, Edited(sheet, s, SetType(n, sortType)))
  {
    var u, after := v.(sortTypes := v.sortTypes[n := sortType]), Edited(sheet, s, SetType(n, sortType));
    forall k | 0 <= k < |u.columns| ensures ShowsColumn(u, s, after, k) {
      assert ShowsColumn(v, s, sheet, k);
    }
  }

  lemma KeptWhenMarked(s: Style, own: Look, was: bool, descending: bool)
    ensures s.Kept(s.Kept(own)) == s.Kept(own)
    ensures s.Marked(s.Kept(own), descending) == s.Marked(own, descending)
    ensures s.Marked(s.Marked(own, was), descending) == s.Marked(own, descending)
    ensures s.commCtrl6 ==> s.Kept(s.Marked(own, was)) == s.Kept(own)
  {
  }

  lemma ChooseShows(v: View, s: Style, sheet: Sheet, descending: bool, n: nat)
    requires Shows(v, s, sheet) && n < |v.columns|
    ensures Shows(Chosen(v.(descending := descending), s, n), s, SortedBy(sheet.(descending := descending), s, n))
  {
    var u, after := Chosen(v.(descending := descending), s, n), SortedBy(sheet.(descending := descending), s, n);
    assert ShowsColumn(v, s, sheet, n);
    forall k | 0 <= k < |u.columns| ensures ShowsColumn(u, s, after, k) {
      assert ShowsColumn(v, s, sheet, k);
      KeptWhenMarked(s, sheet.columns[k].own, v.descending, descending);
    }
    assert u.Distinct() by {
      assert forall k :: 0 <= k < |u.columns| ==> u.columns[k].id == v.columns[k].id;
    }
  }

  lemma ChooseNoneShows(v: View, s: Style, sheet: Sheet)
    requires Shows(v, s, sheet)
    ensures Shows(Chosen(v, s, -1), s, sheet.(sortedBy := None))
  {
    var u, after := Chosen(v, s, -1), sheet.(sortedBy := None);
    forall k | 0 <= k < |u.columns| ensures ShowsColumn(u, s, after, k) {
      assert ShowsColumn(v, s, sheet, k);
      KeptWhenMarked(s, sheet.columns[k].own, v.descending, v.descending);
    }
    assert u.Distinct() by {
      assert forall k :: 0 <= k < |u.columns| ==> u.columns[k].id == v.columns[k].id;
    }
  }

  /** Every operation on indices shows what the operation on identities means. */
  lemma ApplyShows(v: View, s: Style, sheet: Sheet, op: Op)
    requires Shows(v, s, sheet) && CanApply(|v.columns|, op) && NewId(v, op)
    ensures Shows(Apply(v, s, op), s, Edited(sheet, s, op))
  {
    match op
    case InsertColumn(n, item) => InsertShows(v, s, sheet, n, item);
    case DeleteColumn(n) => DeleteShows(v, s, sheet, n);
    case SetType(n, sortType) => SetTypeShows(v, s, sheet, n, sortType);
    case Choose(iCol) => if iCol < 0 { ChooseNoneShows(v, s, sheet); } else { ChooseShows(v, s, sheet, v.descending, iCol); }
    case Sort(n, descending) =>
      assert ShowsColumn(v, s, sheet, n);
      if v.sortTypes[n] != COLSORT_NONE { ChooseShows(v, s, sheet, descending, n); }
  }

  lemma ApplyKeepsValid(v: View, s: Style, op: Op)
    requires v.Valid() && CanApply(|v.columns|, op)
    ensures Apply(v, s, op).Valid()
  {
  }

  ghost predicate IsRun(v: View, s: Style, ops: seq<Op>)
    requires v.Valid()
    decreases |ops|
  {
    if ops == [] then true
    else if !(CanApply(|v.columns|, ops[0]) && NewId(v, ops[0])) then false
    else
      ApplyKeepsValid(v, s, ops[0]);
      IsRun(Apply(v, s, ops[0]), s, ops[1..])
  }

  ghost function Final(v: View, s: Style, ops: seq<Op>): View
    requires v.Valid() && IsRun(v, s, ops)
    decreases |ops|
  {
    if ops == [] then v
    else
      ApplyKeepsValid(v, s, ops[0]);
      Final(Apply(v, s, ops[0]), s, ops[1..])
  }

  // The sheet after as many operations as have a meaning for it; in a run, all of them.
  function Meaning(sheet: Sheet, s: Style, ops: seq<Op>): Sheet
    decreases |ops|
  {
    if ops == [] || !CanApply(|sheet.columns|, ops[0]) then sheet else Meaning(Edited(sheet, s, ops[0]), s, ops[1..])
  }

  /** Over every run the code's indices show the sheet: each sort type follows its column, the sort column
      is the one last chosen or none once that was deleted, only it is marked, with the current direction,
      and every other column has its own look back. */
  lemma {:induction false} RunsShowTheSheet(v: View, s: Style, sheet: Sheet, ops: seq<Op>)
    requires Shows(v, s, sheet) && IsRun(v, s, ops)
    ensures Shows(Final(v, s, ops), s, Meaning(sheet, s, ops))
    decreases |ops|
  {
    if ops != [] {
      ApplyShows(v, s, sheet, ops[0]);
      RunsShowTheSheet(Apply(v, s, ops[0]), s, Edited(sheet, s, ops[0]), ops[1..]);
    }
  }

  /** A sort column gives its own look back when another is chosen, exactly when common controls 6 does not
      draw the arrow or the look had no arrow of its own. */
  lemma LookSurvivesSortingIff(v: View, s: Style, sheet: Sheet, n: nat, m: nat)
    requires Shows(v, s, sheet) && n < |v.columns| && m < |v.columns| && n != m && v.sortColumn != n
    ensures Chosen(v, s, n).Valid() && |Chosen(v, s, n).columns| == |v.columns|
    ensures Chosen(Chosen(v, s, n), s, m).columns[n].look == v.columns[n].look
      <==> !s.commCtrl6 || v.columns[n].look.fmt !! ARROWS
  {
    assert ShowsColumn(v, s, sheet, n);
    var look := v.columns[n].look;
    KeptWhenMarked(s, look, v.descending, v.descending);
    if s.commCtrl6 {
      assert Chosen(Chosen(v, s, n), s, m).columns[n].look == s.Kept(look);
      assert s.Kept(look) == look <==> look.fmt - ARROWS == look.fmt;
      if SortUp in look.fmt { assert SortUp !in look.fmt - ARROWS; }
      if SortDown in look.fmt { assert SortDown !in look.fmt - ARROWS; }
    }
  }
}
