/** The command bar's cyclic search for the next or previous menu button. */
module ButtonSearch {
  import opened Options

  // What the loops look at: TBSTATE_ENABLED, TBSTATE_HIDDEN, and whether the button is clipped.
  datatype Button = Button(enabled: bool, hidden: bool, clipped: bool) {
    predicate Usable() { enabled && !hidden }
    predicate Stops() { clipped || Usable() }
  }

  const CHEVRON := -2

  // ---------- what a search looks at ----------

  function Ahead(n: nat, start: nat, k: nat): (b: nat)
    requires start < n && k < n
    ensures b < n
  {
    if start + 1 + k < n then start + 1 + k else start + 1 + k - n
  }

  function Behind(n: nat, start: nat, k: nat): (b: nat)
    requires start < n && k < n
    ensures b < n
  {
    if start >= k + 1 then start - 1 - k else start - 1 - k + n
  }

  // The buttons looked at, in order: all others, and the start button too when the search only gets
  // back to it by wrapping, past the loop guard.
  function NextOrder(n: nat, start: nat): seq<nat>
    requires start < n
  {
    seq(if start > 0 then n - 1 else n, k requires 0 <= k < n => Ahead(n, start, k))
  }

  function PreviousOrder(n: nat, start: nat): seq<nat>
    requires start < n
  {
    seq(if start < n - 1 then n - 1 else n, k requires 0 <= k < n => Behind(n, start, k))
  }

  predicate InRange(bs: seq<Button>, order: seq<nat>) { forall k | 0 <= k < |order| :: order[k] < |bs| }

  // Position in the order of the first button that stops the search.
  function FirstStop(bs: seq<Button>, order: seq<nat>): (f: nat)
    requires InRange(bs, order)
    ensures f <= |order|
    ensures forall k | 0 <= k < f :: !bs[order[k]].Stops()
    ensures f < |order| ==> bs[order[f]].Stops()
  {
    if order == [] || bs[order[0]].Stops() then 0 else 1 + FirstStop(bs, order[1..])
  }

  lemma FirstStopIs(bs: seq<Button>, order: seq<nat>, f: nat)
    requires InRange(bs, order) && f <= |order|
    requires forall k | 0 <= k < f :: !bs[order[k]].Stops()
    requires f < |order| ==> bs[order[f]].Stops()
    ensures FirstStop(bs, order) == f
  {
  }

  // The eventual return value; None if the loop never ends. guarded: the loop guard can meet start.
  function Search(bs: seq<Button>, start: nat, order: seq<nat>, guarded: bool): Option<int>
    requires InRange(bs, order)
  {
    var f := FirstStop(bs, order);
    if f < |order| then
      Some(if bs[order[f]].clipped then CHEVRON else if order[f] == start then -1 else order[f])
    else if guarded then Some(-1)
    else None
  }

  // What is known after limit iterations.
  function Observed(bs: seq<Button>, start: nat, order: seq<nat>, guarded: bool, limit: nat): Option<int>
    requires InRange(bs, order)
  {
    if limit <= FirstStop(bs, order) && limit < |order| then None else Search(bs, start, order, guarded)
  }

  // ---------- the code ----------

  /** GetNextMenuItem, observed for at most limit iterations: None means it is still running. */
  method GetNextMenuItem(bs: seq<Button>, nBtn: int, limit: nat) returns (found: Option<int>)
    requires -1 <= nBtn < |bs|
    ensures nBtn == -1 ==> found == Some(-1)
    ensures nBtn >= 0 ==> found == Observed(bs, nBtn, NextOrder(|bs|, nBtn), nBtn > 0, limit)
  {
    if nBtn == -1 {
      return Some(-1);
    }
    var nCount := |bs|;
    ghost var order := NextOrder(nCount, nBtn);
    var nNextBtn := nBtn + 1;
    var k := 0;
    while nNextBtn != nBtn
      invariant 0 <= k <= limit && 1 <= nNextBtn <= nCount
      invariant forall i | 0 <= i < k && i < |order| :: !bs[order[i]].Stops()
      invariant k <= |order| ==> nNextBtn == (if k == 0 then nBtn else order[k - 1]) + 1
      invariant k > |order| ==> nBtn == 0
      decreases limit - k
    {
      if k == limit {
        if k >= |order| { FirstStopIs(bs, order, |order|); }
        return None;
      }
      if nNextBtn >= nCount {
        nNextBtn := 0;
      }
      assert k < |order| ==> order[k] == nNextBtn;
      if k >= |order| { LookedAtAll(bs, nBtn, nNextBtn); }
      var tbb := bs[nNextBtn];
      if tbb.clipped {
        FirstStopIs(bs, order, k);
        return Some(CHEVRON);
      }
      if tbb.enabled && !tbb.hidden {
        FirstStopIs(bs, order, k);
        return Some(if nNextBtn != nBtn then nNextBtn else -1);
      }
      nNextBtn := nNextBtn + 1;
      k := k + 1;
    }
    FirstStopIs(bs, order, |order|);
    return Some(-1);
  }

  // From button 0 the first n iterations look at every button.
  lemma LookedAtAll(bs: seq<Button>, start: nat, b: nat)
    requires start == 0 && b < |bs|
    requires forall i | 0 <= i < |bs| :: !bs[NextOrder(|bs|, start)[i]].Stops()
    ensures !bs[b].Stops()
  {
    assert NextOrder(|bs|, start)[if b > 0 then b - 1 else |bs| - 1] == b;
  }

  /** GetPreviousMenuItem, in the same way. */
  method GetPreviousMenuItem(bs: seq<Button>, nBtn: int, limit: nat) returns (found: Option<int>)
    requires -1 <= nBtn < |bs|
    ensures nBtn == -1 ==> found == Some(-1)
    ensures nBtn >= 0 ==> found == Observed(bs, nBtn, PreviousOrder(|bs|, nBtn), nBtn < |bs| - 1, limit)
  {
    if nBtn == -1 {
      return Some(-1);
    }
    ghost var n := |bs|;
    ghost var order := PreviousOrder(n, nBtn);
    var nNextBtn := nBtn - 1;
    var k := 0;
    while nNextBtn != nBtn
      invariant 0 <= k <= limit && -1 <= nNextBtn < n - 1
      invariant forall i | 0 <= i < k && i < |order| :: !bs[order[i]].Stops()
      invariant k <= |order| ==> nNextBtn == (if k == 0 then nBtn else order[k - 1]) - 1
      invariant k > |order| ==> nBtn == n - 1
      decreases limit - k
    {
      if k == limit {
        if k >= |order| { FirstStopIs(bs, order, |order|); }
        return None;
      }
      if nNextBtn < 0 {
        nNextBtn := |bs| - 1;
      }
      assert k < |order| ==> order[k] == nNextBtn;
      if k >= |order| { LookedAtAllBackwards(bs, nBtn, nNextBtn); }
      var tbb := bs[nNextBtn];
      if tbb.clipped {
        FirstStopIs(bs, order, k);
        return Some(CHEVRON);
      }
      if tbb.enabled && !tbb.hidden {
        FirstStopIs(bs, order, k);
        return Some(if nNextBtn != nBtn then nNextBtn else -1);
      }
      nNextBtn := nNextBtn - 1;
      k := k + 1;
    }
    FirstStopIs(bs, order, |order|);
    return Some(-1);
  }

  lemma LookedAtAllBackwards(bs: seq<Button>, start: nat, b: nat)
    requires start == |bs| - 1 && b < |bs|
    requires forall i | 0 <= i < |bs| :: !bs[PreviousOrder(|bs|, start)[i]].Stops()
    ensures !bs[b].Stops()
  {
    assert PreviousOrder(|bs|, start)[if b < start then start - 1 - b else start] == b;
  }

  // ---------- what the searches promise ----------

  function Next(bs: seq<Button>, start: nat): Option<int>
    requires start < |bs|
  {
    Search(bs, start, NextOrder(|bs|, start), start > 0)
  }

  function Previous(bs: seq<Button>, start: nat): Option<int>
    requires start < |bs|
  {
    Search(bs, start, PreviousOrder(|bs|, start), start < |bs| - 1)
  }

  /** After some iterations the answer is there exactly when there is one at all and a stopping button was among
      those looked at, or all have been looked at; and it is then the search's answer, whatever else comes. */
  lemma AnsweredOnceAStopIsSeen(bs: seq<Button>, start: nat, order: seq<nat>, guarded: bool, limit: nat)
    requires InRange(bs, order)
    ensures var seen := Observed(bs, start, order, guarded, limit);
      var all := limit >= |order| || exists k | 0 <= k < limit :: bs[order[k]].Stops();
      && (seen.Some? <==> (all && Search(bs, start, order, guarded).Some?))
      && (seen.Some? ==> seen == Search(bs, start, order, guarded))
  {
    var f := FirstStop(bs, order);
    if f < limit && f < |order| { assert bs[order[f]].Stops(); }
  }

  /** The searches end exactly when the start is not the end button the wrap skips the guard for, or
      some button, the start included, stops them; then they end within one pass over the buttons. */
  lemma SearchEndsIff(bs: seq<Button>, start: nat, limit: nat)
    requires start < |bs|
    ensures Next(bs, start).Some? <==> start > 0 || exists b | 0 <= b < |bs| :: bs[b].Stops()
    ensures Previous(bs, start).Some? <==> start < |bs| - 1 || exists b | 0 <= b < |bs| :: bs[b].Stops()
    ensures limit >= |bs| ==>
      && Observed(bs, start, NextOrder(|bs|, start), start > 0, limit) == Next(bs, start)
      && Observed(bs, start, PreviousOrder(|bs|, start), start < |bs| - 1, limit) == Previous(bs, start)
  {
    if exists b | 0 <= b < |bs| :: bs[b].Stops() {
      var b :| 0 <= b < |bs| && bs[b].Stops();
      if start == 0 && Next(bs, start) == None { LookedAtAll(bs, start, b); }
      if start == |bs| - 1 && Previous(bs, start) == None { LookedAtAllBackwards(bs, start, b); }
    }
  }

  // Position of another button in the order.
  function Steps(n: nat, start: nat, b: nat): nat
    requires start < n && b < n && b != start
  {
    if b > start then b - start - 1 else n + b - start - 1
  }

  // No other button nearer than b stops the search.
  predicate MetFirst(bs: seq<Button>, start: nat, b: nat)
    requires start < |bs| && b < |bs| && b != start
  {
    forall c | 0 <= c < |bs| && c != start && Steps(|bs|, start, c) < Steps(|bs|, start, b) :: !bs[c].Stops()
  }

  predicate NoOtherStops(bs: seq<Button>, start: nat) { forall c | 0 <= c < |bs| && c != start :: !bs[c].Stops() }

  // The other buttons stand in the order by their distance; from button 0 the start comes last.
  lemma OrderBySteps(n: nat, start: nat, b: nat)
    requires start < n && b < n && b != start
    ensures Steps(n, start, b) < n - 1 && NextOrder(n, start)[Steps(n, start, b)] == b
    ensures start == 0 ==> NextOrder(n, start)[n - 1] == start
  {
  }

  lemma FirstStopIsNearest(bs: seq<Button>, start: nat)
    requires start < |bs|
    ensures var f, order := FirstStop(bs, NextOrder(|bs|, start)), NextOrder(|bs|, start);
      if f < |bs| - 1 then order[f] != start && bs[order[f]].Stops() && MetFirst(bs, start, order[f])
      else NoOtherStops(bs, start)
  {
    var n, order := |bs|, NextOrder(|bs|, start);
    var f := FirstStop(bs, order);
    if f < n - 1 {
      assert order[f] != start && Steps(n, start, order[f]) == f;
    }
    forall c | 0 <= c < n && c != start && Steps(n, start, c) < f
      ensures !bs[c].Stops()
    {
      OrderBySteps(n, start, c);
    }
    forall c | 0 <= c < n && c != start
      ensures Steps(n, start, c) < n - 1
    {
      OrderBySteps(n, start, c);
    }
  }

  lemma FirstIsUnique(bs: seq<Button>, start: nat, b: nat, c: nat)
    requires start < |bs| && b < |bs| && c < |bs| && b != start && c != start
    requires bs[b].Stops() && bs[c].Stops() && MetFirst(bs, start, b) && MetFirst(bs, start, c)
    ensures b == c
  {
    OrderBySteps(|bs|, start, b);
    OrderBySteps(|bs|, start, c);
  }

  /** From an enabled, visible start the search for the next button ends with the nearest other usable
      button, with -2 exactly if a clipped one is met first, and with -1 exactly if there is neither (a
      clipped start counts only for button 0, where the wrap looks at it last). */
  lemma NextIsNearest(bs: seq<Button>, start: nat)
    requires start < |bs| && bs[start].enabled && !bs[start].hidden
    ensures Next(bs, start).Some?
    ensures forall b | 0 <= b < |bs| && b != start ::
      Next(bs, start) == Some(b) <==> bs[b].enabled && !bs[b].hidden && !bs[b].clipped && MetFirst(bs, start, b)
    ensures Next(bs, start) == Some(-2) <==>
      || (exists b | 0 <= b < |bs| && b != start :: bs[b].clipped && MetFirst(bs, start, b))
      || (NoOtherStops(bs, start) && start == 0 && bs[start].clipped)
    ensures Next(bs, start) == Some(-1) <==> NoOtherStops(bs, start) && !(start == 0 && bs[start].clipped)
  {
    var n, order := |bs|, NextOrder(|bs|, start);
    var f := FirstStop(bs, order);
    FirstStopIsNearest(bs, start);
    if n > 1 { OrderBySteps(n, start, if start == 0 then 1 else 0); }
    if f < n - 1 {
      forall b | 0 <= b < n && b != start && bs[b].Stops() && MetFirst(bs, start, b)
        ensures b == order[f]
      {
        FirstIsUnique(bs, start, b, order[f]);
      }
    }
  }

  // A menu read from the other end.
  function Mirrored(bs: seq<Button>): (m: seq<Button>)
    ensures |m| == |bs| && forall i | 0 <= i < |bs| :: m[i] == bs[|bs| - 1 - i]
  {
    seq(|bs|, i requires 0 <= i < |bs| => bs[|bs| - 1 - i])
  }

  function MirrorAnswer(n: nat, r: Option<int>): Option<int> {
    if r == None || r.value < 0 then r else Some(n - 1 - r.value)
  }

  lemma MirroredOrder(bs: seq<Button>, start: nat, k: nat)
    requires start < |bs| && k < |PreviousOrder(|bs|, start)|
    ensures var n := |bs|;
      && |NextOrder(n, n - 1 - start)| == |PreviousOrder(n, start)|
      && NextOrder(n, n - 1 - start)[k] == n - 1 - PreviousOrder(n, start)[k]
      && Mirrored(bs)[NextOrder(n, n - 1 - start)[k]] == bs[PreviousOrder(n, start)[k]]
  {
  }

  lemma MirroredFirstStop(bs: seq<Button>, start: nat)
    requires start < |bs|
    ensures FirstStop(Mirrored(bs), NextOrder(|bs|, |bs| - 1 - start)) == FirstStop(bs, PreviousOrder(|bs|, start))
  {
    var p, q, m := PreviousOrder(|bs|, start), NextOrder(|bs|, |bs| - 1 - start), Mirrored(bs);
    var f := FirstStop(bs, p);
    MirroredOrder(bs, start, 0);
    forall k | 0 <= k < f
      ensures !m[q[k]].Stops()
    {
      MirroredOrder(bs, start, k);
    }
    if f < |p| { MirroredOrder(bs, start, f); }
    FirstStopIs(m, q, f);
  }

  /** Searching backwards is searching forwards in the mirrored menu. */
  lemma PreviousIsMirroredNext(bs: seq<Button>, start: nat)
    requires start < |bs|
    ensures Previous(bs, start) == MirrorAnswer(|bs|, Next(Mirrored(bs), |bs| - 1 - start))
  {
    var p := PreviousOrder(|bs|, start);
    var f := FirstStop(bs, p);
    MirroredFirstStop(bs, start);
    if f < |p| { MirroredOrder(bs, start, f); }
  }

  /** Without clipped buttons, going on to the next button and back returns to the start. */
  lemma PreviousUndoesNext(bs: seq<Button>, b: nat)
    requires b < |bs| && bs[b].enabled && !bs[b].hidden && forall i | 0 <= i < |bs| :: !bs[i].clipped
    requires Next(bs, b) != Some(-1)
    ensures var c := Next(bs, b);
      c.Some? && 0 <= c.value < |bs| && Previous(bs, c.value) == Some(b)
  {
    var n := |bs|;
    var order := NextOrder(n, b);
    if b == 0 { assert order[n - 1] == b; }
    var f := FirstStop(bs, order);
    assert f < n - 1;
    var c := order[f];
    assert c != b && Next(bs, b) == Some(c);
    var back := PreviousOrder(n, c);
    assert f < |back| && back[f] == b;
    forall k | 0 <= k < f
      ensures !bs[back[k]].Stops()
    {
      assert back[k] == order[f - 1 - k];
    }
    FirstStopIs(bs, back, f);
  }
}
