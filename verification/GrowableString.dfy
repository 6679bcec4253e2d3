/** The growable wide string: doubling growth, a terminator convention, and cells left over from
    earlier contents. */
module GrowableString {

  const NUL := '\0'

  // The buffer as a value: all cap cells, and how many of them are live.
  datatype Buffer = Buffer(cells: seq<char>, count: nat) {
    predicate Valid() { count < |cells| }

    function Live(): seq<char>
      requires count <= |cells|
    {
      cells[..count]
    }

    // The terminator convention: the cell after the live ones is zero.
    predicate Terminated()
      requires Valid()
    {
      cells[count] == NUL
    }

    // Every cell after the live ones is zero.
    predicate Clean() { forall i | count <= i < |cells| :: cells[i] == NUL }
  }

  // What a C reader of the buffer sees: everything before the first zero.
  function Text(cells: seq<char>): (t: seq<char>)
    ensures t <= cells && NUL !in t && (|t| < |cells| ==> cells[|t|] == NUL)
  {
    if cells == [] || cells[0] == NUL then [] else [cells[0]] + Text(cells[1..])
  }

  lemma {:induction false} TextIsUpTo(cells: seq<char>, n: nat)
    requires n < |cells| && cells[n] == NUL && NUL !in cells[..n]
    ensures Text(cells) == cells[..n]
    decreases n
  {
    if n > 0 {
      assert cells[0] == cells[..n][0];
      assert cells[1..][..n - 1] == cells[..n][1..];
      TextIsUpTo(cells[1..], n - 1);
    }
  }

  function Zeros(n: nat): (z: seq<char>)
    ensures |z| == n && forall i | 0 <= i < n :: z[i] == NUL
  {
    seq(n, _ => NUL)
  }

  // ---------- the operations on values ----------

  predicate Grows(b: Buffer, num: nat) { |b.cells| - b.count < num + 1 }

  function Reserved(b: Buffer, num: nat): Buffer
    requires b.count <= |b.cells|
  {
    if Grows(b, num) then Buffer(b.Live() + Zeros((b.count + num + 1) * 2 - b.count), b.count) else b
  }

  function Cleared(b: Buffer): Buffer
    requires b.Valid()
  {
    Buffer(b.cells[0 := NUL], 0)
  }

  function Appended(b: Buffer, text: seq<char>): Buffer
    requires b.count <= |b.cells|
  {
    var r := Reserved(b, |text|);
    Buffer(r.Live() + text + [NUL] + r.cells[r.count + |text| + 1..], r.count + |text|)
  }

  function WithChar(b: Buffer, c: char): Buffer
    requires b.count <= |b.cells|
  {
    var r := Reserved(b, 1);
    Buffer(r.cells[r.count := c], r.count + 1)
  }

  const Fresh := Reserved(Buffer([], 0), 8)

  // ---------- the code ----------

  class ComString {
    var str: array<char>
    var count: nat
    var cap: nat

    ghost predicate Valid() reads this { str.Length == cap && count < cap }

    ghost function Now(): Buffer reads this, str { Buffer(str[..], count) }

    /** Com_CreateString */
    constructor ()
      ensures Valid() && fresh(str) && Now() == Fresh
    {
      str := new char[0];
      count, cap := 0, 0;
      new;
      Reserve(8);
    }

    /** Com_ReserveString */
    method Reserve(num: nat)
      requires str.Length == cap && count <= cap
      modifies this`str, this`cap
      ensures Valid() && cap - count >= num + 1 && count == old(count)
      ensures Now() == Reserved(old(Now()), num)
      ensures str == old(str) || fresh(str)
    {
      var n := num + 1;
      if cap - count < n {
        cap := (count + n) * 2;
        str := Reallocate(str, cap);
        var i := count;
        while i < cap
          invariant count <= i <= cap
          invariant forall j | 0 <= j < count :: str[j] == old(str[j])
          invariant forall j | count <= j < i :: str[j] == NUL
          modifies str
        {
          str[i] := NUL;
          i := i + 1;
        }
        assert str[..count] == old(str[..count]);
        assert str[count..] == Zeros(cap - count);
        assert str[..] == str[..count] + str[count..];
      }
    }

    // realloc: a new block with as many of the old cells as fit
    static method Reallocate(was: array<char>, cap: nat) returns (block: array<char>)
      ensures fresh(block) && block.Length == cap
      ensures forall j | 0 <= j < was.Length && j < cap :: block[j] == was[j]
    {
      block := new char[cap];
      var i := 0;
      while i < was.Length && i < cap
        invariant 0 <= i <= was.Length && i <= cap
        invariant forall j | 0 <= j < i :: block[j] == was[j]
      {
        block[i] := was[i];
        i := i + 1;
      }
    }

    /** Com_ClearString: only cell 0 is written. */
    method Clear()
      requires Valid()
      modifies this`count, str
      ensures Valid() && str == old(str) && Now() == Cleared(old(Now()))
    {
      str[0] := NUL;
      count := 0;
    }

    /** Com_AppendString */
    method Append(sour: seq<char>) returns (len: nat)
      requires Valid() && NUL !in sour
      modifies this, str
      ensures Valid() && len == |sour| && Now() == Appended(old(Now()), sour)
      ensures str == old(str) || fresh(str)
    {
      len := |sour|;
      Reserve(len);
      CopyIn(sour);
    }

    // The copy loop and the terminator, once there is room.
    method CopyIn(sour: seq<char>)
      requires str.Length == cap && count + |sour| < cap
      modifies this`count, str
      ensures Valid() && count == old(count) + |sour|
      ensures str[..] == old(str[..count]) + sour + [NUL] + old(str[count + |sour| + 1..])
    {
      ghost var live, rest := str[..count], str[count + |sour| + 1..];
      var i := 0;
      while i < |sour|
        invariant 0 <= i <= |sour| && count == old(count) + i
        invariant forall j | 0 <= j < old(count) :: str[j] == live[j]
        invariant forall j | 0 <= j < i :: str[old(count) + j] == sour[j]
        invariant forall j | 0 <= j < |rest| :: str[old(count) + |sour| + 1 + j] == rest[j]
      {
        str[count] := sour[i];
        count := count + 1;
        i := i + 1;
      }
      str[count] := NUL;
      Assemble(str[..], live, sour, NUL, rest);
    }

    /** Com_AppendCharToString: no terminator is written. */
    method AppendChar(chr: char)
      requires Valid()
      modifies this, str
      ensures Valid() && Now() == WithChar(old(Now()), chr)
      ensures str == old(str) || fresh(str)
    {
      Reserve(1);
      str[count] := chr;
      count := count + 1;
    }
  }

  lemma Assemble(cells: seq<char>, live: seq<char>, text: seq<char>, c: char, rest: seq<char>)
    requires |cells| == |live| + |text| + 1 + |rest|
    requires forall j | 0 <= j < |live| :: cells[j] == live[j]
    requires forall j | 0 <= j < |text| :: cells[|live| + j] == text[j]
    requires cells[|live| + |text|] == c
    requires forall j | 0 <= j < |rest| :: cells[|live| + |text| + 1 + j] == rest[j]
    ensures cells == live + text + [c] + rest
  {
  }

  // ---------- runs ----------

  datatype Op = AppendText(text: seq<char>) | AppendOne(c: char) | ClearAll

  function Apply(b: Buffer, op: Op): (r: Buffer)
    requires b.Valid()
    ensures r.Valid()
  {
    match op
    case AppendText(t) => Appended(b, t)
    case AppendOne(c) => WithChar(b, c)
    case ClearAll => Cleared(b)
  }

  function Run(b: Buffer, ops: seq<Op>): (r: Buffer)
    requires b.Valid()
    ensures r.Valid()
    decreases |ops|
  {
    if ops == [] then b else Run(Apply(b, ops[0]), ops[1..])
  }

  // The text a caller has asked for: plain concatenation, restarted by a clear.
  function Asked(text: seq<char>, ops: seq<Op>): seq<char>
    decreases |ops|
  {
    if ops == [] then text
    else Asked(match ops[0]
               case AppendText(t) => text + t
               case AppendOne(c) => text + [c]
               case ClearAll => [], ops[1..])
  }

  predicate ClearFree(ops: seq<Op>) { forall o <- ops :: !o.ClearAll? }

  lemma ApplyKeepsText(b: Buffer, op: Op)
    requires b.Valid()
    ensures var r := Apply(b, op);
      && r.Live() == Asked(b.Live(), [op])
      && (b.Clean() && !op.ClearAll? ==> r.Clean())
  {
    assert [op][1..] == [];
    var r := Apply(b, op);
    match op
    case AppendText(t) =>
      assert r.Live() == b.Live() + t;
    case AppendOne(c) =>
      assert r.Live() == b.Live() + [c];
    case ClearAll =>
  }

  /** Over any run from a fresh string the live contents are the plain concatenation, one cell of slack
      always remains, and without a clear every cell behind the contents is zero. */
  lemma {:induction false} RunRefinesConcatenation(b: Buffer, ops: seq<Op>)
    requires b.Valid()
    ensures Run(b, ops).Live() == Asked(b.Live(), ops)
    ensures b.Clean() && ClearFree(ops) ==> Run(b, ops).Clean()
    decreases |ops|
  {
    if ops != [] {
      ApplyKeepsText(b, ops[0]);
      assert [ops[0]][1..] == [];
      RunRefinesConcatenation(Apply(b, ops[0]), ops[1..]);
      assert ops[0] in ops;
      assert forall o <- ops[1..] :: o in ops;
    }
  }

  /** A fresh string after appends alone reads back, as a C string, exactly what was appended. */
  lemma AppendsReadBack(ops: seq<Op>)
    requires ClearFree(ops) && NUL !in Asked([], ops)
    ensures Text(Run(Fresh, ops).cells) == Asked([], ops)
  {
    var r := Run(Fresh, ops);
    assert Fresh.Live() == [];
    RunRefinesConcatenation(Fresh, ops);
    TextIsUpTo(r.cells, r.count);
  }

  /** Appending a text restores the terminator, whatever state the cells were left in. */
  lemma AppendTextTerminates(b: Buffer, t: seq<char>)
    requires b.Valid() && NUL !in b.Live() && NUL !in t
    ensures Appended(b, t).Terminated() && Text(Appended(b, t).cells) == b.Live() + t
  {
    var r := Appended(b, t);
    assert r.Live() == b.Live() + t;
    TextIsUpTo(r.cells, r.count);
  }

  /** A clear leaves an empty, terminated string, whatever was in the buffer. */
  lemma ClearReadsEmpty(b: Buffer)
    requires b.Valid()
    ensures Cleared(b).Valid() && Cleared(b).Terminated() && Text(Cleared(b).cells) == []
    ensures |Cleared(b).cells| == |b.cells| && Cleared(b).cells[1..] == b.cells[1..]
  {
  }

  /** So a run that ends with a clear reads empty, whatever came before. */
  lemma {:induction false} RunsReadEmptyAfterAClear(b: Buffer, ops: seq<Op>)
    requires b.Valid()
    ensures Text(Run(b, ops + [ClearAll]).cells) == [] && Run(b, ops + [ClearAll]).count == 0
    decreases |ops|
  {
    if ops == [] {
      assert ops + [ClearAll] == [ClearAll] && [ClearAll][1..] == [];
      ClearReadsEmpty(b);
    } else {
      assert (ops + [ClearAll])[0] == ops[0] && (ops + [ClearAll])[1..] == ops[1..] + [ClearAll];
      RunsReadEmptyAfterAClear(Apply(b, ops[0]), ops[1..]);
    }
  }

  /** Appending one character terminates the string exactly when the buffer grew or the cell behind
      the new character already was zero; otherwise a C reader sees stale characters after it. */
  lemma AppendCharTerminatesIff(b: Buffer, c: char)
    requires b.Valid()
    ensures WithChar(b, c).Terminated() <==> Grows(b, 1) || b.cells[b.count + 1] == NUL
    ensures NUL !in b.Live() && c != NUL ==>
      (Text(WithChar(b, c).cells) == b.Live() + [c] <==> WithChar(b, c).Terminated())
  {
    var r := WithChar(b, c);
    assert r.Live() == b.Live() + [c];
    if NUL !in b.Live() && c != NUL && r.Terminated() {
      TextIsUpTo(r.cells, r.count);
    }
  }

  /** A clear leaves the old characters behind its one zero: "ab", cleared, then 'x' reads "xb". */
  lemma ClearExposesStaleCharacters()
    ensures Text(Run(Fresh, [AppendText("ab"), ClearAll, AppendOne('x')]).cells) == "xb"
    ensures Asked([], [AppendText("ab"), ClearAll, AppendOne('x')]) == "x"
  {
    var a := Apply(Fresh, AppendText("ab"));
    var b := Apply(a, ClearAll);
    var c := Apply(b, AppendOne('x'));
    assert [AppendText("ab"), ClearAll, AppendOne('x')][1..] == [ClearAll, AppendOne('x')];
    assert [ClearAll, AppendOne('x')][1..] == [AppendOne('x')];
    assert [AppendOne('x')][1..] == [];
    assert Run(c, []) == c;
    assert Run(b, [AppendOne('x')]) == c;
    assert Run(a, [ClearAll, AppendOne('x')]) == c;
    assert Asked("ab", [ClearAll, AppendOne('x')]) == "x" by {
      assert [] + ['x'] == "x";
      assert Asked([], [AppendOne('x')]) == Asked([] + ['x'], []);
    }
    assert [] + "ab" == "ab";
    assert c.cells[0] == 'x' && c.cells[1] == 'b' && c.cells[2] == NUL;
    assert c.cells[..2] == "xb";
    TextIsUpTo(c.cells, 2);
  }

  // ---------- the cost of growing ----------

  function Size(op: Op): nat {
    match op
    case AppendText(t) => |t|
    case AppendOne(_) => 1
    case ClearAll => 0
  }

  // Live characters moved by the reallocation an operation causes, if it causes one.
  function Moved(b: Buffer, op: Op): nat {
    if !op.ClearAll? && Grows(b, Size(op)) then b.count else 0
  }

  function TotalMoved(b: Buffer, ops: seq<Op>): nat
    requires b.Valid()
    decreases |ops|
  {
    if ops == [] then 0 else Moved(b, ops[0]) + TotalMoved(Apply(b, ops[0]), ops[1..])
  }

  function Bound(b: Buffer): nat { if 2 * b.count + 2 < 18 then 18 else 2 * b.count + 2 }

  /** One append: the capacity bound is kept, and what was moved before plus what moves now still fits
      the capacity and twice the contents. */
  lemma AppendIsAmortised(b: Buffer, op: Op, moved: nat)
    requires b.Valid() && !op.ClearAll?
    requires moved <= |b.cells| <= Bound(b) && moved <= 2 * b.count
    ensures var r := Apply(b, op);
      moved + Moved(b, op) <= |r.cells| <= Bound(r) && moved + Moved(b, op) <= 2 * r.count
  {
    var r := Apply(b, op);
    assert r.count == b.count + Size(op);
    assert |r.cells| == |Reserved(b, Size(op)).cells|;
  }

  lemma {:induction false} AmortisedFrom(b: Buffer, ops: seq<Op>, moved: nat)
    requires b.Valid() && ClearFree(ops)
    requires moved <= |b.cells| <= Bound(b) && moved <= 2 * b.count
    ensures var r := Run(b, ops);
      moved + TotalMoved(b, ops) <= 2 * r.count && |r.cells| <= Bound(r)
    decreases |ops|
  {
    if ops != [] {
      assert ops[0] in ops;
      assert forall o <- ops[1..] :: o in ops;
      AppendIsAmortised(b, ops[0], moved);
      AmortisedFrom(Apply(b, ops[0]), ops[1..], moved + Moved(b, ops[0]));
    }
  }

  /** Every append-only run from a fresh string moves at most two characters per character appended,
      and never holds more than max(18, 2 * count + 2) cells. */
  lemma GrowthIsLinear(ops: seq<Op>)
    requires ClearFree(ops)
    ensures TotalMoved(Fresh, ops) <= 2 * |Asked([], ops)|
    ensures Run(Fresh, ops).count == |Asked([], ops)|
    ensures |Run(Fresh, ops).cells| <= 18 || |Run(Fresh, ops).cells| <= 2 * |Asked([], ops)| + 2
  {
    assert Fresh.Live() == [];
    RunRefinesConcatenation(Fresh, ops);
    AmortisedFrom(Fresh, ops, 0);
  }
}
