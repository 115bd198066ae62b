/** The room-list compressor inside write_config_to (shots.py:212-234): a
    room list becomes its distinct numbers in ascending order, with every
    maximal run of two or more consecutive numbers written as one range. */
module RoomCompress {
  import opened Text
  import opened HospitalModel

  // ---------------------------------------------------------------------
  // int(room) for every room, then list(set(...)) and sort()

  /** int() accepts an int or a string of digits. */
  predicate IntConvertible(r: RoomId)
  {
    r.IntId? || IsDigits(r.s)
  }

  predicate AllIntConvertible(ids: seq<RoomId>)
  {
    forall i :: 0 <= i < |ids| ==> IntConvertible(ids[i])
  }

  function AsInt(r: RoomId): int
    requires IntConvertible(r)
  {
    if r.IntId? then r.n else DigitsValue(r.s)
  }

  /** [int(room) for room in room_array] */
  function RoomsAsInt(ids: seq<RoomId>): (r: seq<int>)
    requires AllIntConvertible(ids)
    ensures |r| == |ids| && forall i :: 0 <= i < |ids| ==> r[i] == AsInt(ids[i])
  {
    if ids == [] then [] else RoomsAsInt(ids[..|ids| - 1]) + [AsInt(ids[|ids| - 1])]
  }

  function Elements(s: seq<int>): set<int>
  {
    set x | x in s
  }

  predicate StrictlyIncreasing(s: seq<int>)
  {
    forall i, j :: 0 <= i < j < |s| ==> s[i] < s[j]
  }

  /** x put in its place in an ascending sequence, unless present. */
  function Insert(x: int, s: seq<int>): seq<int>
  {
    if |s| == 0 then [x]
    else if x < s[0] then [x] + s
    else if x == s[0] then s
    else [s[0]] + Insert(x, s[1..])
  }

  /** sorted(set(xs)) */
  function SortedDistinct(xs: seq<int>): seq<int>
  {
    if |xs| == 0 then [] else Insert(xs[|xs| - 1], SortedDistinct(xs[..|xs| - 1]))
  }

  /** Inserting keeps the sequence strictly increasing and adds x to its
      elements. */
  lemma {:induction false} InsertCorrect(x: int, s: seq<int>)
    requires StrictlyIncreasing(s)
    ensures StrictlyIncreasing(Insert(x, s)) && Elements(Insert(x, s)) == Elements(s) + {x}
  {
    if |s| == 0 {
      assert Elements([x]) == {x} by {
        assert x in [x];
      }
    } else if x < s[0] {
      ElementsCons(x, s);
      ConsIncreasing(x, s);
    } else if x == s[0] {
      assert x in s;
    } else {
      var tail := s[1..];
      InsertCorrect(x, tail);
      var rest := Insert(x, tail);
      HeadTail(s);
      ElementsCons(s[0], tail);
      ElementsCons(s[0], rest);
      HeadBelowTail(s);
      BelowWithin(s[0], tail, x, rest);
      ConsIncreasing(s[0], rest);
    }
  }

  /** sorted(set(xs)) is strictly increasing and has the elements of xs. */
  lemma {:induction false} SortedDistinctCorrect(xs: seq<int>)
    ensures StrictlyIncreasing(SortedDistinct(xs)) && Elements(SortedDistinct(xs)) == Elements(xs)
  {
    if |xs| > 0 {
      var init := xs[..|xs| - 1];
      SortedDistinctCorrect(init);
      InsertCorrect(xs[|xs| - 1], SortedDistinct(init));
      InitLast(xs);
      ElementsSnoc(init, xs[|xs| - 1]);
    }
  }

  /** a lies below every element of s. */
  predicate Below(a: int, s: seq<int>)
  {
    forall k :: 0 <= k < |s| ==> a < s[k]
  }

  lemma ElementsCons(a: int, s: seq<int>)
    ensures Elements([a] + s) == {a} + Elements(s)
  {
    assert forall y :: y in [a] + s <==> y == a || y in s;
  }

  lemma ElementsSnoc(s: seq<int>, a: int)
    ensures Elements(s + [a]) == Elements(s) + {a}
  {
    assert forall y :: y in s + [a] <==> y in s || y == a;
  }

  lemma ConsIncreasing(a: int, s: seq<int>)
    requires StrictlyIncreasing(s) && Below(a, s)
    ensures StrictlyIncreasing([a] + s)
  {
  }

  lemma HeadBelowTail(s: seq<int>)
    requires StrictlyIncreasing(s) && s != []
    ensures StrictlyIncreasing(s[1..]) && Below(s[0], s[1..])
  {
  }

  /** A sequence drawn from the elements of s and x lies above a when s
      and x do. */
  lemma BelowWithin(a: int, s: seq<int>, x: int, t: seq<int>)
    requires Below(a, s) && a < x && Elements(t) == Elements(s) + {x}
    ensures Below(a, t)
  {
    forall k | 0 <= k < |t|
      ensures a < t[k]
    {
      assert t[k] in Elements(t);
      if t[k] != x {
        var j :| 0 <= j < |s| && s[j] == t[k];
      }
    }
  }

  // ---------------------------------------------------------------------
  // Items and their expansion

  /** An entry of the written list: a room number or a range "lo-hi". */
  datatype Item = Single(n: int) | Range(lo: int, hi: int)
  {
    function First(): int { if Single? then n else lo }
    function Last(): int { if Single? then n else hi }
    /** A written range covers at least two rooms. */
    predicate WellFormed() { Range? ==> lo < hi }
  }

  /** lo, lo + 1, ..., hi */
  function Span(lo: int, hi: int): (r: seq<int>)
    ensures |r| == if lo <= hi then hi - lo + 1 else 0
    ensures forall k :: 0 <= k < |r| ==> r[k] == lo + k
    decreases hi - lo
  {
    if hi < lo then [] else Span(lo, hi - 1) + [hi]
  }

  /** The rooms an item stands for. */
  function Interval(item: Item): seq<int>
  {
    match item
    case Single(n) => [n]
    case Range(lo, hi) => Span(lo, hi)
  }

  /** The rooms a list of items stands for, in order. */
  function Expand(items: seq<Item>): seq<int>
  {
    if |items| == 0 then [] else Interval(items[0]) + Expand(items[1..])
  }

  /** At least one number is missing between item a and item b. */
  predicate Separated(a: Item, b: Item)
  {
    a.Last() + 1 < b.First()
  }

  /** Maximal runs: every range covers two rooms or more, and between one
      item and the next at least one number is missing. */
  predicate Canonical(items: seq<Item>)
  {
    && (forall i :: 0 <= i < |items| ==> items[i].WellFormed())
    && (forall i :: 0 <= i < |items| - 1 ==> Separated(items[i], items[i + 1]))
  }

  predicate Succ(x: int, y: int)
  {
    y == x + 1
  }

  /** s starts with n consecutive numbers. */
  predicate ConsecutiveRun(s: seq<int>, n: nat)
  {
    n <= |s| && forall k :: 0 <= k < n - 1 ==> Succ(s[k], s[k + 1])
  }

  // ---------------------------------------------------------------------
  // The compressed form as a function

  /** The length of the longest run of consecutive numbers that starts s. */
  function RunLength(s: seq<int>): (n: nat)
    requires s != []
    ensures 1 <= n <= |s| && ConsecutiveRun(s, n)
    ensures n < |s| ==> s[n] != s[n - 1] + 1
  {
    if |s| == 1 || s[1] != s[0] + 1 then 1
    else
      var m := RunLength(s[1..]);
      assert forall k :: 1 <= k < m ==> Succ(s[k], s[k + 1]) by {
        assert forall k :: 1 <= k <= m ==> s[k] == s[1..][k - 1];
      }
      1 + m
  }

  function RunItem(lo: int, hi: int): Item
  {
    if lo == hi then Single(lo) else Range(lo, hi)
  }

  /** The items for a sequence, run by run: each maximal run of
      consecutive numbers becomes one item. */
  function CompressRuns(s: seq<int>): seq<Item>
    decreases |s|
  {
    if s == [] then []
    else
      var n := RunLength(s);
      [RunItem(s[0], s[n - 1])] + CompressRuns(s[n..])
  }

  /** The written list for a room list. */
  function CompressRooms(ids: seq<RoomId>): seq<Item>
    requires AllIntConvertible(ids)
  {
    CompressRuns(SortedDistinct(RoomsAsInt(ids)))
  }

  // ---------------------------------------------------------------------
  // The compressor loop

  /** write_config_to's compressor for one room list (shots.py:212-234):
      int() of every room, the distinct numbers sorted, then the loop. */
  method CompressRoomList(ids: seq<RoomId>) returns (items: seq<Item>)
    requires AllIntConvertible(ids)
    ensures items == CompressRooms(ids)
    ensures Canonical(items) && Expand(items) == SortedDistinct(RoomsAsInt(ids))
  {
    var rooms := SortedDistinct(RoomsAsInt(ids));
    SortedDistinctCorrect(RoomsAsInt(ids));
    items := CompressSorted(rooms);
    CompressRunsCorrect(rooms);
  }

  /** The loop of shots.py:224-234 over the sorted distinct numbers. Each
      number is tested for its neighbours with `in`, as the source does; a
      run's first number is kept in array_beg, which holds no value before
      the first run starts. */
  method CompressSorted(rooms: seq<int>) returns (items: seq<Item>)
    requires StrictlyIncreasing(rooms)
    ensures items == CompressRuns(rooms)
  {
    items := [];
    var arrayBeg: Option<int> := None;
    ghost var runStart := 0;
    LoopStart(rooms);
    for i := 0 to |rooms|
      invariant LoopInv(rooms, items, runStart, i, arrayBeg)
    {
      items, arrayBeg, runStart := Advance(rooms, items, arrayBeg, runStart, i);
    }
    LoopDone(rooms, items, runStart, arrayBeg);
  }

  method Advance(rooms: seq<int>, items: seq<Item>, arrayBeg: Option<int>, ghost runStart: nat, i: nat)
    returns (items': seq<Item>, arrayBeg': Option<int>, ghost runStart': nat)
    requires StrictlyIncreasing(rooms) && i < |rooms| && LoopInv(rooms, items, runStart, i, arrayBeg)
    ensures LoopInv(rooms, items', runStart', i + 1, arrayBeg')
  {
    var disroom := rooms[i];
    if disroom + 1 in rooms {
      if disroom - 1 in rooms {
        StepInsideRun(rooms, items, runStart, i, arrayBeg);
        items', arrayBeg', runStart' := items, arrayBeg, runStart;
      } else {
        StepOpenRun(rooms, items, runStart, i, arrayBeg);
        items', arrayBeg', runStart' := items, Some(disroom), i;
      }
    } else if disroom - 1 in rooms {
      StepCloseRange(rooms, items, runStart, i, arrayBeg);
      items', arrayBeg', runStart' := items + [Range(arrayBeg.value, disroom)], arrayBeg, i + 1;
    } else {
      StepSingle(rooms, items, runStart, i, arrayBeg);
      items', arrayBeg', runStart' := items + [Single(disroom)], arrayBeg, i + 1;
    }
  }

  // ---------------------------------------------------------------------
  // Lemmas about the loop

  /** The state of the loop before number i: the items written so far are
      the compressed form of rooms[..runStart], the run rooms[runStart..i]
      is open (array_beg holds its first number) and continues at i. */
  predicate LoopInv(rooms: seq<int>, items: seq<Item>, runStart: nat, i: nat, arrayBeg: Option<int>)
  {
    && runStart <= i <= |rooms|
    && Canonical(items) && Expand(items) == rooms[..runStart]
    && (0 < runStart < |rooms| ==> rooms[runStart - 1] + 1 < rooms[runStart])
    && (runStart < i ==> i < |rooms| && rooms[i] == rooms[i - 1] + 1)
    && (runStart < i ==> arrayBeg == Some(rooms[runStart]))
    && (forall k :: runStart <= k < i ==> rooms[k] == rooms[runStart] + (k - runStart))
  }

  lemma LoopStart(rooms: seq<int>)
    ensures LoopInv(rooms, [], 0, 0, None)
  {
    assert rooms[..0] == [];
  }

  lemma LoopDone(rooms: seq<int>, items: seq<Item>, runStart: nat, arrayBeg: Option<int>)
    requires LoopInv(rooms, items, runStart, |rooms|, arrayBeg)
    ensures items == CompressRuns(rooms)
  {
    SliceAll(rooms);
    CanonicalIsCompressRuns(items);
  }

  /** Both neighbours present: the run goes on. */
  lemma StepInsideRun(rooms: seq<int>, items: seq<Item>, runStart: nat, i: nat, arrayBeg: Option<int>)
    requires StrictlyIncreasing(rooms) && i < |rooms| && LoopInv(rooms, items, runStart, i, arrayBeg)
    requires rooms[i] + 1 in rooms && rooms[i] - 1 in rooms
    ensures LoopInv(rooms, items, runStart, i + 1, arrayBeg)
  {
    NeighbourTests(rooms, i);
  }

  /** Only the next number present: a run opens at i. */
  lemma StepOpenRun(rooms: seq<int>, items: seq<Item>, runStart: nat, i: nat, arrayBeg: Option<int>)
    requires StrictlyIncreasing(rooms) && i < |rooms| && LoopInv(rooms, items, runStart, i, arrayBeg)
    requires rooms[i] + 1 in rooms && rooms[i] - 1 !in rooms
    ensures LoopInv(rooms, items, i, i + 1, Some(rooms[i]))
  {
    NeighbourTests(rooms, i);
  }

  /** Only the previous number present: the open run closes as a range. */
  lemma StepCloseRange(rooms: seq<int>, items: seq<Item>, runStart: nat, i: nat, arrayBeg: Option<int>)
    requires StrictlyIncreasing(rooms) && i < |rooms| && LoopInv(rooms, items, runStart, i, arrayBeg)
    requires rooms[i] + 1 !in rooms && rooms[i] - 1 in rooms
    ensures arrayBeg.Some?
    ensures LoopInv(rooms, items + [Range(arrayBeg.value, rooms[i])], i + 1, i + 1, arrayBeg)
  {
    NeighbourTests(rooms, i);
    assert runStart < i;
    CloseRun(rooms, items, runStart, i);
    assert RunItem(rooms[runStart], rooms[i]) == Range(arrayBeg.value, rooms[i]);
  }

  /** Neither neighbour present: the number is written on its own. */
  lemma StepSingle(rooms: seq<int>, items: seq<Item>, runStart: nat, i: nat, arrayBeg: Option<int>)
    requires StrictlyIncreasing(rooms) && i < |rooms| && LoopInv(rooms, items, runStart, i, arrayBeg)
    requires rooms[i] + 1 !in rooms && rooms[i] - 1 !in rooms
    ensures LoopInv(rooms, items + [Single(rooms[i])], i + 1, i + 1, arrayBeg)
  {
    NeighbourTests(rooms, i);
    assert runStart == i;
    CloseRun(rooms, items, i, i);
  }

  /** In a strictly increasing sequence, x + 1 is present just when it is
      the next element, and x - 1 just when it is the previous one. */
  lemma NeighbourTests(s: seq<int>, i: nat)
    requires StrictlyIncreasing(s) && i < |s|
    ensures (s[i] + 1 in s) == (i + 1 < |s| && s[i + 1] == s[i] + 1)
    ensures (s[i] - 1 in s) == (i > 0 && s[i - 1] == s[i] - 1)
    ensures i + 1 < |s| ==> s[i] < s[i + 1]
    ensures i > 0 ==> s[i - 1] < s[i]
  {
    if s[i] + 1 in s {
      var j :| 0 <= j < |s| && s[j] == s[i] + 1;
      assert i < j;
      assert s[i] < s[i + 1] <= s[j];
    }
    if s[i] - 1 in s {
      var j :| 0 <= j < |s| && s[j] == s[i] - 1;
      assert j < i;
      assert s[j] <= s[i - 1] < s[i];
    }
  }

  /** Closing the run rooms[lo..hi+1] appends its item to the items for
      rooms[..lo], and the items stay maximal runs. */
  lemma CloseRun(rooms: seq<int>, items: seq<Item>, lo: nat, hi: nat)
    requires lo <= hi < |rooms| && Canonical(items) && Expand(items) == rooms[..lo]
    requires forall k :: lo <= k <= hi ==> rooms[k] == rooms[lo] + (k - lo)
    requires 0 < lo ==> rooms[lo - 1] + 1 < rooms[lo]
    ensures Canonical(items + [RunItem(rooms[lo], rooms[hi])])
    ensures Expand(items + [RunItem(rooms[lo], rooms[hi])]) == rooms[..hi + 1]
  {
    var run := rooms[lo..hi + 1];
    var item := RunItem(rooms[lo], rooms[hi]);
    assert Interval(item) == run && item.WellFormed() && item.First() == rooms[lo] by {
      RunOfRooms(rooms, lo, hi);
      RunIsSpan(run, |run|);
      SliceAll(run);
    }
    assert Expand(items + [item]) == rooms[..hi + 1] by {
      ExpandSnoc(items, item);
      SliceJoin(rooms, lo, hi + 1);
    }
    assert items != [] ==> items[|items| - 1].Last() + 1 < item.First() by {
      if items != [] {
        ExpandLast(items);
        assert rooms[..lo][lo - 1] == rooms[lo - 1];
      }
    }
    CanonicalSnoc(items, item);
  }

  /** The slice rooms[lo..hi+1] of a run, seen as a sequence of its own. */
  lemma RunOfRooms(rooms: seq<int>, lo: nat, hi: nat)
    requires lo <= hi < |rooms|
    requires forall k :: lo <= k <= hi ==> rooms[k] == rooms[lo] + (k - lo)
    ensures var run := rooms[lo..hi + 1];
      && |run| == hi + 1 - lo && run[0] == rooms[lo] && run[|run| - 1] == rooms[hi]
      && ConsecutiveRun(run, |run|)
    ensures 0 < lo ==> rooms[..lo][lo - 1] == rooms[lo - 1]
  {
    var run := rooms[lo..hi + 1];
    forall k | 0 <= k < |run| - 1
      ensures Succ(run[k], run[k + 1])
    {
      assert run[k] == rooms[lo + k] && run[k + 1] == rooms[lo + k + 1];
    }
  }

  // ---------------------------------------------------------------------
  // Sequence identities, kept apart so that their proofs do not meet the
  // definitions above

  lemma SplitAt<T>(s: seq<T>, n: nat)
    requires n <= |s|
    ensures s == s[..n] + s[n..]
  {
  }

  lemma SliceJoin<T>(s: seq<T>, lo: nat, hi: nat)
    requires lo <= hi <= |s|
    ensures s[..hi] == s[..lo] + s[lo..hi]
  {
  }

  lemma SliceAll<T>(s: seq<T>)
    ensures s[..|s|] == s
  {
  }

  lemma HeadTail<T>(s: seq<T>)
    requires s != []
    ensures s == [s[0]] + s[1..]
  {
  }

  lemma InitLast<T>(s: seq<T>)
    requires s != []
    ensures s == s[..|s| - 1] + [s[|s| - 1]]
  {
  }

  lemma TailOfAppend<T>(a: seq<T>, b: seq<T>)
    requires a != []
    ensures (a + b)[0] == a[0] && (a + b)[1..] == a[1..] + b
  {
  }

  lemma Assoc<T>(a: seq<T>, b: seq<T>, c: seq<T>)
    ensures (a + b) + c == a + (b + c)
  {
  }

  // ---------------------------------------------------------------------
  // Lemmas about Expand and Canonical

  lemma {:induction false} ExpandAppend(a: seq<Item>, b: seq<Item>)
    ensures Expand(a + b) == Expand(a) + Expand(b)
  {
    if |a| == 0 {
      assert a == [];
      assert a + b == b;
    } else {
      var head, tail := a[0], a[1..];
      calc {
        Expand(a + b);
        { TailOfAppend(a, b); }
        Interval(head) + Expand(tail + b);
        { ExpandAppend(tail, b); }
        Interval(head) + (Expand(tail) + Expand(b));
        { Assoc(Interval(head), Expand(tail), Expand(b)); }
        (Interval(head) + Expand(tail)) + Expand(b);
        Expand(a) + Expand(b);
      }
    }
  }

  lemma ExpandSnoc(items: seq<Item>, item: Item)
    ensures Expand(items + [item]) == Expand(items) + Interval(item)
  {
    ExpandAppend(items, [item]);
    TailOfAppend([item], []);
    assert [item] + [] == [item];
    assert Interval(item) + [] == Interval(item);
  }

  lemma ExpandCons(item: Item, rest: seq<Item>)
    ensures Expand([item] + rest) == Interval(item) + Expand(rest)
  {
    TailOfAppend([item], rest);
  }

  /** Facts about the rooms of a single well-formed item. */
  lemma IntervalFacts(item: Item)
    requires item.WellFormed()
    ensures |Interval(item)| >= 1
    ensures forall k :: 0 <= k < |Interval(item)| ==> Interval(item)[k] == item.First() + k
    ensures Interval(item)[|Interval(item)| - 1] == item.Last()
    ensures RunItem(item.First(), item.Last()) == item
  {
  }

  /** The first number of a list of items is its first item's first. */
  lemma ExpandHead(items: seq<Item>)
    requires items != [] && items[0].WellFormed()
    ensures Expand(items) != [] && Expand(items)[0] == items[0].First()
  {
    IntervalFacts(items[0]);
  }

  /** The last number of a list of items is its last item's last. */
  lemma ExpandLast(items: seq<Item>)
    requires items != [] && items[|items| - 1].WellFormed()
    ensures Expand(items) != [] && Expand(items)[|Expand(items)| - 1] == items[|items| - 1].Last()
  {
    var init, last := items[..|items| - 1], items[|items| - 1];
    InitLast(items);
    ExpandSnoc(init, last);
    IntervalFacts(last);
  }

  lemma CanonicalTail(items: seq<Item>)
    requires Canonical(items) && items != []
    ensures Canonical(items[1..])
  {
    var rest := items[1..];
    assert forall i :: 0 <= i < |rest| ==> rest[i] == items[i + 1];
  }

  lemma CanonicalSnoc(items: seq<Item>, item: Item)
    requires Canonical(items) && item.WellFormed()
    requires items != [] ==> items[|items| - 1].Last() + 1 < item.First()
    ensures Canonical(items + [item])
  {
    var r := items + [item];
    assert forall i :: 0 <= i < |items| ==> r[i] == items[i];
  }

  lemma CanonicalCons(item: Item, rest: seq<Item>)
    requires Canonical(rest) && item.WellFormed()
    requires rest != [] ==> item.Last() + 1 < rest[0].First()
    ensures Canonical([item] + rest)
  {
    var r := [item] + rest;
    assert forall i :: 0 < i < |r| ==> r[i] == rest[i - 1];
  }

  /** A run of n consecutive numbers at the start of s is the span from its
      first to its last. */
  lemma RunIsSpan(s: seq<int>, n: nat)
    requires 1 <= n && ConsecutiveRun(s, n)
    ensures s[n - 1] == s[0] + n - 1
    ensures Interval(RunItem(s[0], s[n - 1])) == s[..n]
  {
    RunValues(s, n);
    var span := Interval(RunItem(s[0], s[n - 1]));
    assert |span| == n;
  }

  lemma {:induction false} RunValues(s: seq<int>, n: nat)
    requires 1 <= n && ConsecutiveRun(s, n)
    ensures forall k :: 0 <= k < n ==> s[k] == s[0] + k
  {
    if n > 1 {
      RunValues(s, n - 1);
      assert Succ(s[n - 2], s[n - 1]);
    }
  }

  /** For a strictly increasing sequence, CompressRuns gives canonical
      items that expand back to the sequence. */
  lemma {:induction false} CompressRunsCorrect(s: seq<int>)
    requires StrictlyIncreasing(s)
    ensures Canonical(CompressRuns(s)) && Expand(CompressRuns(s)) == s
    decreases |s|
  {
    if s != [] {
      var n := RunLength(s);
      var rest := CompressRuns(s[n..]);
      CompressRunsCorrect(s[n..]);
      RunThenRestExpand(s, n, rest);
      RunThenRestCanonical(s, n, rest);
    }
  }

  /** The first step of CompressRuns covers the run at the start of s. */
  lemma RunThenRestExpand(s: seq<int>, n: nat, rest: seq<Item>)
    requires 1 <= n && ConsecutiveRun(s, n) && Expand(rest) == s[n..]
    ensures Expand([RunItem(s[0], s[n - 1])] + rest) == s
  {
    RunIsSpan(s, n);
    ExpandCons(RunItem(s[0], s[n - 1]), rest);
    SplitAt(s, n);
  }

  /** The first step of CompressRuns keeps the items canonical. */
  lemma RunThenRestCanonical(s: seq<int>, n: nat, rest: seq<Item>)
    requires StrictlyIncreasing(s) && s != [] && n == RunLength(s)
    requires Canonical(rest) && Expand(rest) == s[n..]
    ensures Canonical([RunItem(s[0], s[n - 1])] + rest)
  {
    RunValues(s, n);
    if rest != [] {
      ExpandHead(rest);
      assert s[n - 1] < s[n];
    }
    CanonicalCons(RunItem(s[0], s[n - 1]), rest);
  }

  /** Canonical items expand to a strictly increasing sequence that starts
      at the first item's first number. */
  lemma {:induction false} CanonicalIncreasing(items: seq<Item>)
    requires Canonical(items)
    ensures StrictlyIncreasing(Expand(items))
    ensures items != [] ==> Expand(items) != [] && Expand(items)[0] == items[0].First()
  {
    if items != [] {
      var item, rest := items[0], items[1..];
      CanonicalTail(items);
      CanonicalIncreasing(rest);
      IntervalFacts(item);
      var a, b := Interval(item), Expand(rest);
      if rest != [] {
        assert Separated(items[0], items[1]);
        forall i, j | 0 <= i < |a| && 0 <= j < |b|
          ensures a[i] < b[j]
        {
          assert b[0] <= b[j];
        }
      }
      ConcatIncreasing(a, b);
    }
  }

  lemma ConcatIncreasing(a: seq<int>, b: seq<int>)
    requires StrictlyIncreasing(a) && StrictlyIncreasing(b)
    requires forall i, j :: 0 <= i < |a| && 0 <= j < |b| ==> a[i] < b[j]
    ensures StrictlyIncreasing(a + b)
  {
  }

  /** The run at the start of a canonical list's expansion is exactly its
      first item. */
  lemma HeadRun(items: seq<Item>)
    requires Canonical(items) && items != []
    ensures var s := Expand(items);
      && |Interval(items[0])| >= 1
      && RunLength(s) == |Interval(items[0])|
      && RunItem(s[0], s[|Interval(items[0])| - 1]) == items[0]
      && s[|Interval(items[0])|..] == Expand(items[1..])
  {
    var item, rest := items[0], items[1..];
    IntervalFacts(item);
    var s := Expand(items);
    var m := |Interval(item)|;
    assert s == Interval(item) + Expand(rest);
    assert forall k :: 0 <= k < m ==> s[k] == s[0] + k;
    assert s[m - 1] == item.Last();
    if rest != [] {
      assert rest[0] == items[1] && items[1].WellFormed();
      assert Separated(items[0], items[1]);
      ExpandHead(rest);
      assert s[m] == rest[0].First();
    }
    RunLengthOf(s, m);
  }

  /** When s starts with m consecutive numbers and the next one is further
      away, the run at its start has length m. */
  lemma {:induction false} RunLengthOf(s: seq<int>, m: nat)
    requires 1 <= m <= |s| && forall k :: 0 <= k < m ==> s[k] == s[0] + k
    requires m < |s| ==> s[m] != s[m - 1] + 1
    ensures RunLength(s) == m
    decreases m
  {
    if m > 1 {
      assert s[1] == s[0] + 1;
      RunLengthOf(s[1..], m - 1);
    }
  }

  /** The canonical form is unique: canonical items are what CompressRuns
      gives for their expansion. */
  lemma {:induction false} CanonicalIsCompressRuns(items: seq<Item>)
    requires Canonical(items)
    ensures StrictlyIncreasing(Expand(items)) && items == CompressRuns(Expand(items))
    decreases |items|
  {
    CanonicalIncreasing(items);
    if items != [] {
      var s := Expand(items);
      CanonicalTail(items);
      CanonicalIsCompressRuns(items[1..]);
      HeadRun(items);
      var m := |Interval(items[0])|;
      HeadTail(items);
    }
  }

  // ---------------------------------------------------------------------
  // Lemmas about the sort

  /** Two strictly increasing sequences with the same elements are equal. */
  lemma {:induction false} SortedUnique(a: seq<int>, b: seq<int>)
    requires StrictlyIncreasing(a) && StrictlyIncreasing(b) && Elements(a) == Elements(b)
    ensures a == b
    decreases |a|
  {
    assert a != [] ==> a[0] in Elements(b);
    assert b != [] ==> b[0] in Elements(a);
    if a != [] && b != [] {
      assert a[0] == b[0] by {
        var i :| 0 <= i < |b| && b[i] == a[0];
        var j :| 0 <= j < |a| && a[j] == b[0];
        assert b[0] <= b[i] && a[0] <= a[j];
      }
      assert Elements(a[1..]) == Elements(a) - {a[0]} by {
        assert a == [a[0]] + a[1..];
        assert a[0] !in a[1..];
      }
      assert Elements(b[1..]) == Elements(b) - {b[0]} by {
        assert b == [b[0]] + b[1..];
        assert b[0] !in b[1..];
      }
      SortedUnique(a[1..], b[1..]);
      assert a == [a[0]] + a[1..] && b == [b[0]] + b[1..];
    }
  }

  // ---------------------------------------------------------------------
  // Properties of the written list

  /** The written list depends only on the set of room numbers: order and
      duplicates in the room list make no difference. */
  lemma CompressDependsOnlyOnSet(a: seq<RoomId>, b: seq<RoomId>)
    requires AllIntConvertible(a) && AllIntConvertible(b)
    requires Elements(RoomsAsInt(a)) == Elements(RoomsAsInt(b))
    ensures CompressRooms(a) == CompressRooms(b)
  {
    SortedDistinctCorrect(RoomsAsInt(a));
    SortedDistinctCorrect(RoomsAsInt(b));
    SortedUnique(SortedDistinct(RoomsAsInt(a)), SortedDistinct(RoomsAsInt(b)));
  }

  /** Expanding the written list gives back exactly the room numbers, each
      once, in ascending order. */
  lemma CompressRoundTrip(ids: seq<RoomId>)
    requires AllIntConvertible(ids)
    ensures StrictlyIncreasing(Expand(CompressRooms(ids)))
    ensures Elements(Expand(CompressRooms(ids))) == Elements(RoomsAsInt(ids))
  {
    SortedDistinctCorrect(RoomsAsInt(ids));
    CompressRunsCorrect(SortedDistinct(RoomsAsInt(ids)));
  }

  /** Compressing the expansion of a written list gives that list again. */
  lemma CompressExpandRoundTrip(items: seq<Item>)
    requires Canonical(items)
    ensures StrictlyIncreasing(Expand(items)) && CompressRuns(Expand(items)) == items
  {
    CanonicalIsCompressRuns(items);
  }

  /** 101, "102", 103, 105 and 101 again give the range 101-103 and 105. */
  lemma CompressExample()
    ensures CompressRooms([IntId(101), StrId("102"), IntId(103), IntId(105), IntId(101)])
         == [Range(101, 103), Single(105)]
  {
    var ids := [IntId(101), StrId("102"), IntId(103), IntId(105), IntId(101)];
    assert DigitsValue("102") == 102 by {
      assert "102"[..2] == "10" && "10"[..1] == "1" && "1"[..0] == [];
    }
    assert AllIntConvertible(ids);
    var ints := RoomsAsInt(ids);
    assert ints == [101, 102, 103, 105, 101];
    assert Elements(ints) == Elements([101, 102, 103, 105]);
    var items := [Range(101, 103), Single(105)];
    assert Canonical(items) by {
      assert Separated(items[0], items[1]);
    }
    assert Expand(items) == [101, 102, 103, 105] by {
      assert items[1..] == [Single(105)] && [Single(105)][1..] == [];
      assert Span(101, 103) == [101, 102, 103];
    }
    SortedDistinctCorrect(ints);
    SortedUnique(SortedDistinct(ints), [101, 102, 103, 105]);
    CanonicalIsCompressRuns(items);
  }
}
