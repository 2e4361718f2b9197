/** The scripted runs of the list experiments, replayed against the list and
    cursor classes: walking a cursor to the end, adding a batch of strings,
    removing every other element, overwriting every element, the probe that
    the dummy node is never handed out, and the two-cursor fail-fast probe.
    The printing is left out; each run states what it would print as a
    postcondition. */
module ListExperiments {
  import opened NodeRing
  import opened CursorSpec
  import opened SimpleCDLL

  /** The cursor is usable: valid, within the 2^32 window, and in sync. */
  ghost predicate Live<T>(c: Cursor<T>)
    reads c, c.list
  {
    c.Valid() && c.Tracked() && InSync(c.list.View(), c.View())
  }

  /** `toEnd(lit)`: `next` until `hasNext` says no. The list is untouched
      and the gap ends after the last element. */
  method ToEnd<T>(c: Cursor<T>)
    requires Live(c)
    modifies c
    ensures Live(c) && c.list.View() == old(c.list.View())
    ensures c.pos == c.list.size && c.next == Dummy
  {
    var more := c.HasNext();
    while more == Ok(true)
      invariant Live(c) && c.list.View() == old(c.list.View())
      invariant more.Ok? && (more.value <==> c.pos < c.list.size)
      decreases c.list.size - c.pos
    {
      var _ := c.Next();
      more := c.HasNext();
    }
  }

  /** `testDummy`: a new cursor has nothing behind it, and once walked to
      the end nothing ahead of it; its boundaries there are the dummy, so
      the dummy's missing value is never returned. */
  method TestDummy<T>(l: CDLL<T>) returns (atStart: Outcome<bool>, atEnd: Outcome<bool>)
    requires l.Valid()
    ensures atStart == Ok(false) && atEnd == Ok(false)
  {
    var c := l.ListIterator();
    atStart := c.HasPrevious();
    ToEnd(c);
    atEnd := c.HasNext();
  }

  /** `addStrings`, and the `add` loop of `addExpt`, on the views: each
      value goes in at the gap and the gap moves past it, so the batch
      lands in order at the cursor's position. */
  method AddAll<T>(l: ListView<T>, c: CursorView, vals: seq<T>) returns (l2: ListView<T>, c2: CursorView)
    requires Consistent(l, c) && InSync(l, c)
    ensures Consistent(l2, c2) && InSync(l2, c2)
    ensures l2.elems == l.elems[..c.pos] + vals + l.elems[c.pos..]
    ensures c2.pos == c.pos + |vals| && l2.changes == l.changes + |vals|
  {
    l2, c2 := l, c;
    for i := 0 to |vals|
      invariant Consistent(l2, c2) && InSync(l2, c2)
      invariant l2.elems == l.elems[..c.pos] + vals[..i] + l.elems[c.pos..]
      invariant c2.pos == c.pos + i && l2.changes == l.changes + i
    {
      AddsInBatch(l2, c2, l.elems, c.pos, vals, i);
      var a := Add(l2, c2, vals[i]);
      l2, c2 := a.list, a.cursor;
    }
    assert vals[..|vals|] == vals;
  }

  /** One step of `AddAll`: with the first `i` values of the batch already
      in at index `p`, `add` puts the next one behind them. */
  lemma AddsInBatch<T>(l: ListView<T>, c: CursorView, s: seq<T>, p: nat, vals: seq<T>, i: nat)
    requires Consistent(l, c) && InSync(l, c) && i < |vals| && p <= |s|
    requires l.elems == s[..p] + vals[..i] + s[p..] && c.pos == p + i
    ensures var a := CursorSpec.Add(l, c, vals[i]);
            a.result.Ok? && InSync(a.list, a.cursor) &&
            a.list.elems == s[..p] + vals[..i + 1] + s[p..] &&
            a.cursor.pos == p + i + 1 && a.list.changes == l.changes + 1
  {
    var e := l.elems;
    assert e[..p + i] == s[..p] + vals[..i];
    assert e[p + i..] == s[p..];
    assert vals[..i + 1] == vals[..i] + [vals[i]];
  }

  // ---------------------------------------------------------------------
  // Removing every other element, moving forward

  /** What is left of the first `n` elements of `s` when every other one,
      starting with the first, is removed: those at odd indices. */
  function Survivors<T>(s: seq<T>, n: nat): seq<T>
    requires n <= |s|
  {
    if n == 0 then []
    else if (n - 1) % 2 == 1 then Survivors(s, n - 1) + [s[n - 1]]
    else Survivors(s, n - 1)
  }

  /** The survivors are exactly the elements at odd indices, in order. */
  lemma {:induction false} SurvivorsAreOddIndexed<T>(s: seq<T>, n: nat)
    requires n <= |s|
    ensures |Survivors(s, n)| == n / 2
    ensures forall k :: 0 <= k < n / 2 ==> Survivors(s, n)[k] == s[2 * k + 1]
  {
    if n > 0 {
      SurvivorsAreOddIndexed(s, n - 1);
      if (n - 1) % 2 == 1 {
        assert n / 2 == (n - 1) / 2 + 1 && n - 1 == 2 * ((n - 1) / 2) + 1;
      } else {
        assert n / 2 == (n - 1) / 2;
      }
    }
  }

  /** One round of `removeForwardExpt` with the alternating predicate, with
      the first `count` elements already read: the `count`-th element is
      read by `next` and removed exactly when `count` is even. */
  lemma AlternateStep<T>(l: ListView<T>, c: CursorView, s: seq<T>, count: nat, count': nat)
    requires Consistent(l, c) && InSync(l, c) && count < |s| && count' == count + 1
    requires l.elems == Survivors(s, count) + s[count..] && c.pos == |Survivors(s, count)|
    ensures var n := Next(l, c);
            n.result == Ok(s[count]) &&
            (count % 2 == 0 ==>
               var r := Remove(n.list, n.cursor);
               r.result.Ok? && InSync(r.list, r.cursor) &&
               r.list.elems == Survivors(s, count') + s[count'..] &&
               r.cursor.pos == |Survivors(s, count')|) &&
            (count % 2 != 0 ==>
               n.list.elems == Survivors(s, count') + s[count'..] &&
               n.cursor.pos == |Survivors(s, count')|)
  {
    var kept := Survivors(s, count);
    assert s[count..] == [s[count]] + s[count + 1..];
    var n := Next(l, c);
    if count % 2 == 0 {
      assert Survivors(s, count') == kept;
      var r := Remove(n.list, n.cursor);
      assert r.list.elems == n.list.elems[..c.pos] + n.list.elems[c.pos + 1..];
      assert n.list.elems[..c.pos] == kept;
      assert n.list.elems[c.pos + 1..] == s[count + 1..];
    } else {
      assert Survivors(s, count') == kept + [s[count]];
    }
  }

  /** `removeForwardExpt` with the predicate of `removeExpt`: a counter
      that starts at 0 and is read with `val++` by each test, so the
      elements read first, third, fifth and so on are removed. */
  method RemoveAlternate<T>(l: ListView<T>, c: CursorView) returns (l2: ListView<T>, c2: CursorView)
    requires Consistent(l, c) && InSync(l, c) && c.pos == 0
    ensures Consistent(l2, c2) && InSync(l2, c2)
    ensures l2.elems == Survivors(l.elems, |l.elems|) && c2.pos == |l2.elems|
  {
    ghost var s := l.elems;
    var counter := 0;
    l2, c2 := l, c;
    var more := HasNext(l2, c2);
    while more == Ok(true)
      invariant Consistent(l2, c2) && InSync(l2, c2) && counter <= |s|
      invariant l2.elems == Survivors(s, counter) + s[counter..]
      invariant c2.pos == |Survivors(s, counter)|
      invariant more == Ok(counter < |s|)
      decreases |s| - counter
    {
      ghost var (l1, c1) := (l2, c2);
      var n := Next(l2, c2);
      l2, c2 := n.list, n.cursor;
      var get := counter;
      counter := counter + 1;
      AlternateStep(l1, c1, s, get, counter);
      if get % 2 == 0 {
        var r := Remove(l2, c2);
        l2, c2 := r.list, r.cursor;
      }
      more := HasNext(l2, c2);
    }
  }

  /** `removeExpt`: "A" to "G" added to a new list through one cursor,
      then every other element removed through a second one, leaves B, D
      and F. */
  method RemoveExpt() returns (l: ListView<string>)
    ensures l.elems == ["B", "D", "F"]
  {
    var l0 := Empty<string>();
    var l1, c1 := AddAll(l0, Open(l0), ["A", "B", "C", "D", "E", "F", "G"]);
    var c2;
    l, c2 := RemoveAlternate(l1, Open(l1));
    SurvivorsAreOddIndexed(l1.elems, 7);
  }

  // ---------------------------------------------------------------------
  // Overwriting every element

  /** `setFwdExpt`: from the front, `next` then `set` on every element.
      Every element ends up `v`, the list is not structurally changed, and
      the cursor stays in sync at the end. */
  method SetForward<T>(l: ListView<T>, c: CursorView, v: T) returns (l2: ListView<T>, c2: CursorView)
    requires Consistent(l, c) && InSync(l, c) && c.pos == 0
    ensures Consistent(l2, c2) && InSync(l2, c2) && l2.changes == l.changes
    ensures |l2.elems| == |l.elems| && c2.pos == |l.elems|
    ensures forall i :: 0 <= i < |l2.elems| ==> l2.elems[i] == v
  {
    l2, c2 := l, c;
    var more := HasNext(l2, c2);
    while more == Ok(true)
      invariant Consistent(l2, c2) && InSync(l2, c2) && l2.changes == l.changes
      invariant |l2.elems| == |l.elems| && c2.pos <= |l.elems|
      invariant forall i :: 0 <= i < c2.pos ==> l2.elems[i] == v
      invariant more == Ok(c2.pos < |l.elems|)
      decreases |l.elems| - c2.pos
    {
      var n := Next(l2, c2);
      l2, c2 := n.list, n.cursor;
      var w := Set(l2, c2, v);
      l2, c2 := w.list, w.cursor;
      more := HasNext(l2, c2);
    }
  }

  /** `setBkwdExpt` after its `toEnd`: from the back, `previous` then `set`
      on every element. `ToEnd` leaves the cursor in sync at the end of the
      list, which is all this needs of it. */
  method SetBackward<T>(l: ListView<T>, c: CursorView, v: T) returns (l2: ListView<T>, c2: CursorView)
    requires Consistent(l, c) && InSync(l, c) && c.pos == |l.elems|
    ensures Consistent(l2, c2) && InSync(l2, c2) && l2.changes == l.changes
    ensures |l2.elems| == |l.elems| && c2.pos == 0
    ensures forall i :: 0 <= i < |l2.elems| ==> l2.elems[i] == v
  {
    l2, c2 := l, c;
    var more := HasPrevious(l2, c2);
    while more == Ok(true)
      invariant Consistent(l2, c2) && InSync(l2, c2) && l2.changes == l.changes
      invariant |l2.elems| == |l.elems| && c2.pos <= |l.elems|
      invariant forall i :: c2.pos <= i < |l.elems| ==> l2.elems[i] == v
      invariant more == Ok(0 < c2.pos)
      decreases c2.pos
    {
      var p := Previous(l2, c2);
      l2, c2 := p.list, p.cursor;
      var w := Set(l2, c2, v);
      l2, c2 := w.list, w.cursor;
      more := HasPrevious(l2, c2);
    }
  }

  /** The `set` experiments as run on the five words: every word becomes
      "0" going forward, then "1" coming back. */
  method SetExpt() returns (forward: ListView<string>, backward: ListView<string>)
    ensures forward.elems == ["0", "0", "0", "0", "0"]
    ensures backward.elems == ["1", "1", "1", "1", "1"]
  {
    var l0 := Empty<string>();
    var l1, c1 := AddAll(l0, Open(l0), ["alpha", "bravo", "charlie", "delta", "echo"]);
    var c2, c3;
    forward, c2 := SetForward(l1, Open(l1), "0");
    backward, c3 := SetBackward(forward, c2, "1");
  }

  // ---------------------------------------------------------------------
  // Two cursors

  /** `failFastExpt`: two cursors opened on the same list; an `add` through
      the first succeeds, and the same `add` through the second then fails
      fast instead of touching the list. */
  method FailFastExpt<T>(l: CDLL<T>, v: T) returns (first: Outcome<()>, second: Outcome<()>)
    requires l.Valid()
    modifies l
    ensures first == Ok(()) && second == ConcurrentModification
    ensures l.Valid() && l.View() == Inserted(old(l.View()), 0, v)
  {
    var it1 := l.ListIterator();
    var it2 := l.ListIterator();
    label Opened:
    first := it1.Add(v);
    OtherCursorGoesStale@Opened(it2);
    second := it2.Add(v);
  }
}
