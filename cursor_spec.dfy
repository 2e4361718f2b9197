/** The list and its fail-fast list iterator, seen from outside: the list is
    the sequence of its values plus a count of structural changes, and a
    cursor is a gap position, the side of the gap that `set` and `remove`
    act on, and the change count it last saw. Every cursor operation is a
    function from the two views to a `Step`; the classes in module
    SimpleCDLL are proved to implement exactly these functions. */
module CursorSpec {

  /** The Java exceptions of the iterator become error outcomes. */
  datatype Outcome<+R> =
    | Ok(value: R)
    | ConcurrentModification
    | NoSuchElement
    | IllegalState

  /** The node eligible for `set` and `remove` (`update` in the source):
      none, the node just behind the gap (after `next`), or the node just
      ahead of it (after `previous`). */
  datatype Mark = NoUpdate | Behind | Ahead

  /** `changes` is the number of structural changes so far; the Java field
      `numChanges` is its 32-bit truncation (module JavaInt). */
  datatype ListView<T> = ListView(elems: seq<T>, changes: nat)

  /** `seen` is the change count the cursor last synchronised with. */
  datatype CursorView = CursorView(pos: nat, mark: Mark, seen: nat)

  datatype Step<T, R> = Step(result: Outcome<R>, list: ListView<T>, cursor: CursorView)

  /** No structural change happened since the cursor last synchronised. */
  predicate InSync<T>(l: ListView<T>, c: CursorView) {
    c.seen == l.changes
  }

  /** What every cursor of the list satisfies: it never saw a future count,
      and while in sync its gap lies inside the list and its mark names an
      element that exists. */
  predicate Consistent<T>(l: ListView<T>, c: CursorView) {
    c.seen <= l.changes &&
    (InSync(l, c) ==>
       c.pos <= |l.elems| &&
       (c.mark == Behind ==> 0 < c.pos) &&
       (c.mark == Ahead ==> c.pos < |l.elems|))
  }

  /** Index of the element that `set` and `remove` act on. */
  function Target(c: CursorView): nat
    requires c.mark != NoUpdate && (c.mark == Behind ==> 0 < c.pos)
  {
    if c.mark == Behind then c.pos - 1 else c.pos
  }

  /** A new list. */
  function Empty<T>(): ListView<T> {
    ListView([], 0)
  }

  /** `listIterator()`: a cursor before the first element, synchronised with
      the list. */
  function Open<T>(l: ListView<T>): (c: CursorView)
    ensures Consistent(l, c) && InSync(l, c)
  {
    CursorView(0, NoUpdate, l.changes)
  }

  function HasNext<T>(l: ListView<T>, c: CursorView): (r: Outcome<bool>)
    requires Consistent(l, c)
    ensures r.Ok? <==> InSync(l, c)
    ensures !r.Ok? ==> r == ConcurrentModification
    ensures r.Ok? ==> (r.value <==> Next(l, c).result.Ok?)
  {
    if !InSync(l, c) then ConcurrentModification else Ok(c.pos < |l.elems|)
  }

  function HasPrevious<T>(l: ListView<T>, c: CursorView): (r: Outcome<bool>)
    requires Consistent(l, c)
    ensures r.Ok? <==> InSync(l, c)
    ensures !r.Ok? ==> r == ConcurrentModification
    ensures r.Ok? ==> (r.value <==> Previous(l, c).result.Ok?)
  {
    if !InSync(l, c) then ConcurrentModification else Ok(c.pos > 0)
  }

  function NextIndex<T>(l: ListView<T>, c: CursorView): (r: Outcome<int>)
    requires Consistent(l, c)
    ensures r.Ok? <==> InSync(l, c)
    ensures !r.Ok? ==> r == ConcurrentModification
    ensures r.Ok? ==> 0 <= r.value <= |l.elems|
  {
    if !InSync(l, c) then ConcurrentModification else Ok(c.pos)
  }

  function PreviousIndex<T>(l: ListView<T>, c: CursorView): (r: Outcome<int>)
    requires Consistent(l, c)
    ensures r == ConcurrentModification <==> !InSync(l, c)
    ensures r.Ok? <==> HasPrevious(l, c) == Ok(true)
    ensures r.Ok? ==> r.value + 1 == NextIndex(l, c).value && 0 <= r.value < |l.elems|
    ensures !r.Ok? ==> r == ConcurrentModification || r == NoSuchElement
  {
    if !InSync(l, c) then ConcurrentModification
    else if c.pos == 0 then NoSuchElement
    else Ok(c.pos - 1)
  }

  /** `next()`: returns the element ahead of the gap and moves past it. */
  function Next<T>(l: ListView<T>, c: CursorView): (r: Step<T, T>)
    requires Consistent(l, c)
    ensures Consistent(r.list, r.cursor)
    ensures r.list == l && r.cursor.seen == c.seen
    ensures r.result == ConcurrentModification <==> !InSync(l, c)
    ensures !r.result.Ok? ==> r.cursor == c
    ensures r.result.Ok? ==>
              r.cursor.mark == Behind && Target(r.cursor) == c.pos &&
              r.result.value == l.elems[Target(r.cursor)]
  {
    if !InSync(l, c) then Step(ConcurrentModification, l, c)
    else if c.pos >= |l.elems| then Step(NoSuchElement, l, c)
    else Step(Ok(l.elems[c.pos]), l, c.(pos := c.pos + 1, mark := Behind))
  }

  /** `previous()`: returns the element behind the gap and moves before it. */
  function Previous<T>(l: ListView<T>, c: CursorView): (r: Step<T, T>)
    requires Consistent(l, c)
    ensures Consistent(r.list, r.cursor)
    ensures r.list == l && r.cursor.seen == c.seen
    ensures r.result == ConcurrentModification <==> !InSync(l, c)
    ensures !r.result.Ok? ==> r.cursor == c
    ensures r.result.Ok? ==>
              r.cursor.mark == Ahead && Target(r.cursor) == c.pos - 1 &&
              r.result.value == l.elems[Target(r.cursor)]
  {
    if !InSync(l, c) then Step(ConcurrentModification, l, c)
    else if c.pos == 0 then Step(NoSuchElement, l, c)
    else Step(Ok(l.elems[c.pos - 1]), l, c.(pos := c.pos - 1, mark := Ahead))
  }

  /** The list with `v` inserted at index `i`, one structural change
      later: the elements before `i` stay, the rest move up by one. */
  function Inserted<T>(l: ListView<T>, i: nat, v: T): (r: ListView<T>)
    requires i <= |l.elems|
    ensures |r.elems| == |l.elems| + 1 && r.elems[i] == v && r.changes == l.changes + 1
    ensures forall j :: 0 <= j < i ==> r.elems[j] == l.elems[j]
    ensures forall j :: i < j < |r.elems| ==> r.elems[j] == l.elems[j - 1]
  {
    ListView(l.elems[..i] + [v] + l.elems[i..], l.changes + 1)
  }

  /** The list without its element at index `i`, one structural change
      later: the elements before `i` stay, the rest move down by one. */
  function Deleted<T>(l: ListView<T>, i: nat): (r: ListView<T>)
    requires i < |l.elems|
    ensures |r.elems| + 1 == |l.elems| && r.changes == l.changes + 1
    ensures forall j :: 0 <= j < i ==> r.elems[j] == l.elems[j]
    ensures forall j :: i <= j < |r.elems| ==> r.elems[j] == l.elems[j + 1]
  {
    ListView(l.elems[..i] + l.elems[i + 1..], l.changes + 1)
  }

  /** `add(v)`: inserts `v` in the gap, behind the cursor; a structural
      change that this cursor follows and every other cursor misses. */
  function Add<T>(l: ListView<T>, c: CursorView, v: T): (r: Step<T, ()>)
    requires Consistent(l, c)
    ensures Consistent(r.list, r.cursor)
    ensures r.result.Ok? <==> InSync(l, c)
    ensures !r.result.Ok? ==> r == Step(ConcurrentModification, l, c)
    ensures r.result.Ok? ==>
              InSync(r.list, r.cursor) && r.list.changes == l.changes + 1 &&
              |r.list.elems| == |l.elems| + 1 && r.cursor.mark == NoUpdate
  {
    if !InSync(l, c) then Step(ConcurrentModification, l, c)
    else
      Step(Ok(()), Inserted(l, c.pos, v), CursorView(c.pos + 1, NoUpdate, l.changes + 1))
  }

  /** `remove()`: deletes the element last passed by `next` or `previous`. */
  function Remove<T>(l: ListView<T>, c: CursorView): (r: Step<T, ()>)
    requires Consistent(l, c)
    ensures Consistent(r.list, r.cursor)
    ensures r.result.Ok? <==> InSync(l, c) && c.mark != NoUpdate
    ensures r.result == ConcurrentModification <==> !InSync(l, c)
    ensures !r.result.Ok? ==> r.list == l && r.cursor == c
    ensures r.result.Ok? ==>
              InSync(r.list, r.cursor) && r.list.changes == l.changes + 1 &&
              |r.list.elems| + 1 == |l.elems| && r.cursor.mark == NoUpdate &&
              r.cursor.pos == Target(c)
  {
    if !InSync(l, c) then Step(ConcurrentModification, l, c)
    else if c.mark == NoUpdate then Step(IllegalState, l, c)
    else
      Step(Ok(()), Deleted(l, Target(c)), CursorView(Target(c), NoUpdate, l.changes + 1))
  }

  /** `set(v)`: overwrites the element last passed; not a structural change. */
  function Set<T>(l: ListView<T>, c: CursorView, v: T): (r: Step<T, ()>)
    requires Consistent(l, c)
    ensures Consistent(r.list, r.cursor)
    ensures r.result.Ok? <==> InSync(l, c) && c.mark != NoUpdate
    ensures r.result == ConcurrentModification <==> !InSync(l, c)
    ensures r.cursor == c && r.list.changes == l.changes && |r.list.elems| == |l.elems|
    ensures !r.result.Ok? ==> r.list == l
    ensures r.result.Ok? ==>
              r.list.elems[Target(c)] == v &&
              forall i :: 0 <= i < |l.elems| && i != Target(c) ==> r.list.elems[i] == l.elems[i]
  {
    if !InSync(l, c) then Step(ConcurrentModification, l, c)
    else if c.mark == NoUpdate then Step(IllegalState, l, c)
    else Step(Ok(()), ListView(l.elems[Target(c) := v], l.changes), c)
  }

  // ---------------------------------------------------------------------
  // Any operation, and scripts of operations through several cursors

  datatype Call<T> =
    | HasNextCall | HasPreviousCall | NextIndexCall | PreviousIndexCall
    | NextCall | PreviousCall | AddCall(v: T) | RemoveCall | SetCall(v: T)

  /** What a successful call answers. */
  datatype Answer<T> = Flag(b: bool) | Index(i: int) | Value(v: T) | Done

  predicate Structural<T>(call: Call<T>) {
    call.AddCall? || call.RemoveCall?
  }

  function Lift<R, T>(o: Outcome<R>, answer: R -> Answer<T>): (r: Outcome<Answer<T>>)
    ensures r.Ok? <==> o.Ok?
    ensures !o.Ok? ==> r == (match o case NoSuchElement => NoSuchElement
                                    case IllegalState => IllegalState
                                    case _ => ConcurrentModification)
  {
    match o
    case Ok(x) => Ok(answer(x))
    case ConcurrentModification => ConcurrentModification
    case NoSuchElement => NoSuchElement
    case IllegalState => IllegalState
  }

  /** Carries out one call through cursor `c`. The list's change count
      moves only on a successful `add` or `remove`, and then by one; a
      failing call changes nothing at all. */
  function Apply<T>(l: ListView<T>, c: CursorView, call: Call<T>): (r: Step<T, Answer<T>>)
    requires Consistent(l, c)
    ensures Consistent(r.list, r.cursor)
    ensures r.result == ConcurrentModification <==> !InSync(l, c)
    ensures !r.result.Ok? ==> r.list == l && r.cursor == c
    ensures r.list.changes == if r.result.Ok? && Structural(call) then l.changes + 1 else l.changes
    ensures InSync(l, c) ==> InSync(r.list, r.cursor)
    ensures !Structural(call) ==> |r.list.elems| == |l.elems|
  {
    match call
    case HasNextCall => Step(Lift(HasNext(l, c), b => Flag(b)), l, c)
    case HasPreviousCall => Step(Lift(HasPrevious(l, c), b => Flag(b)), l, c)
    case NextIndexCall => Step(Lift(NextIndex(l, c), i => Index(i)), l, c)
    case PreviousIndexCall => Step(Lift(PreviousIndex(l, c), i => Index(i)), l, c)
    case NextCall =>
      var s := Next(l, c);
      Step(Lift(s.result, x => Value(x)), s.list, s.cursor)
    case PreviousCall =>
      var s := Previous(l, c);
      Step(Lift(s.result, x => Value(x)), s.list, s.cursor)
    case AddCall(v) =>
      var s := Add(l, c, v);
      Step(Lift(s.result, _ => Done), s.list, s.cursor)
    case RemoveCall =>
      var s := Remove(l, c);
      Step(Lift(s.result, _ => Done), s.list, s.cursor)
    case SetCall(v) =>
      var s := Set(l, c, v);
      Step(Lift(s.result, _ => Done), s.list, s.cursor)
  }

  /** A call made through cursor number `who`. */
  datatype Action<T> = Action(who: nat, call: Call<T>)

  predicate AllConsistent<T>(l: ListView<T>, cs: seq<CursorView>) {
    forall k :: 0 <= k < |cs| ==> Consistent(l, cs[k])
  }

  predicate Addressed<T>(script: seq<Action<T>>, n: nat) {
    forall k :: 0 <= k < |script| ==> script[k].who < n
  }

  /** A call through one cursor leaves every other cursor consistent with
      the list, whatever the call did. */
  lemma OtherCursorsStayConsistent<T>(l: ListView<T>, c: CursorView, d: CursorView, call: Call<T>)
    requires Consistent(l, c) && Consistent(l, d)
    ensures Consistent(Apply(l, c, call).list, d)
  {
    var r := Apply(l, c, call);
    if r.list.changes != l.changes {
      assert d.seen < r.list.changes;
    } else if call.SetCall? {
      assert |r.list.elems| == |l.elems|;
    }
  }

  /** Runs a script of calls, each through the cursor it names, and gives
      the final list and cursors. */
  function Run<T>(l: ListView<T>, cs: seq<CursorView>, script: seq<Action<T>>): (r: (ListView<T>, seq<CursorView>))
    requires AllConsistent(l, cs) && Addressed(script, |cs|)
    ensures AllConsistent(r.0, r.1) && |r.1| == |cs|
    ensures r.0.changes >= l.changes
    decreases |script|
  {
    if script == [] then (l, cs)
    else
      var a := script[0];
      var s := Apply(l, cs[a.who], a.call);
      var cs' := cs[a.who := s.cursor];
      assert AllConsistent(s.list, cs') by {
        forall k | 0 <= k < |cs'| ensures Consistent(s.list, cs'[k]) {
          if k != a.who {
            OtherCursorsStayConsistent(l, cs[a.who], cs[k], a.call);
          }
        }
      }
      Run(s.list, cs', script[1..])
  }

  // ---------------------------------------------------------------------
  // Properties

  /** On a new list a new cursor sees nothing in either direction. */
  lemma EmptyListHasNoElements<T>()
    ensures var l := Empty<T>(); var c := Open(l);
            HasNext(l, c) == Ok(false) && HasPrevious(l, c) == Ok(false) &&
            Next(l, c).result == NoSuchElement && Previous(l, c).result == NoSuchElement &&
            NextIndex(l, c) == Ok(0) && PreviousIndex(l, c) == NoSuchElement
  {
  }

  /** A structural change through one cursor leaves that cursor in sync and
      puts every cursor that was in sync with the old list out of sync. */
  lemma ForeignChangeDetected<T>(l: ListView<T>, c: CursorView, d: CursorView, call: Call<T>)
    requires Consistent(l, c) && Consistent(l, d)
    requires Structural(call) && Apply(l, c, call).result.Ok?
    ensures InSync(Apply(l, c, call).list, Apply(l, c, call).cursor)
    ensures !InSync(Apply(l, c, call).list, d)
    ensures Apply(Apply(l, c, call).list, d, call).result == ConcurrentModification
  {
  }

  /** Once out of sync, a cursor stays so for ever: whatever any cursor
      does afterwards, this one is untouched and still out of sync, so each
      of its calls fails with ConcurrentModification. */
  lemma {:induction false} StaleIsPermanent<T>(l: ListView<T>, cs: seq<CursorView>, script: seq<Action<T>>, j: nat)
    requires AllConsistent(l, cs) && Addressed(script, |cs|)
    requires j < |cs| && !InSync(l, cs[j])
    ensures Run(l, cs, script).1[j] == cs[j]
    ensures !InSync(Run(l, cs, script).0, cs[j])
    decreases |script|
  {
    if script != [] {
      var a := script[0];
      var s := Apply(l, cs[a.who], a.call);
      var cs' := cs[a.who := s.cursor];
      assert cs'[j] == cs[j];
      assert !InSync(s.list, cs'[j]);
      StaleIsPermanent(s.list, cs', script[1..], j);
    }
  }

  /** Through a single cursor that starts in sync, any script keeps it in
      sync, with its gap between 0 and the length of the list. */
  lemma {:induction false} SoleCursorStaysInSync<T>(l: ListView<T>, c: CursorView, script: seq<Action<T>>)
    requires Consistent(l, c) && InSync(l, c) && Addressed(script, 1)
    ensures var r := Run(l, [c], script);
            InSync(r.0, r.1[0]) && r.1[0].pos <= |r.0.elems|
    decreases |script|
  {
    if script != [] {
      var s := Apply(l, c, script[0].call);
      assert [c][script[0].who := s.cursor] == [s.cursor];
      SoleCursorStaysInSync(s.list, s.cursor, script[1..]);
    }
  }

  /** `previous` undoes `next`: it returns the same element and restores
      the gap. */
  lemma NextThenPrevious<T>(l: ListView<T>, c: CursorView)
    requires Consistent(l, c) && Next(l, c).result.Ok?
    ensures var n := Next(l, c); var p := Previous(n.list, n.cursor);
            p.result == n.result && p.list == l && p.cursor.pos == c.pos
  {
  }

  /** `next` undoes `previous`. */
  lemma PreviousThenNext<T>(l: ListView<T>, c: CursorView)
    requires Consistent(l, c) && Previous(l, c).result.Ok?
    ensures var p := Previous(l, c); var n := Next(p.list, p.cursor);
            n.result == p.result && n.list == l && n.cursor.pos == c.pos
  {
  }

  /** `add(v)` puts `v` just behind the gap, keeping everything else in
      order: stepping back returns `v`, and removing it restores the list
      and the gap. */
  lemma AddThenRemove<T>(l: ListView<T>, c: CursorView, v: T)
    requires Consistent(l, c) && InSync(l, c)
    ensures var a := Add(l, c, v);
            var p := Previous(a.list, a.cursor);
            var r := Remove(p.list, p.cursor);
            p.result == Ok(v) && r.result.Ok? &&
            r.list.elems == l.elems && r.cursor.pos == c.pos &&
            r.list.changes == l.changes + 2
  {
    var a := Add(l, c, v);
    var s := l.elems;
    assert a.list.elems[c.pos] == v;
    var p := Previous(a.list, a.cursor);
    var r := Remove(p.list, p.cursor);
    assert r.list.elems == a.list.elems[..c.pos] + a.list.elems[c.pos + 1..];
    assert a.list.elems[..c.pos] == s[..c.pos];
    assert a.list.elems[c.pos + 1..] == s[c.pos..];
    assert s == s[..c.pos] + s[c.pos..];
  }

  /** Right after `add` there is nothing to remove or set: the caller must
      move first. */
  lemma AddClearsUpdate<T>(l: ListView<T>, c: CursorView, v: T, w: T)
    requires Consistent(l, c) && InSync(l, c)
    ensures var a := Add(l, c, v);
            Remove(a.list, a.cursor).result == IllegalState &&
            Set(a.list, a.cursor, w).result == IllegalState
  {
  }

  /** `set` after `next` replaces just the element passed: stepping back
      reads the new value, and no other cursor is disturbed. */
  lemma SetAfterNext<T>(l: ListView<T>, c: CursorView, d: CursorView, v: T)
    requires Consistent(l, c) && Consistent(l, d) && Next(l, c).result.Ok?
    ensures var n := Next(l, c);
            var s := Set(n.list, n.cursor, v);
            var p := Previous(s.list, s.cursor);
            s.result.Ok? && p.result == Ok(v) &&
            s.list.elems == l.elems[c.pos := v] &&
            Consistent(s.list, d) && (InSync(s.list, d) <==> InSync(l, d))
  {
  }
}
