/** The circular doubly-linked list with a dummy node, and its fail-fast
    list iterator (the anonymous `ListIterator` class of `listIterator()`).
    The nodes live in an arena, `heap`, whose slots are node references;
    the ghost `order` lists the real nodes front to back, and the ghost
    `changes` counts structural changes without the 32-bit wrap of
    `numChanges`. Every cursor operation is proved to do exactly what the
    matching function of module CursorSpec does to the views of list and
    cursor. */
module SimpleCDLL {
  import opened JavaInt
  import opened NodeRing
  import opened CursorSpec

  class CDLL<T> {
    /** The nodes; slot `Dummy` is the dummy node. */
    var heap: seq<Node<T>>
    var size: nat
    var numChanges: int
    ghost var order: seq<nat>
    ghost var changes: nat

    /** The node ring is intact. */
    ghost predicate Ring()
      reads this
    {
      Linked(heap, order)
    }

    ghost predicate Valid()
      reads this
    {
      Ring() && size == |order| && numChanges == Count(changes)
    }

    /** The values of the list, front to back. */
    ghost function Contents(): (s: seq<T>)
      reads this
      requires Valid()
      ensures |s| == size
    {
      Values(heap, order)
    }

    ghost function View(): ListView<T>
      reads this
      requires Valid()
    {
      ListView(Contents(), changes)
    }

    /** `new SimpleCDLL()`: a dummy node linked to itself and nothing else. */
    constructor ()
      ensures Valid() && View() == Empty()
      ensures size == 0 && numChanges == 0
      ensures heap[Dummy].next == Dummy && heap[Dummy].prev == Dummy
    {
      heap := [Node(None, Dummy, Dummy)];
      size := 0;
      numChanges := 0;
      order := [];
      changes := 0;
      new;
      EmptyLinked(heap);
    }

    /** `listIterator()`: a new cursor in sync with the list, its gap
        before the first value. */
    method ListIterator() returns (c: Cursor<T>)
      requires Valid()
      ensures fresh(c) && c.list == this
      ensures c.Valid() && c.View() == Open(View())
      ensures c.prev == Dummy && c.next == heap[Dummy].next && c.update == None
      ensures c.numChanges == numChanges
    {
      c := new Cursor(this);
    }

    /** Sets every field of the list at once, to a well-formed ring. */
    method Store(h: seq<Node<T>>, ghost o: seq<nat>, n: nat, c: int, ghost k: nat)
      requires Linked(h, o) && n == |o| && c == Count(k)
      modifies this
      ensures Valid() && View() == ListView(Values(h, o), k)
      ensures heap == h && order == o && size == n && numChanges == c && changes == k
    {
      heap, order, size, numChanges, changes := h, o, n, c, k;
    }

    /** What `add` does to the list: `prev.insertAfter(v)` on the node at
        ring position `p` (slot `a`), `++size` and `numChanges++`. The new
        node's slot is returned and its value lands at index `p`. */
    method Grow(a: nat, v: T, ghost p: nat) returns (k: nat)
      requires Valid() && p <= size && a == At(order, p)
      modifies this
      ensures Valid() && View() == Inserted(old(View()), p, v)
      ensures size == old(size) + 1 && numChanges == Inc(old(numChanges))
      ensures At(order, p + 1) == k && At(order, Succ(size, p + 1)) == old(At(order, Succ(size, p)))
    {
      k := |heap|;
      ghost var o := GrowRing(heap, order, p, v, changes);
      var h := InsertAfter(heap, a, v);
      Store(h, o, size + 1, Inc(numChanges), changes + 1);
    }

    /** What `remove` does to the list: `remove()` on the real node at index
        `i` (slot `x`), `--size` and `numChanges++`. The value at index `i`
        leaves the list. */
    method Shrink(x: nat, ghost i: nat)
      requires Valid() && i < size && x == order[i]
      modifies this
      ensures Valid() && View() == Deleted(old(View()), i) && changes == old(changes) + 1
      ensures size == old(size) - 1 && numChanges == Inc(old(numChanges))
      ensures At(order, i) == old(At(order, i))
      ensures At(order, Succ(size, i)) == old(At(order, Succ(size, i + 1)))
    {
      ghost var o := ShrinkRing(heap, order, i, changes);
      var h := RemoveNode(heap, x);
      Store(h, o, size - 1, Inc(numChanges), changes + 1);
    }
  }

  class Cursor<T> {
    const list: CDLL<T>
    /** Index of the value `next` returns. */
    var pos: nat
    /** The nodes either side of the gap. */
    var prev: nat
    var next: nat
    /** The node `set` and `remove` act on, if any. */
    var update: Option<nat>
    var numChanges: int
    /** The structural change count `numChanges` truncates. */
    ghost var seen: nat

    /** The cursor never saw a future change; while in sync, `prev` and
        `next` are the nodes at ring positions `pos` and the one after, and
        `update` is one of them. */
    ghost predicate Valid()
      reads this, list
    {
      list.Valid() && numChanges == Count(seen) && seen <= list.changes &&
      (seen == list.changes ==>
         pos <= list.size &&
         prev == At(list.order, pos) && next == At(list.order, Succ(list.size, pos)) &&
         (update == None || (update == Some(prev) && 0 < pos) || (update == Some(next) && pos < list.size)))
    }

    /** The list changed fewer than 2^32 times since this cursor last
        synchronised, so the 32-bit comparison of `failFast` is exact. */
    ghost predicate Tracked()
      reads this, list
    {
      list.changes < seen + TwoTo32
    }

    ghost function Mark(): Mark
      reads this
    {
      if update.None? then NoUpdate
      else if update == Some(prev) && 0 < pos then Behind
      else Ahead
    }

    ghost function View(): CursorView
      reads this
    {
      CursorView(pos, Mark(), seen)
    }

    /** The field initialisers of the cursor. */
    constructor (l: CDLL<T>)
      requires l.Valid()
      ensures list == l && Valid() && View() == Open(l.View())
      ensures prev == Dummy && next == l.heap[Dummy].next && update == None
      ensures numChanges == l.numChanges
    {
      list := l;
      pos := 0;
      prev := Dummy;
      next := l.heap[Dummy].next;
      update := None;
      numChanges := l.numChanges;
      seen := l.changes;
      new;
      assert l.heap[Dummy] == Link(l.heap, l.order, 0);
    }

    /** Places the cursor after a structural change of its own: new
        boundaries and index, nothing to update, in sync with the list. */
    method Resync(pv: nat, nx: nat, p: nat)
      requires list.Valid() && p <= list.size
      requires pv == At(list.order, p) && nx == At(list.order, Succ(list.size, p))
      modifies this
      ensures Valid() && Tracked() && View() == CursorView(p, NoUpdate, list.changes)
      ensures numChanges == list.numChanges
    {
      prev, next, pos, update := pv, nx, p, None;
      numChanges, seen := list.numChanges, list.changes;
    }

    /** `failFast()`: true when the 32-bit counters agree, which is exactly
        when no structural change happened since this cursor last
        synchronised. */
    method FailFast() returns (ok: bool)
      requires Valid() && Tracked()
      ensures ok <==> InSync(list.View(), View())
      ensures ok <==> numChanges == list.numChanges
    {
      CountExactWithin(seen, list.changes);
      ok := numChanges == list.numChanges;
    }

    method HasNext() returns (r: Outcome<bool>)
      requires Valid() && Tracked()
      ensures r == CursorSpec.HasNext(list.View(), View())
      ensures r.Ok? ==> (r.value <==> pos < list.size)
    {
      CountExactWithin(seen, list.changes);
      if numChanges != list.numChanges {
        return ConcurrentModification;
      }
      r := Ok(pos < list.size);
    }

    method HasPrevious() returns (r: Outcome<bool>)
      requires Valid() && Tracked()
      ensures r == CursorSpec.HasPrevious(list.View(), View())
      ensures r.Ok? ==> (r.value <==> pos > 0)
    {
      CountExactWithin(seen, list.changes);
      if numChanges != list.numChanges {
        return ConcurrentModification;
      }
      r := Ok(pos > 0);
    }

    method NextIndex() returns (r: Outcome<int>)
      requires Valid() && Tracked()
      ensures r == CursorSpec.NextIndex(list.View(), View())
      ensures r.Ok? ==> r.value == pos
    {
      CountExactWithin(seen, list.changes);
      if numChanges != list.numChanges {
        return ConcurrentModification;
      }
      r := Ok(pos);
    }

    method PreviousIndex() returns (r: Outcome<int>)
      requires Valid() && Tracked()
      ensures r == CursorSpec.PreviousIndex(list.View(), View())
      ensures r.Ok? ==> r.value == pos - 1
    {
      CountExactWithin(seen, list.changes);
      if numChanges != list.numChanges {
        return ConcurrentModification;
      }
      if pos <= 0 {
        return NoSuchElement;
      }
      r := Ok(pos - 1);
    }

    method Next() returns (r: Outcome<T>)
      requires Valid() && Tracked()
      modifies this
      ensures Valid() && Tracked()
      ensures var s := CursorSpec.Next(old(list.View()), old(View()));
              r == s.result && list.View() == s.list && View() == s.cursor
      ensures r.Ok? ==> update == Some(old(next)) && prev == old(next)
      ensures !r.Ok? ==> unchanged(this)
    {
      CountExactWithin(seen, list.changes);
      if numChanges != list.numChanges {
        return ConcurrentModification;
      }
      if pos >= list.size {
        return NoSuchElement;
      }
      Forward(list.heap, list.order, pos);
      update := Some(next);
      prev := next;
      next := list.heap[next].next;
      pos := pos + 1;
      r := Ok(list.heap[prev].value.value);
    }

    method Previous() returns (r: Outcome<T>)
      requires Valid() && Tracked()
      modifies this
      ensures Valid() && Tracked()
      ensures var s := CursorSpec.Previous(old(list.View()), old(View()));
              r == s.result && list.View() == s.list && View() == s.cursor
      ensures r.Ok? ==> update == Some(old(prev)) && next == old(prev)
      ensures !r.Ok? ==> unchanged(this)
    {
      CountExactWithin(seen, list.changes);
      if numChanges != list.numChanges {
        return ConcurrentModification;
      }
      if pos <= 0 {
        return NoSuchElement;
      }
      Backward(list.heap, list.order, pos);
      AtDistinct(list.heap, list.order, pos - 1, pos);
      assert CursorSpec.Previous(list.View(), View()).result == Ok(list.heap[prev].value.value);
      update, next, prev, pos := Some(prev), prev, list.heap[prev].prev, pos - 1;
      r := Ok(list.heap[next].value.value);
    }

    /** `add(v)`: a structural change that this cursor follows. */
    method Add(v: T) returns (r: Outcome<()>)
      requires Valid() && Tracked()
      modifies this, list
      ensures Valid() && Tracked()
      ensures var s := CursorSpec.Add(old(list.View()), old(View()), v);
              r == s.result && list.View() == s.list && View() == s.cursor
      ensures r.Ok? ==>
                list.size == old(list.size) + 1 && list.numChanges == Inc(old(list.numChanges)) &&
                numChanges == list.numChanges
      ensures !r.Ok? ==> unchanged(this, list)
    {
      CountExactWithin(seen, list.changes);
      if numChanges != list.numChanges {
        return ConcurrentModification;
      }
      var k := list.Grow(prev, v, pos);
      Resync(k, next, pos + 1);
      r := Ok(());
    }

    /** `remove()`: unlinks the node last passed by `next` or `previous`. */
    method Remove() returns (r: Outcome<()>)
      requires Valid() && Tracked()
      modifies this, list
      ensures Valid() && Tracked()
      ensures var s := CursorSpec.Remove(old(list.View()), old(View()));
              r == s.result && list.View() == s.list && View() == s.cursor
      ensures r.Ok? ==>
                list.size == old(list.size) - 1 && list.numChanges == Inc(old(list.numChanges)) &&
                numChanges == list.numChanges
      ensures !r.Ok? ==> unchanged(this, list)
    {
      CountExactWithin(seen, list.changes);
      if numChanges != list.numChanges {
        return ConcurrentModification;
      }
      if update == None {
        return IllegalState;
      }
      RemoveMarked();
      r := Ok(());
    }

    /** The part of `remove` past its two checks. */
    method RemoveMarked()
      requires Valid() && seen == list.changes && update != None
      modifies this, list
      ensures Valid() && Tracked()
      ensures var s := CursorSpec.Remove(old(list.View()), old(View()));
              list.View() == s.list && View() == s.cursor
      ensures list.size == old(list.size) - 1 && list.numChanges == Inc(old(list.numChanges))
      ensures numChanges == list.numChanges
    {
      var u := update.value;
      ghost var i: nat := if Mark() == Behind then pos - 1 else pos;
      MarkedNode(list.heap, list.order, pos, u, i);
      RemovesTarget(list.View(), View(), i);
      var (pv, nx, ps) := (prev, next, pos);
      if nx == u {
        nx := list.heap[u].next;
      }
      if pv == u {
        pv := list.heap[u].prev;
        ps := ps - 1;
      }
      assert ps == i && pv == At(list.order, i) && nx == At(list.order, Succ(list.size, i + 1));
      list.Shrink(u, i);
      Resync(pv, nx, ps);
    }

    /** `set(v)`: overwrites the value of the node last passed. */
    method Set(v: T) returns (r: Outcome<()>)
      requires Valid() && Tracked()
      modifies list
      ensures Valid() && Tracked()
      ensures var s := CursorSpec.Set(old(list.View()), old(View()), v);
              r == s.result && list.View() == s.list && View() == s.cursor
      ensures list.order == old(list.order) && list.size == old(list.size)
      ensures list.numChanges == old(list.numChanges)
      ensures !r.Ok? ==> unchanged(list)
    {
      CountExactWithin(seen, list.changes);
      if numChanges != list.numChanges {
        return ConcurrentModification;
      }
      if update == None {
        return IllegalState;
      }
      var u := update.value;
      ghost var i: nat := if Mark() == Behind then pos - 1 else pos;
      assert u == list.order[i];
      SetLinked(list.heap, list.order, i, v);
      list.heap := list.heap[u := list.heap[u].(value := Some(v))];
      r := Ok(());
    }
  }

  /** The ring after `insertAfter` on the node at ring position `p`: the
      new slot `|heap|` enters the order at index `p` and the value `v` the
      list at index `p`; the new node sits at ring position `p + 1`, between
      the old boundaries. */
  lemma GrowRing<T>(heap: seq<Node<T>>, order: seq<nat>, p: nat, v: T, changes: nat) returns (o: seq<nat>)
    requires Linked(heap, order) && p <= |order|
    ensures At(order, p) < |heap| && heap[At(order, p)].next < |heap|
    ensures var h := InsertAfter(heap, At(order, p), v);
            Linked(h, o) && |o| == |order| + 1 &&
            ListView(Values(h, o), changes + 1) == Inserted(ListView(Values(heap, order), changes), p, v)
    ensures At(o, p + 1) == |heap| && At(o, Succ(|o|, p + 1)) == At(order, Succ(|order|, p))
  {
    o := order[..p] + [|heap|] + order[p..];
    Insertion(order, p, |heap|);
    InsertLinked(heap, order, p, v, o);
    AtInserted(order, p, |heap|, o, p + 1);
    AtInserted(order, p, |heap|, o, Succ(|o|, p + 1));
  }

  /** The ring after `remove` of the real node at index `i`: its slot leaves
      the order and its value the list, and its neighbours become the
      boundaries at ring positions `i` and the one after. */
  lemma ShrinkRing<T>(heap: seq<Node<T>>, order: seq<nat>, i: nat, changes: nat) returns (o: seq<nat>)
    requires Linked(heap, order) && i < |order|
    ensures order[i] < |heap| && heap[order[i]].prev < |heap| && heap[order[i]].next < |heap|
    ensures var h := RemoveNode(heap, order[i]);
            Linked(h, o) && |o| == |order| - 1 &&
            ListView(Values(h, o), changes + 1) == Deleted(ListView(Values(heap, order), changes), i)
    ensures At(o, i) == At(order, i) && At(o, Succ(|o|, i)) == At(order, Succ(|order|, i + 1))
  {
    o := order[..i] + order[i + 1..];
    Removal(order, i);
    RemoveLinked(heap, order, i, o);
    AtRemoved(order, i, o, i);
    AtRemoved(order, i, o, Succ(|o|, i));
  }

  /** A successful `remove` deletes the element at the target index `i`
      and leaves the gap where that element was. */
  lemma RemovesTarget<T>(l: ListView<T>, c: CursorView, i: nat)
    requires Consistent(l, c) && InSync(l, c) && c.mark != NoUpdate && Target(c) == i
    ensures i < |l.elems|
    ensures CursorSpec.Remove(l, c) == Step(Ok(()), Deleted(l, i), CursorView(i, NoUpdate, l.changes + 1))
  {
  }

  /** The node a cursor between positions `pos` and `pos + 1` marks, at
      index `i`: it is one of the two boundaries, and its own links are the
      boundaries that are left once it is gone. */
  lemma MarkedNode<T>(heap: seq<Node<T>>, order: seq<nat>, pos: nat, u: nat, i: nat)
    requires Linked(heap, order) && pos <= |order|
    requires (u == At(order, pos) && 0 < pos && i == pos - 1) ||
             (u == At(order, Succ(|order|, pos)) && pos < |order| && i == pos)
    ensures i < |order| && u == order[i]
    ensures u == At(order, pos) <==> i + 1 == pos
    ensures u == At(order, Succ(|order|, pos)) <==> i == pos
    ensures heap[u].prev == At(order, i) && heap[u].next == At(order, Succ(|order|, i + 1))
  {
    Forward(heap, order, i);
    Backward(heap, order, i + 1);
    AtDistinct(heap, order, i, i + 1);
  }

  /** A structural change made through some other cursor leaves this one
      valid but out of sync, so its next call fails fast. */
  twostate lemma OtherCursorGoesStale<T>(c: Cursor<T>)
    requires old(c.Valid()) && unchanged(c)
    requires c.list.Valid() && old(c.list.changes) < c.list.changes
    ensures c.Valid() && !InSync(c.list.View(), c.View())
  {
  }
}
