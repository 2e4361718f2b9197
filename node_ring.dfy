/** The node ring of the list, kept in an arena: a sequence of nodes whose
    links are arena slots. Slot 0 is the dummy node. The order of the real
    nodes, front to back, is a sequence of distinct slots; a ring of n real
    nodes has n + 1 positions, position 0 being the dummy. This module holds
    the ring invariant and what the two splice operations of a node
    (`insertAfter` and `remove`) do to it. */
module NodeRing {

  datatype Option<T> = None | Some(value: T)

  /** A node: its value (none for the dummy) and the slots of its two
      neighbours. */
  datatype Node<T> = Node(value: Option<T>, prev: nat, next: nat)

  const Dummy: nat := 0

  /** The slot at ring position `r`. */
  function At(order: seq<nat>, r: nat): nat
    requires r <= |order|
  {
    if r == 0 then Dummy else order[r - 1]
  }

  /** The ring position after `r` in a ring of `n` real nodes. */
  function Succ(n: nat, r: nat): nat
    requires r <= n
  {
    if r == n then 0 else r + 1
  }

  /** The ring position before `r` in a ring of `n` real nodes. */
  function Pred(n: nat, r: nat): nat
    requires r <= n
  {
    if r == 0 then n else r - 1
  }

  /** Entries `i` and `j` of `order` are different nodes. */
  ghost predicate Apart(order: seq<nat>, i: nat, j: nat)
    requires i < |order| && j < |order|
  {
    order[i] != order[j]
  }

  /** The arena holds the dummy, and `order` lists distinct real nodes. */
  ghost predicate Slots<T>(heap: seq<Node<T>>, order: seq<nat>) {
    0 < |heap| && heap[Dummy].value.None? &&
    (forall i :: 0 <= i < |order| ==> 0 < order[i] < |heap| && heap[order[i]].value.Some?) &&
    (forall i, j :: 0 <= i < j < |order| ==> Apart(order, i, j))
  }

  /** The node at ring position `r`. */
  ghost function Link<T>(heap: seq<Node<T>>, order: seq<nat>, r: nat): Node<T>
    requires r <= |order| && At(order, r) < |heap|
  {
    heap[At(order, r)]
  }

  /** The ring invariant: following `next` from the dummy visits the real
      nodes in `order` and comes back to the dummy, and `prev` is its
      exact reverse. */
  ghost predicate Linked<T>(heap: seq<Node<T>>, order: seq<nat>) {
    Slots(heap, order) &&
    forall r :: 0 <= r <= |order| ==>
      Link(heap, order, r).next == At(order, Succ(|order|, r)) &&
      Link(heap, order, r).prev == At(order, Pred(|order|, r))
  }

  /** The values of the real nodes, front to back. */
  ghost function Values<T>(heap: seq<Node<T>>, order: seq<nat>): (s: seq<T>)
    requires Slots(heap, order)
    ensures |s| == |order|
    ensures forall i :: 0 <= i < |order| ==> Some(s[i]) == heap[order[i]].value
  {
    seq(|order|, i requires 0 <= i < |order| => heap[order[i]].value.value)
  }

  /** Distinct ring positions hold distinct slots. */
  lemma AtDistinct<T>(heap: seq<Node<T>>, order: seq<nat>, r1: nat, r2: nat)
    requires Slots(heap, order) && r1 <= |order| && r2 <= |order| && r1 != r2
    ensures At(order, r1) != At(order, r2)
  {
    if r1 != 0 && r2 != 0 {
      if r1 < r2 {
        assert Apart(order, r1 - 1, r2 - 1);
      } else {
        assert Apart(order, r2 - 1, r1 - 1);
      }
    }
  }

  /** Stepping forward over the real node at index `r`. */
  lemma Forward<T>(heap: seq<Node<T>>, order: seq<nat>, r: nat)
    requires Linked(heap, order) && r < |order|
    ensures At(order, Succ(|order|, r)) == order[r]
    ensures heap[order[r]].next == At(order, Succ(|order|, r + 1))
    ensures heap[order[r]].value == Some(Values(heap, order)[r])
  {
    assert heap[order[r]] == Link(heap, order, r + 1);
  }

  /** Stepping backward over the real node at index `r - 1`. */
  lemma Backward<T>(heap: seq<Node<T>>, order: seq<nat>, r: nat)
    requires Linked(heap, order) && 0 < r <= |order|
    ensures At(order, r) == order[r - 1] && At(order, r) != At(order, Succ(|order|, r))
    ensures heap[order[r - 1]].prev == At(order, r - 1)
    ensures heap[order[r - 1]].value == Some(Values(heap, order)[r - 1])
  {
    assert heap[order[r - 1]] == Link(heap, order, r);
    AtDistinct(heap, order, r, Succ(|order|, r));
  }

  /** The new dummy-only ring of an empty list. */
  lemma EmptyLinked<T>(heap: seq<Node<T>>)
    requires heap == [Node(None, Dummy, Dummy)]
    ensures Linked(heap, []) && Values(heap, []) == []
  {
    assert At([], 0) == Dummy;
  }

  /** `h` is `heap` after `insertAfter(v)` on the node in slot `a`: a node
      holding `v` in a fresh slot, linked between `a` and its successor `b`,
      `a.next` and `b.prev` pointing to it, and nothing else changed. */
  ghost predicate Spliced<T>(heap: seq<Node<T>>, a: nat, v: T, h: seq<Node<T>>)
    requires a < |heap|
  {
    var b := heap[a].next; var k := |heap|;
    |h| == k + 1 && h[k] == Node(Some(v), a, b) &&
    forall s :: 0 <= s < k ==>
      h[s].value == heap[s].value &&
      h[s].next == (if s == a then k else heap[s].next) &&
      h[s].prev == (if s == b then k else heap[s].prev)
  }

  /** `h` is `heap` after `remove()` on the node in slot `x`: its
      predecessor and successor linked to each other and nothing else
      changed (the node keeps its own links). */
  ghost predicate Unspliced<T>(heap: seq<Node<T>>, x: nat, h: seq<Node<T>>)
    requires x < |heap|
  {
    var a := heap[x].prev; var b := heap[x].next;
    |h| == |heap| &&
    forall s :: 0 <= s < |heap| ==>
      h[s].value == heap[s].value &&
      h[s].next == (if s == a then b else heap[s].next) &&
      h[s].prev == (if s == b then a else heap[s].prev)
  }

  /** `insertAfter(v)` on the node in slot `a`: a fresh slot holding `v`,
      linked in between `a` and its successor. */
  function InsertAfter<T>(heap: seq<Node<T>>, a: nat, v: T): (h: seq<Node<T>>)
    requires a < |heap| && heap[a].next < |heap|
    ensures Spliced(heap, a, v, h)
  {
    var b := heap[a].next;
    var k := |heap|;
    var h := heap + [Node(Some(v), a, b)];
    var h := h[a := h[a].(next := k)];
    h[b := h[b].(prev := k)]
  }

  /** `remove()` on the node in slot `x`: its neighbours are linked to each
      other. */
  function RemoveNode<T>(heap: seq<Node<T>>, x: nat): (h: seq<Node<T>>)
    requires x < |heap| && heap[x].prev < |heap| && heap[x].next < |heap|
    ensures Unspliced(heap, x, h)
  {
    var a := heap[x].prev;
    var b := heap[x].next;
    var h := heap[a := heap[a].(next := b)];
    h[b := h[b].(prev := a)]
  }

  // ---------------------------------------------------------------------
  // insertAfter

  /** `o` is `order` with slot `k` inserted at index `p`. */
  ghost predicate IsInsertion(order: seq<nat>, p: nat, k: nat, o: seq<nat>) {
    p <= |order| && |o| == |order| + 1 &&
    forall i {:trigger o[i]} :: 0 <= i < |o| ==> o[i] == if i < p then order[i] else if i == p then k else order[i - 1]
  }

  lemma Insertion(order: seq<nat>, p: nat, k: nat)
    requires p <= |order|
    ensures IsInsertion(order, p, k, order[..p] + [k] + order[p..])
  {
    var o := order[..p] + [k] + order[p..];
    forall i | 0 <= i < |o|
      ensures o[i] == if i < p then order[i] else if i == p then k else order[i - 1]
    {
      if i < p {
        assert o[i] == order[..p][i];
      } else if i > p {
        assert o[i] == order[p..][i - p - 1];
      }
    }
  }

  lemma AtInserted(order: seq<nat>, p: nat, k: nat, o: seq<nat>, r: nat)
    requires IsInsertion(order, p, k, o) && r <= |o|
    ensures At(o, r) == if r <= p then At(order, r) else if r == p + 1 then k else At(order, r - 1)
  {
  }

  lemma InsertSlots<T>(heap: seq<Node<T>>, order: seq<nat>, p: nat, h: seq<Node<T>>, o: seq<nat>)
    requires Slots(heap, order) && IsInsertion(order, p, |heap|, o)
    requires |h| == |heap| + 1 && h[|heap|].value.Some?
    requires forall s :: 0 <= s < |heap| ==> h[s].value == heap[s].value
    ensures Slots(h, o)
  {
    forall i | 0 <= i < |o| ensures 0 < o[i] < |h| && h[o[i]].value.Some? {
      if i > p {
        assert o[i] == order[i - 1];
      }
    }
    forall i, j | 0 <= i < j < |o| ensures Apart(o, i, j) {
      assert o[j] == if j < p then order[j] else if j == p then |heap| else order[j - 1];
      if j < p {
        assert Apart(order, i, j);
      } else if i < p && j > p {
        assert Apart(order, i, j - 1);
      } else if i > p {
        assert Apart(order, i - 1, j - 1);
      }
    }
  }

  lemma InsertValues<T>(heap: seq<Node<T>>, order: seq<nat>, p: nat, v: T, h: seq<Node<T>>, o: seq<nat>)
    requires Slots(heap, order) && IsInsertion(order, p, |heap|, o) && Slots(h, o)
    requires |h| == |heap| + 1 && h[|heap|].value == Some(v)
    requires forall s :: 0 <= s < |heap| ==> h[s].value == heap[s].value
    ensures Values(h, o) == Values(heap, order)[..p] + [v] + Values(heap, order)[p..]
  {
    var vs := Values(heap, order);
    var ws := Values(h, o);
    forall i | 0 <= i < |o| ensures ws[i] == (vs[..p] + [v] + vs[p..])[i] {
      if i < p {
        assert o[i] == order[i];
      } else if i > p {
        assert o[i] == order[i - 1];
      }
    }
  }

  /** The links of a node ahead of the insertion point. */
  lemma SplicedBefore<T>(heap: seq<Node<T>>, order: seq<nat>, p: nat, v: T, h: seq<Node<T>>, r: nat)
    requires Linked(heap, order) && p <= |order| && Spliced(heap, At(order, p), v, h)
    requires r < p
    ensures h[At(order, r)].next == At(order, r + 1)
    ensures h[At(order, r)].prev ==
            if r > 0 then At(order, r - 1) else if p == |order| then |heap| else At(order, |order|)
  {
    var n := |order|;
    var x := At(order, r);
    assert heap[x] == Link(heap, order, r);
    assert heap[At(order, p)] == Link(heap, order, p);
    AtDistinct(heap, order, r, p);
    if r != Succ(n, p) {
      AtDistinct(heap, order, r, Succ(n, p));
    }
  }

  /** The links of the node `insertAfter` was called on, and of the new node. */
  lemma SplicedAt<T>(heap: seq<Node<T>>, order: seq<nat>, p: nat, v: T, h: seq<Node<T>>)
    requires Linked(heap, order) && p <= |order| && Spliced(heap, At(order, p), v, h)
    ensures h[At(order, p)].next == |heap|
    ensures h[At(order, p)].prev == if |order| == 0 then |heap| else At(order, Pred(|order|, p))
    ensures h[|heap|].next == At(order, Succ(|order|, p)) && h[|heap|].prev == At(order, p)
  {
    var n := |order|;
    assert heap[At(order, p)] == Link(heap, order, p);
    if n != 0 {
      AtDistinct(heap, order, p, Succ(n, p));
    }
  }

  /** The links of a node behind the insertion point. */
  lemma SplicedAfter<T>(heap: seq<Node<T>>, order: seq<nat>, p: nat, v: T, h: seq<Node<T>>, r: nat)
    requires Linked(heap, order) && p <= |order| && Spliced(heap, At(order, p), v, h)
    requires p < r <= |order|
    ensures h[At(order, r)].next == At(order, Succ(|order|, r))
    ensures h[At(order, r)].prev == if r == p + 1 then |heap| else At(order, r - 1)
  {
    var n := |order|;
    var x := At(order, r);
    assert heap[x] == Link(heap, order, r);
    assert heap[At(order, p)] == Link(heap, order, p);
    AtDistinct(heap, order, r, p);
    if r != p + 1 {
      AtDistinct(heap, order, r, p + 1);
    }
  }

  /** The ring of `o` at a position ahead of the insertion point. */
  lemma InsertLinkBefore<T>(heap: seq<Node<T>>, order: seq<nat>, p: nat, v: T, h: seq<Node<T>>, o: seq<nat>, r: nat)
    requires Linked(heap, order) && p <= |order| && Spliced(heap, At(order, p), v, h)
    requires IsInsertion(order, p, |heap|, o) && r < p
    ensures h[At(o, r)].next == At(o, Succ(|o|, r)) && h[At(o, r)].prev == At(o, Pred(|o|, r))
  {
    var k := |heap|;
    AtInserted(order, p, k, o, r);
    AtInserted(order, p, k, o, r + 1);
    AtInserted(order, p, k, o, Pred(|o|, r));
    SplicedBefore(heap, order, p, v, h, r);
  }

  /** The ring of `o` at the node `insertAfter` was called on and at the
      new node. */
  lemma InsertLinkNew<T>(heap: seq<Node<T>>, order: seq<nat>, p: nat, v: T, h: seq<Node<T>>, o: seq<nat>, r: nat)
    requires Linked(heap, order) && p <= |order| && Spliced(heap, At(order, p), v, h)
    requires IsInsertion(order, p, |heap|, o) && (r == p || r == p + 1)
    ensures h[At(o, r)].next == At(o, Succ(|o|, r)) && h[At(o, r)].prev == At(o, Pred(|o|, r))
  {
    var k := |heap|;
    AtInserted(order, p, k, o, r);
    AtInserted(order, p, k, o, Succ(|o|, r));
    AtInserted(order, p, k, o, Pred(|o|, r));
    SplicedAt(heap, order, p, v, h);
  }

  /** The ring of `o` at a position behind the new node. */
  lemma InsertLinkAfter<T>(heap: seq<Node<T>>, order: seq<nat>, p: nat, v: T, h: seq<Node<T>>, o: seq<nat>, r: nat)
    requires Linked(heap, order) && p <= |order| && Spliced(heap, At(order, p), v, h)
    requires IsInsertion(order, p, |heap|, o) && p + 1 < r <= |o|
    ensures h[At(o, r)].next == At(o, Succ(|o|, r)) && h[At(o, r)].prev == At(o, Pred(|o|, r))
  {
    var k := |heap|;
    AtInserted(order, p, k, o, r);
    AtInserted(order, p, k, o, Succ(|o|, r));
    AtInserted(order, p, k, o, r - 1);
    SplicedAfter(heap, order, p, v, h, r - 1);
  }

  /** `insertAfter` on the node at ring position `p` makes the ring one
      node longer, with the new value at index `p` and every other value
      where it was. */
  lemma InsertLinked<T>(heap: seq<Node<T>>, order: seq<nat>, p: nat, v: T, o: seq<nat>)
    requires Linked(heap, order) && p <= |order| && IsInsertion(order, p, |heap|, o)
    ensures At(order, p) < |heap| && heap[At(order, p)].next < |heap|
    ensures Linked(InsertAfter(heap, At(order, p), v), o)
    ensures Values(InsertAfter(heap, At(order, p), v), o) == Values(heap, order)[..p] + [v] + Values(heap, order)[p..]
  {
    assert heap[At(order, p)] == Link(heap, order, p);
    var h := InsertAfter(heap, At(order, p), v);
    InsertSlots(heap, order, p, h, o);
    forall r | 0 <= r <= |o|
      ensures Link(h, o, r).next == At(o, Succ(|o|, r)) && Link(h, o, r).prev == At(o, Pred(|o|, r))
    {
      if r < p {
        InsertLinkBefore(heap, order, p, v, h, o, r);
      } else if r <= p + 1 {
        InsertLinkNew(heap, order, p, v, h, o, r);
      } else {
        InsertLinkAfter(heap, order, p, v, h, o, r);
      }
    }
    InsertValues(heap, order, p, v, h, o);
  }

  // ---------------------------------------------------------------------
  // remove

  /** `o` is `order` without its entry at index `i`. */
  ghost predicate IsRemoval(order: seq<nat>, i: nat, o: seq<nat>) {
    i < |order| && |o| == |order| - 1 &&
    forall j {:trigger o[j]} :: 0 <= j < |o| ==> o[j] == if j < i then order[j] else order[j + 1]
  }

  lemma Removal(order: seq<nat>, i: nat)
    requires i < |order|
    ensures IsRemoval(order, i, order[..i] + order[i + 1..])
  {
    var o := order[..i] + order[i + 1..];
    forall j | 0 <= j < |o| ensures o[j] == if j < i then order[j] else order[j + 1] {
      if j < i {
        assert o[j] == order[..i][j];
      } else {
        assert o[j] == order[i + 1..][j - i];
      }
    }
  }

  lemma AtRemoved(order: seq<nat>, i: nat, o: seq<nat>, r: nat)
    requires IsRemoval(order, i, o) && r <= |o|
    ensures At(o, r) == if r <= i then At(order, r) else At(order, r + 1)
  {
  }

  lemma RemoveSlots<T>(heap: seq<Node<T>>, order: seq<nat>, i: nat, h: seq<Node<T>>, o: seq<nat>)
    requires Slots(heap, order) && IsRemoval(order, i, o)
    requires |h| == |heap| && forall s :: 0 <= s < |heap| ==> h[s].value == heap[s].value
    ensures Slots(h, o)
  {
    forall j | 0 <= j < |o| ensures 0 < o[j] < |h| && h[o[j]].value.Some? {
      if j >= i {
        assert o[j] == order[j + 1];
      }
    }
    forall j1, j2 | 0 <= j1 < j2 < |o| ensures Apart(o, j1, j2) {
      assert o[j2] == if j2 < i then order[j2] else order[j2 + 1];
      if j2 < i {
        assert Apart(order, j1, j2);
      } else if j1 < i {
        assert Apart(order, j1, j2 + 1);
      } else {
        assert Apart(order, j1 + 1, j2 + 1);
      }
    }
  }

  lemma RemoveValues<T>(heap: seq<Node<T>>, order: seq<nat>, i: nat, h: seq<Node<T>>, o: seq<nat>)
    requires Slots(heap, order) && IsRemoval(order, i, o) && Slots(h, o)
    requires |h| == |heap| && forall s :: 0 <= s < |heap| ==> h[s].value == heap[s].value
    ensures Values(h, o) == Values(heap, order)[..i] + Values(heap, order)[i + 1..]
  {
    var vs := Values(heap, order);
    var ws := Values(h, o);
    forall j | 0 <= j < |o| ensures ws[j] == (vs[..i] + vs[i + 1..])[j] {
      if j < i {
        assert o[j] == order[j];
      } else {
        assert o[j] == order[j + 1];
      }
    }
  }

  /** The links of a node other than the removed one, at ring position `r`
      (the removed node is at ring position `i + 1`). */
  lemma UnsplicedAt<T>(heap: seq<Node<T>>, order: seq<nat>, i: nat, h: seq<Node<T>>, r: nat)
    requires Linked(heap, order) && i < |order| && Unspliced(heap, order[i], h)
    requires r <= |order| && r != i + 1
    ensures h[At(order, r)].next == if r == i then At(order, Succ(|order|, i + 1)) else At(order, Succ(|order|, r))
    ensures h[At(order, r)].prev == if r == Succ(|order|, i + 1) then At(order, i) else At(order, Pred(|order|, r))
  {
    var n := |order|;
    var x := At(order, r);
    assert order[i] == At(order, i + 1);
    assert heap[order[i]] == Link(heap, order, i + 1);
    assert heap[x] == Link(heap, order, r);
    if r != i {
      AtDistinct(heap, order, r, i);
    }
    if r != Succ(n, i + 1) {
      AtDistinct(heap, order, r, Succ(n, i + 1));
    }
  }

  /** The ring of `o` at a position up to the removed node's predecessor. */
  lemma RemoveLinkBefore<T>(heap: seq<Node<T>>, order: seq<nat>, i: nat, h: seq<Node<T>>, o: seq<nat>, r: nat)
    requires Linked(heap, order) && IsRemoval(order, i, o) && Unspliced(heap, order[i], h)
    requires r <= i
    ensures h[At(o, r)].next == At(o, Succ(|o|, r)) && h[At(o, r)].prev == At(o, Pred(|o|, r))
  {
    AtRemoved(order, i, o, r);
    AtRemoved(order, i, o, Succ(|o|, r));
    AtRemoved(order, i, o, Pred(|o|, r));
    UnsplicedAt(heap, order, i, h, r);
  }

  /** The ring of `o` at a position behind the removed node. */
  lemma RemoveLinkAfter<T>(heap: seq<Node<T>>, order: seq<nat>, i: nat, h: seq<Node<T>>, o: seq<nat>, r: nat)
    requires Linked(heap, order) && IsRemoval(order, i, o) && Unspliced(heap, order[i], h)
    requires i < r <= |o|
    ensures h[At(o, r)].next == At(o, Succ(|o|, r)) && h[At(o, r)].prev == At(o, Pred(|o|, r))
  {
    AtRemoved(order, i, o, r);
    AtRemoved(order, i, o, Succ(|o|, r));
    AtRemoved(order, i, o, r - 1);
    UnsplicedAt(heap, order, i, h, r + 1);
  }

  /** `remove` of the real node at index `i` makes the ring lose exactly
      that node and its value. */
  lemma RemoveLinked<T>(heap: seq<Node<T>>, order: seq<nat>, i: nat, o: seq<nat>)
    requires Linked(heap, order) && IsRemoval(order, i, o)
    ensures order[i] < |heap| && heap[order[i]].prev < |heap| && heap[order[i]].next < |heap|
    ensures Linked(RemoveNode(heap, order[i]), o)
    ensures Values(RemoveNode(heap, order[i]), o) == Values(heap, order)[..i] + Values(heap, order)[i + 1..]
  {
    assert heap[order[i]] == Link(heap, order, i + 1);
    var h := RemoveNode(heap, order[i]);
    RemoveSlots(heap, order, i, h, o);
    forall r | 0 <= r <= |o|
      ensures Link(h, o, r).next == At(o, Succ(|o|, r)) && Link(h, o, r).prev == At(o, Pred(|o|, r))
    {
      if r <= i {
        RemoveLinkBefore(heap, order, i, h, o, r);
      } else {
        RemoveLinkAfter(heap, order, i, h, o, r);
      }
    }
    RemoveValues(heap, order, i, h, o);
  }

  /** Overwriting the value of the real node at index `i` keeps the ring
      and changes just that value. */
  lemma SetLinked<T>(heap: seq<Node<T>>, order: seq<nat>, i: nat, v: T)
    requires Linked(heap, order) && i < |order|
    ensures var h := heap[order[i] := heap[order[i]].(value := Some(v))];
            Linked(h, order) && Values(h, order) == Values(heap, order)[i := v]
  {
    var h := heap[order[i] := heap[order[i]].(value := Some(v))];
    assert forall s :: 0 <= s < |heap| ==> h[s].next == heap[s].next && h[s].prev == heap[s].prev;
    forall k | 0 <= k < |order| && k != i
      ensures Values(h, order)[k] == Values(heap, order)[k]
    {
      if k < i {
        assert Apart(order, k, i);
      } else {
        assert Apart(order, i, k);
      }
    }
    assert Values(h, order) == Values(heap, order)[i := v];
  }
}
