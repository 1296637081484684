/** The intrusive circular list (`struct wl_list`) that every compositor module keeps its
    objects on.  A `Link` stands for the list member together with the structure it is
    embedded in, whose other fields are `data`; the list head is a link like any other. */
module WlList {
  import opened Prelude

  class Link<P> {
    var prev: Link<P>
    var next: Link<P>
    var data: P
    /** Whether `free` has been called on the enclosing structure. */
    ghost var freed: bool

    /** `wl_list_init` on freshly allocated memory. */
    constructor (data: P)
      ensures prev == this && next == this && this.data == data && !freed
    {
      this.prev, this.next, this.data := this, this, data;
      freed := false;
    }

    /** `free`: calling it twice on one structure is an error. */
    method Free()
      requires !freed
      modifies this`freed
      ensures freed
    {
      freed := true;
    }
  }

  /** Following `next` from `r[0]` visits exactly `r`, in order, and comes back; `prev` is the
      inverse; nothing on the ring has been freed. */
  ghost predicate Ring<P>(r: seq<Link<P>>)
    reads r
  {
    && |r| > 0 && Distinct(r)
    && (forall i {:trigger r[i].freed} :: 0 <= i < |r| ==> !r[i].freed)
    && (forall i {:trigger r[i].next} :: 0 <= i < |r| - 1 ==> r[i].next == r[i + 1])
    && (forall i {:trigger r[i].prev} :: 1 <= i < |r| ==> r[i].prev == r[i - 1])
    && r[|r| - 1].next == r[0] && r[0].prev == r[|r| - 1]
  }

  ghost function InsertedAfter<T>(r: seq<T>, k: nat, x: T): seq<T>
    requires k < |r|
  {
    r[..k + 1] + [x] + r[k + 1..]
  }

  ghost function RemovedAt<T>(r: seq<T>, k: nat): seq<T>
    requires k < |r|
  {
    r[..k] + r[k + 1..]
  }

  /** `wl_list_insert(list, elm)`: `elm` becomes the successor of `list`. */
  method Insert<P>(list: Link<P>, elm: Link<P>, ghost ring: seq<Link<P>>, ghost k: nat)
    requires Ring(ring) && k < |ring| && ring[k] == list
    requires elm !in ring && !elm.freed
    modifies list`next, list.next`prev, elm`prev, elm`next
    ensures Ring(InsertedAfter(ring, k, elm))
  {
    assert list.next == if k + 1 < |ring| then ring[k + 1] else ring[0];
    elm.prev := list;
    elm.next := list.next;
    list.next := elm;
    elm.next.prev := elm;
  }

  /** `wl_list_remove(elm)`: the neighbours are joined and `elm` is linked to itself. */
  method Remove<P>(elm: Link<P>, ghost ring: seq<Link<P>>, ghost k: nat)
    requires Ring(ring) && 0 < k < |ring| && ring[k] == elm
    modifies elm.prev`next, elm.next`prev, elm`prev, elm`next
    ensures Ring(RemovedAt(ring, k)) && Ring([elm])
  {
    assert elm.prev == ring[k - 1];
    assert elm.next == if k + 1 < |ring| then ring[k + 1] else ring[0];
    elm.prev.next := elm.next;
    elm.next.prev := elm.prev;
    elm.prev := elm;
    elm.next := elm;
  }

  /** `wl_list_insert(head.prev, elm)`: append at the tail. */
  method Append<P>(head: Link<P>, elm: Link<P>, ghost ring: seq<Link<P>>)
    requires Ring(ring) && ring[0] == head
    requires elm !in ring && !elm.freed
    modifies head.prev`next, head`prev, elm`prev, elm`next
    ensures Ring(ring + [elm])
  {
    assert head.prev == ring[|ring| - 1];
    Insert(head.prev, elm, ring, |ring| - 1);
    assert InsertedAfter(ring, |ring| - 1, elm) == ring + [elm];
  }

  /** The list behind `head` is `list`, and what its structures hold is `held`. */
  ghost predicate Listed<P>(head: Link<P>, list: seq<Link<P>>, held: map<Link<P>, P>)
    reads head, list
  {
    && Ring([head] + list)
    && held.Keys == Elems(list)
    && forall l | l in held :: held[l] == l.data
  }

  /** The `k`th structure from the front; the head again behind the last. */
  ghost function Nth<P>(head: Link<P>, list: seq<Link<P>>, k: nat): Link<P>
    requires k <= |list|
  {
    if k < |list| then list[k] else head
  }

  /** What `wl_list_for_each` relies on. */
  lemma Iteration<P>(head: Link<P>, list: seq<Link<P>>, k: nat)
    requires Ring([head] + list) && k <= |list|
    ensures head.next == Nth(head, list, 0)
    ensures k < |list| ==> list[k] != head && list[k].next == Nth(head, list, k + 1)
  {
    var ring := [head] + list;
    assert ring[0].next == if |ring| > 1 then ring[1] else ring[0];
    if k < |list| {
      assert ring[k + 1] == list[k];
      assert ring[k + 1].next == if k + 2 < |ring| then ring[k + 2] else ring[0];
    }
  }

  /** `wl_list_insert` of a structure behind the head. */
  method PushFront<P>(head: Link<P>, elm: Link<P>, ghost list: seq<Link<P>>, ghost held: map<Link<P>, P>)
    requires Listed(head, list, held)
    requires elm != head && elm !in list && !elm.freed
    modifies head`next, head.next`prev, elm`prev, elm`next
    ensures Listed(head, [elm] + list, held[elm := elm.data])
  {
    Insert(head, elm, [head] + list, 0);
    assert InsertedAfter([head] + list, 0, elm) == [head] + ([elm] + list);
  }

  lemma DistinctBehind<T>(head: T, list: seq<T>)
    requires Distinct([head] + list)
    ensures Distinct(list) && head !in list
  {
    var ring := [head] + list;
    assert forall i :: 0 <= i < |list| ==> list[i] == ring[i + 1];
    assert forall i :: 0 <= i < |list| ==> ring[0] != list[i];
  }

  lemma RemovedBehind<T>(head: T, list: seq<T>, k: nat)
    requires k < |list|
    ensures RemovedAt([head] + list, k + 1) == [head] + RemovedAt(list, k)
  {
    var ring := [head] + list;
    assert ring[..k + 1] == [head] + list[..k] && ring[k + 2..] == list[k + 1..];
  }

  lemma RemovedFromRing<T>(head: T, list: seq<T>, k: nat)
    requires Distinct(list) && k < |list|
    ensures RemovedAt([head] + list, k + 1) == [head] + Without(list, list[k])
  {
    WithoutAt(list, k);
    RemovedBehind(head, list, k);
  }

  /** `wl_list_remove` of a listed structure. */
  method Delete<P>(elm: Link<P>, ghost head: Link<P>, ghost list: seq<Link<P>>, ghost held: map<Link<P>, P>)
    requires Listed(head, list, held) && elm in list
    modifies elm.prev`next, elm.next`prev, elm`prev, elm`next
    ensures Listed(head, Without(list, elm), held - {elm}) && Ring([elm])
    ensures elm != head && elm !in Without(list, elm)
  {
    ghost var k :| 0 <= k < |list| && list[k] == elm;
    DistinctBehind(head, list);
    RemovedFromRing(head, list, k);
    WithoutElems(list, elm);
    WithoutFacts(list, elm);
    Remove(elm, [head] + list, k + 1);
  }

  method FreeUnlisted<P>(elm: Link<P>, ghost ring: seq<Link<P>>)
    requires Ring(ring) && elm !in ring && !elm.freed
    modifies elm`freed
    ensures Ring(ring) && elm.freed
  {
    elm.Free();
  }

  lemma Neighbours<P>(elm: Link<P>, head: Link<P>, list: seq<Link<P>>)
    requires Ring([head] + list) && elm in [head] + list
    ensures elm.prev in [head] + list && elm.next in [head] + list
  {
    var ring := [head] + list;
    var k :| 0 <= k < |ring| && ring[k] == elm;
    assert elm.prev == if k > 0 then ring[k - 1] else ring[|ring| - 1];
    assert elm.next == if k + 1 < |ring| then ring[k + 1] else ring[0];
  }

  /** Remove and free, as the destroy handlers do. */
  method Discard<P>(elm: Link<P>, ghost head: Link<P>, ghost list: seq<Link<P>>, ghost held: map<Link<P>, P>)
    requires Listed(head, list, held) && elm in list
    modifies head, list
    ensures Listed(head, Without(list, elm), held - {elm})
    ensures elm.freed
  {
    Neighbours(elm, head, list);
    Delete(elm, head, list, held);
    FreeUnlisted(elm, [head] + Without(list, elm));
  }

  /** Remove then insert behind the head: what focusing does to the recency list. */
  method MoveToFront<P>(head: Link<P>, elm: Link<P>, ghost list: seq<Link<P>>, ghost held: map<Link<P>, P>)
    requires Listed(head, list, held) && elm in list
    modifies head, list
    ensures Listed(head, [elm] + Without(list, elm), held)
    ensures forall l | l in held :: l.freed == old(l.freed)
  {
    Neighbours(elm, head, list);
    Delete(elm, head, list, held);
    Neighbours(head, head, Without(list, elm));
    PushFront(head, elm, Without(list, elm), held - {elm});
    assert (held - {elm})[elm := elm.data] == held;
  }

  /** One round of the drain loop: unlink the first structure and free it. */
  method DetachFirst<P>(head: Link<P>, pos: Link<P>, ghost ring: seq<Link<P>>)
    requires Ring(ring) && |ring| > 1 && head == ring[0] && pos == ring[1]
    modifies head`next, pos.next`prev, pos`prev, pos`next, pos`freed
    ensures Ring([head] + ring[2..])
    ensures pos.freed && pos.prev == pos == pos.next
  {
    assert pos.prev == head;
    Remove(pos, ring, 1);
    assert RemovedAt(ring, 1) == [head] + ring[2..];
    pos.Free();
  }

  /** `wl_list_for_each_safe` with remove and free in its body.  Every structure on the list is
      freed (`Free` refuses a second time), nothing freed is read again, and an empty list is
      left. */
  method Drain<P>(head: Link<P>, ghost list: seq<Link<P>>)
    requires Ring([head] + list)
    modifies head, list
    ensures Ring([head])
    ensures forall l <- list :: l.freed && l.prev == l == l.next
  {
    Iteration(head, list, 0);
    var pos := head.next;
    var tmp := pos.next;
    ghost var k: nat := 0;
    while pos != head
      invariant k <= |list| && Ring([head] + list[k..])
      invariant pos == Nth(head, list, k) && tmp == pos.next
      invariant forall i :: 0 <= i < k ==> list[i].freed && list[i].prev == list[i] == list[i].next
      decreases |list| - k
    {
      ghost var rest := [head] + list[k..];
      Iteration(head, list[k..], 0);
      assert rest[1] == pos && tmp == Nth(head, list, k + 1);
      assert rest[2..] == list[k + 1..];
      DetachFirst(head, pos, rest);
      k := k + 1;
      pos := tmp;
      assert !pos.freed;
      tmp := pos.next;
    }
    assert [head] + list[k..] == [head];
  }
}
