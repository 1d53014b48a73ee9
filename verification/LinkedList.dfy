/** Singly linked lists of heap nodes (libwzd-base/list.c). */
module LinkedList {
  class Node<T> {
    var data: T
    var next: Node?<T>

    constructor (data: T, next: Node?<T>)
      ensures this.data == data && this.next == next
    {
      this.data, this.next := data, next;
    }
  }

  /** Node `i` of a chain, NULL past its end. */
  function NodeAt<T>(spine: seq<Node<T>>, i: nat): Node?<T> { if i < |spine| then spine[i] else null }

  /** The nodes are distinct and each points to the next one. */
  ghost predicate Linked<T>(spine: seq<Node<T>>)
    reads spine
  {
    Distinct(spine) && forall i :: 0 <= i < |spine| ==> spine[i].next == NodeAt(spine, i + 1)
  }

  ghost function Contents<T>(spine: seq<Node<T>>): (r: seq<T>)
    reads spine
    ensures |r| == |spine| && forall i :: 0 <= i < |spine| ==> r[i] == spine[i].data
  {
    seq(|spine|, i requires 0 <= i < |spine| reads spine => spine[i].data)
  }

  /** `e` after the first `p` elements. */
  function InsertAt<T>(s: seq<T>, p: nat, e: T): seq<T>
    requires p <= |s|
  {
    s[..p] + [e] + s[p..]
  }

  function RemoveAt<T>(s: seq<T>, p: nat): seq<T>
    requires p < |s|
  {
    s[..p] + s[p + 1..]
  }

  /** The element that list_ins_next and list_rem_next take for place `at`. */
  function Before<T>(spine: seq<Node<T>>, at: nat): Node?<T>
    requires at <= |spine|
  {
    if at == 0 then null else spine[at - 1]
  }

  ghost predicate Distinct<T>(spine: seq<Node<T>>) { forall i, j :: 0 <= i < j < |spine| ==> spine[i] != spine[j] }

  /** Every node points to the next one, except perhaps the one before place `at`. */
  ghost predicate LinkedBut<T>(spine: seq<Node<T>>, at: nat)
    reads spine
  {
    Distinct(spine) && forall i :: 0 <= i < |spine| && i + 1 != at ==> spine[i].next == NodeAt(spine, i + 1)
  }

  /** A node put between two others. */
  lemma Relinked<T>(spine: seq<Node<T>>, at: nat, node: Node<T>)
    requires at <= |spine| && LinkedBut(spine, at) && node !in spine
    requires node.next == NodeAt(spine, at) && (at > 0 ==> spine[at - 1].next == node)
    ensures Linked(InsertAt(spine, at, node))
  {
    var r := InsertAt(spine, at, node);
    DistinctInsert(spine, at, node);
    forall i | 0 <= i < |r| ensures r[i].next == NodeAt(r, i + 1) {
      if i < at - 1 {
        assert r[i] == spine[i] && r[i + 1] == spine[i + 1];
      } else if i > at {
        assert r[i] == spine[i - 1];
      }
    }
  }

  lemma DistinctInsert<T>(spine: seq<Node<T>>, at: nat, node: Node<T>)
    requires at <= |spine| && Distinct(spine) && node !in spine
    ensures Distinct(InsertAt(spine, at, node))
  {
    var r := InsertAt(spine, at, node);
    forall i, j | 0 <= i < j < |r| ensures r[i] != r[j] {
      var i', j' := if i < at then i else i - 1, if j < at then j else j - 1;
      if i != at && j != at { assert spine[i'] != spine[j']; }
    }
  }

  /** A node left out. */
  lemma Unlinked<T>(spine: seq<Node<T>>, at: nat)
    requires at < |spine| && LinkedBut(spine, at) && (at > 0 ==> spine[at - 1].next == NodeAt(spine, at + 1))
    ensures Linked(RemoveAt(spine, at))
  {
    var r := RemoveAt(spine, at);
    forall i | 0 <= i < |r| ensures r[i].next == NodeAt(r, i + 1) {
      if i < at { assert r[i] == spine[i]; } else { assert r[i] == spine[i + 1]; }
    }
  }

  lemma InsertEnds<T>(s: seq<T>, p: nat, e: T)
    requires p <= |s|
    ensures var r := InsertAt(s, p, e);
      |r| == |s| + 1 && r[p] == e && r[0] == (if p == 0 then e else s[0]) &&
        r[|s|] == if p == |s| then e else s[|s| - 1]
  {
  }

  lemma RemoveEnds<T>(s: seq<T>, p: nat)
    requires p < |s|
    ensures var r := RemoveAt(s, p);
      |r| == |s| - 1 && (r != [] ==> r[0] == s[if p == 0 then 1 else 0]) &&
      (r != [] ==> r[|r| - 1] == s[if p == |s| - 1 then |s| - 2 else |s| - 1])
  {
  }

  lemma ContentsInsert<T>(spine: seq<Node<T>>, at: nat, node: Node<T>, was: seq<T>)
    requires at <= |spine| && Contents(spine) == was
    ensures Contents(InsertAt(spine, at, node)) == InsertAt(was, at, node.data)
  {
  }

  lemma ContentsRemove<T>(spine: seq<Node<T>>, at: nat, was: seq<T>)
    requires at < |spine| && Contents(spine) == was
    ensures Contents(RemoveAt(spine, at)) == RemoveAt(was, at)
  {
  }

  /** Puts a node after another one. */
  method LinkAfter<T>(element: Node<T>, node: Node<T>, ghost spine: seq<Node<T>>, ghost at: nat)
    requires 0 < at <= |spine| && Linked(spine) && element == spine[at - 1] && node !in spine
    modifies element`next, node`next
    ensures Linked(InsertAt(spine, at, node))
    ensures Contents(InsertAt(spine, at, node)) == InsertAt(old(Contents(spine)), at, node.data)
  {
    node.next := element.next;
    element.next := node;
    assert LinkedBut(spine, at);
    Relinked(spine, at, node);
    assert Contents(spine) == old(Contents(spine));
    ContentsInsert(spine, at, node, old(Contents(spine)));
  }

  /** Puts a node before the head. */
  method LinkHead<T>(head: Node?<T>, node: Node<T>, ghost spine: seq<Node<T>>)
    requires Linked(spine) && head == NodeAt(spine, 0) && node !in spine
    modifies node`next
    ensures Linked(InsertAt(spine, 0, node))
    ensures Contents(InsertAt(spine, 0, node)) == InsertAt(old(Contents(spine)), 0, node.data)
  {
    node.next := head;
    Relinked(spine, 0, node);
    ContentsInsert(spine, 0, node, old(Contents(spine)));
  }

  /** Leaves out the node after another one. */
  method UnlinkAfter<T>(element: Node<T>, ghost spine: seq<Node<T>>, ghost at: nat)
    requires 0 < at < |spine| && Linked(spine) && element == spine[at - 1]
    modifies element`next
    ensures Linked(RemoveAt(spine, at)) && Contents(RemoveAt(spine, at)) == RemoveAt(old(Contents(spine)), at)
    ensures element.next == NodeAt(spine, at + 1)
  {
    element.next := element.next.next;
    assert LinkedBut(spine, at);
    Unlinked(spine, at);
    assert Contents(spine) == old(Contents(spine));
    ContentsRemove(spine, at, old(Contents(spine)));
  }

  lemma UnlinkHead<T>(spine: seq<Node<T>>)
    requires spine != [] && Linked(spine)
    ensures Linked(RemoveAt(spine, 0)) && Contents(RemoveAt(spine, 0)) == RemoveAt(Contents(spine), 0)
    ensures spine[0].next == NodeAt(RemoveAt(spine, 0), 0)
  {
    Unlinked(spine, 0);
    ContentsRemove(spine, 0, Contents(spine));
  }

  class List<T> {
    var size: nat
    var head: Node?<T>
    var tail: Node?<T>
    ghost var spine: seq<Node<T>>

    /** `head` and `tail` are the ends of a chain of `size` nodes. */
    ghost predicate Valid()
      reads this, spine
    {
      Linked(spine) && size == |spine| && head == NodeAt(spine, 0) && tail == Before(spine, |spine|)
    }

    /** list_init. */
    constructor ()
      ensures Valid() && spine == []
    {
      size, head, tail, spine := 0, null, null, [];
    }

    lemma NextOf(at: nat)
      requires Valid() && 0 < at <= |spine|
      ensures spine[at - 1].next == NodeAt(spine, at)
    {
    }

    /** list_ins_next: a new node after `element`, or at the head. */
    method InsNext(element: Node?<T>, data: T, ghost at: nat)
      requires Valid() && at <= |spine| && element == Before(spine, at)
      modifies this, spine
      ensures Valid() && |spine| == |old(spine)| + 1 && fresh(spine[at]) && spine == InsertAt(old(spine), at, spine[at])
      ensures Contents(spine) == InsertAt(old(Contents(spine)), at, data)
    {
      hide InsertAt, Contents, Linked, Distinct;
      var node := new Node(data, null);
      ghost var was := spine;
      InsertEnds(spine, at, node);
      if element == null {
        if size == 0 {
          tail := node;
        }
        LinkHead(head, node, was);
        head := node;
      } else {
        NextOf(at);
        if element.next == null {
          tail := node;
        }
        LinkAfter(element, node, was, at);
      }
      size := size + 1;
      spine := InsertAt(was, at, node);
    }

    /** list_rem_next: unlinks the node after `element`, or the head. It fails when there
        is none. */
    method RemNext(element: Node?<T>, ghost at: nat) returns (ret: int, removed: Node?<T>)
      requires Valid() && at <= |spine| && element == Before(spine, at)
      modifies this, spine
      ensures Valid() && ret == if at < |old(spine)| then 0 else -1
      ensures at == |old(spine)| ==> spine == old(spine) && Contents(spine) == old(Contents(spine)) && removed == null
      ensures at < |old(spine)| ==>
        spine == RemoveAt(old(spine), at) && removed == old(spine)[at] &&
          Contents(spine) == RemoveAt(old(Contents(spine)), at)
    {
      hide RemoveAt, Contents, Linked, Distinct;
      removed := null;
      if size == 0 {
        return -1, null;
      }
      if at < |spine| { RemoveEnds(spine, at); }
      ghost var was := spine;
      if element == null {
        UnlinkHead(spine);
        removed := head;
        head := head.next;
        if size == 1 {
          tail := null;
        }
      } else {
        NextOf(at);
        if element.next == null {
          return -1, null;
        }
        removed := element.next;
        UnlinkAfter(element, was, at);
        if element.next == null {
          tail := element;
        }
      }
      size := size - 1;
      spine := RemoveAt(was, at);
      ret := 0;
    }
  }
}
