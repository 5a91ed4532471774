/**
 The generic singly-linked list with head and tail references and a count.
 Nodes live on the heap; the ghost fields `Contents` (the values head to
 tail), `Nodes` (the node objects head to tail) and `Repr` (every object the
 list owns) describe the chain, and `Valid()` ties them to `head`, `tail`,
 `count` and the `next` links.
 */
module SinglyLinkedList {
  import ListSpec
  import Rendering

  /** The only failure the list signals: reading the first element of an empty list. */
  datatype Error = InvalidOperation(message: string)

  datatype Result<T> = Success(value: T) | Failure(error: Error)

  /** One link of the chain: an immutable value and a mutable successor. */
  class Node<T> {
    const value: T
    var next: Node?<T>

    constructor (value: T)
      ensures this.value == value && next == null
    {
      this.value := value;
      next := null;
    }

    /** The node's text: its value wrapped in braces. */
    function ToString(show: T -> string): (r: string)
      ensures |r| == |show(value)| + 2
      ensures r[0] == '{' && r[|r| - 1] == '}' && r[1..|r| - 1] == show(value)
    {
      Rendering.Braced(show, value)
    }
  }

  class LinkedList<T(==)> {
    var head: Node?<T>
    var tail: Node?<T>
    var count: nat

    ghost var Contents: seq<T>
    ghost var Nodes: seq<Node<T>>
    ghost var Repr: set<object>

    /**
     The list invariant: `count` is the chain length, head and tail are null
     together exactly when the list is empty, `Nodes` is the chain from `head`
     along `next`, and `tail` is its last node, whose `next` is null. That
     no node occurs twice (the chain is acyclic) follows; see NodesDistinct.
     */
    ghost predicate Valid()
      reads this, Repr
    {
      && this in Repr
      && |Nodes| == |Contents| == count
      && (forall i :: 0 <= i < |Nodes| ==> Nodes[i] in Repr)
      && (forall i :: 0 <= i < |Nodes| ==> Nodes[i].value == Contents[i])
      && (forall i :: 0 <= i < |Nodes| - 1 ==> Nodes[i].next == Nodes[i + 1])
      && (count == 0 ==> head == null && tail == null)
      && (count > 0 ==> head == Nodes[0] && tail == Nodes[count - 1] && tail.next == null)
    }

    /** Two positions holding the same node hold the same node `d` links further on. */
    lemma {:induction false} SameNodeSameSuffix(i: nat, j: nat, d: nat)
      requires Valid() && i < j && j + d < |Nodes|
      ensures Nodes[i] == Nodes[j] ==> Nodes[i + d] == Nodes[j + d]
      decreases d
    {
      if d > 0 {
        SameNodeSameSuffix(i, j, d - 1);
        assert Nodes[i + d] == Nodes[i + d - 1].next;
        assert Nodes[j + d] == Nodes[j + d - 1].next;
      }
    }

    /** The chain is acyclic: no node occurs at two positions. */
    lemma NodesDistinct()
      requires Valid()
      ensures forall i, j :: 0 <= i < j < |Nodes| ==> Nodes[i] != Nodes[j]
    {
      forall i, j | 0 <= i < j < |Nodes|
        ensures Nodes[i] != Nodes[j]
      {
        var d := |Nodes| - 1 - j;
        SameNodeSameSuffix(i, j, d);
        assert Nodes[i + d].next == Nodes[i + d + 1];
      }
    }

    constructor ()
      ensures Valid() && fresh(Repr)
      ensures Contents == [] && count == 0 && head == null && tail == null
    {
      head := null;
      tail := null;
      count := 0;
      Contents := [];
      Nodes := [];
      Repr := {this};
    }

    /** The value at the head, or the empty-list error. */
    function First(): (r: Result<T>)
      reads this, Repr
      requires Valid()
      ensures r.Failure? <==> |Contents| == 0
      ensures r.Success? ==> r.value == Contents[0]
      ensures r.Failure? ==> r.error == InvalidOperation("List is empty")
    {
      if head == null then Failure(InvalidOperation("List is empty"))
      else Success(head.value)
    }

    /** Whether some element equals `v`. */
    method Contains(v: T) returns (b: bool)
      requires Valid()
      ensures b <==> v in Contents
    {
      var n := Find(v);
      b := n != null;
    }

    /** The first node, head to tail, whose value equals `v`, or null. */
    method Find(v: T) returns (n: Node?<T>)
      requires Valid()
      ensures n == null <==> v !in Contents
      ensures n != null ==> n == Nodes[ListSpec.IndexOf(Contents, v)] && n.value == v
    {
      var current := head;
      ghost var i := 0;
      while current != null
        invariant 0 <= i <= |Nodes|
        invariant current == if i < |Nodes| then Nodes[i] else null
        invariant v !in Contents[..i]
        decreases |Nodes| - i
      {
        if current.value == v {
          ListSpec.IndexOfUnique(Contents, v, i);
          return current;
        }
        assert Contents[..i + 1] == Contents[..i] + [Contents[i]];
        current := current.next;
        i := i + 1;
      }
      assert Contents[..i] == Contents;
      return null;
    }

    /** Puts `v` in front of the current head. */
    method AddFirst(v: T)
      requires Valid()
      modifies Repr
      ensures Valid() && fresh(Repr - old(Repr))
      ensures Contents == [v] + old(Contents)
      ensures count == old(count) + 1
      ensures head != null && fresh(head) && head.next == old(head)
      ensures Nodes == [head] + old(Nodes)
      ensures old(tail) == null ==> tail == head
      ensures old(tail) != null ==> tail == old(tail)
    {
      var n := new Node(v);
      n.next := head;
      head := n;
      if tail == null {
        tail := n;
      }
      count := count + 1;
      Contents := [v] + Contents;
      Nodes := [n] + Nodes;
      Repr := Repr + {n};
    }

    /** Links `v` after the current tail, or makes it the only node. */
    method AddLast(v: T)
      requires Valid()
      modifies Repr
      ensures Valid() && fresh(Repr - old(Repr))
      ensures Contents == old(Contents) + [v]
      ensures count == old(count) + 1
      ensures tail != null && fresh(tail)
      ensures Nodes == old(Nodes) + [tail]
      ensures old(head) == null ==> head == tail
      ensures old(head) != null ==> head == old(head) && old(tail).next == tail
    {
      var n := new Node(v);
      if head == null {
        head := n;
        tail := n;
      } else {
        tail.next := n;
        tail := n;
      }
      count := count + 1;
      Contents := Contents + [v];
      Nodes := Nodes + [n];
      Repr := Repr + {n};
    }

    /**
     Removes the first node, head to tail, whose value equals `v`, repairing
     `head` and `tail` when the removed node was at either end, and reports
     whether anything was removed.
     */
    method Remove(v: T) returns (removed: bool)
      requires Valid()
      modifies Repr
      ensures Valid() && Repr <= old(Repr)
      ensures removed <==> v in old(Contents)
      ensures Contents == ListSpec.RemoveFirst(old(Contents), v)
      ensures count == if removed then old(count) - 1 else old(count)
      ensures !removed ==> unchanged(Repr) && Repr == old(Repr)
      ensures removed ==>
                var k := ListSpec.IndexOf(old(Contents), v);
                Nodes == old(Nodes)[..k] + old(Nodes)[k + 1..]
      ensures removed && old(count) == 1 ==> head == null && tail == null
      ensures removed && old(count) > 1 && ListSpec.IndexOf(old(Contents), v) == old(count) - 1 ==>
                tail == old(Nodes)[old(count) - 2]
    {
      if head == null {
        return false;
      }
      if head.value == v {
        removed := RemoveAtHead(v);
      } else {
        removed := RemoveAfterHead(v);
      }
    }

    /** Remove when the head holds `v`: advance `head`, and clear `tail` if the list empties. */
    method RemoveAtHead(v: T) returns (removed: bool)
      requires Valid() && count > 0 && Contents[0] == v
      modifies Repr
      ensures Valid() && Repr <= old(Repr)
      ensures removed && v in old(Contents)
      ensures Contents == ListSpec.RemoveFirst(old(Contents), v)
      ensures count == old(count) - 1
      ensures var k := ListSpec.IndexOf(old(Contents), v);
              Nodes == old(Nodes)[..k] + old(Nodes)[k + 1..]
      ensures old(count) == 1 ==> head == null && tail == null
      ensures old(count) > 1 ==> head == old(Nodes)[1] && tail == old(tail)
    {
      ghost var s, ns := Contents, Nodes;
      UnlinkHead();
      ListSpec.RemoveFirstAt(s, v, 0);
      ListSpec.CutFirst(ns);
      removed := true;
    }

    /** Remove when the head does not hold `v`: scan for the predecessor and splice. */
    method RemoveAfterHead(v: T) returns (removed: bool)
      requires Valid() && count > 0 && Contents[0] != v
      modifies Repr
      ensures Valid() && Repr <= old(Repr)
      ensures removed <==> v in old(Contents)
      ensures Contents == ListSpec.RemoveFirst(old(Contents), v)
      ensures count == if removed then old(count) - 1 else old(count)
      ensures !removed ==> unchanged(Repr) && Repr == old(Repr)
      ensures removed ==>
                var k := ListSpec.IndexOf(old(Contents), v);
                Nodes == old(Nodes)[..k] + old(Nodes)[k + 1..]
      ensures head == old(head)
      ensures removed && ListSpec.IndexOf(old(Contents), v) == old(count) - 1 ==>
                tail == old(Nodes)[old(count) - 2]
    {
      ghost var s := Contents;
      var current, i := FindPredecessor(v);
      if current.next == null {
        ListSpec.FullPrefix(s);
        return false;
      }
      ListSpec.RemoveFirstAt(s, v, i + 1);
      UnlinkAfter(current, i);
      return true;
    }

    /**
     Scans from the head for the node whose successor holds `v`; when no
     successor does, stops at the tail. The head itself is not examined.
     */
    method FindPredecessor(v: T) returns (current: Node<T>, ghost i: nat)
      requires Valid() && count > 0 && Contents[0] != v
      ensures i < |Nodes| && current == Nodes[i]
      ensures v !in Contents[..i + 1]
      ensures current.next == null <==> i + 1 == |Nodes|
      ensures current.next != null ==> current.next.value == v
    {
      current := head;
      i := 0;
      while current.next != null && current.next.value != v
        invariant i < |Nodes| && current == Nodes[i]
        invariant v !in Contents[..i + 1]
        decreases |Nodes| - i
      {
        assert Contents[..i + 2] == Contents[..i + 1] + [Contents[i + 1]];
        current := current.next;
        i := i + 1;
      }
    }

    /** Advances `head` past the first node; clears `tail` when the list becomes empty. */
    method UnlinkHead()
      requires Valid() && count > 0
      modifies this
      ensures Valid() && Repr == old(Repr)
      ensures Contents == old(Contents)[1..] && Nodes == old(Nodes)[1..]
      ensures count == old(count) - 1
      ensures head == old(head).next
      ensures count == 0 ==> head == null && tail == null
      ensures count > 0 ==> tail == old(tail)
    {
      head := head.next;
      count := count - 1;
      if head == null {
        tail := null;
      }
      Contents := Contents[1..];
      Nodes := Nodes[1..];
    }

    /**
     Splices out the successor of `pred`, the node at position `i`, and makes
     `pred` the tail when the removed node was the tail.
     */
    method UnlinkAfter(pred: Node<T>, ghost i: nat)
      requires Valid() && i + 1 < |Nodes| && pred == Nodes[i]
      modifies Repr
      ensures Valid() && Repr == old(Repr)
      ensures Contents == old(Contents)[..i + 1] + old(Contents)[i + 2..]
      ensures Nodes == old(Nodes)[..i + 1] + old(Nodes)[i + 2..]
      ensures count == old(count) - 1
      ensures head == old(head)
      ensures i + 2 == old(count) ==> tail == pred
      ensures i + 2 < old(count) ==> tail == old(tail)
    {
      NodesDistinct();
      var victim := pred.next;
      assert victim == Nodes[i + 1];
      pred.next := victim.next;
      assert i + 2 < |Nodes| ==> pred.next == Nodes[i + 2];
      assert forall j :: 0 <= j < |Nodes| && j != i ==> Nodes[j] != pred;
      if pred.next == null {
        tail := pred;
      }
      count := count - 1;
      Contents := Contents[..i + 1] + Contents[i + 2..];
      Nodes := Nodes[..i + 1] + Nodes[i + 2..];
    }

    /** Drops the whole chain at once. */
    method Clear()
      modifies this
      ensures Valid() && Repr == {this}
      ensures Contents == [] && count == 0 && head == null && tail == null
    {
      head := null;
      tail := null;
      count := 0;
      Contents := [];
      Nodes := [];
      Repr := {this};
    }

    /** The list's text: "[]" when empty, else "[{v1}, {v2}, ...]" head to tail. */
    method ToString(show: T -> string) returns (s: string)
      requires Valid()
      ensures s == Rendering.Render(show, Contents)
    {
      if count == 0 {
        return "[]";
      }
      var sb := "[";
      var current := head;
      ghost var i := 0;
      while current != null
        invariant 0 <= i <= |Nodes|
        invariant current == if i < |Nodes| then Nodes[i] else null
        invariant sb == Rendering.Opened(show, Contents, i)
        decreases |Nodes| - i
      {
        var text := current.ToString(show);
        current := current.next;
        i := i + 1;
        sb := sb + text;
        if current != null {
          sb := sb + ", ";
        }
        Rendering.OpenedStep(show, Contents, i - 1);
      }
      sb := sb + "]";
      Rendering.OpenedDone(show, Contents);
      s := sb;
    }
  }
}
