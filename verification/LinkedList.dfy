/** The kernel's doubly linked list, in place: each operation against the sequence of its values. */
module LinkedList {

  predicate Distinct<N(==)>(s: seq<N>) { forall i, j | 0 <= i < j < |s| :: s[i] != s[j] }

  lemma OnlyAt<N>(s: seq<N>, k: nat)
    requires Distinct(s) && k < |s|
    ensures forall i | 0 <= i < |s| && i != k :: s[i] != s[k]
  {
  }

  function Put<N>(s: seq<N>, k: nat, x: N): seq<N>
    requires k <= |s|
  {
    s[..k] + [x] + s[k..]
  }

  lemma PutIs<N>(s: seq<N>, k: nat, x: N)
    requires k <= |s|
    ensures var t := Put(s, k, x);
            && |t| == |s| + 1 && t[k] == x
            && (forall i | 0 <= i < k :: t[i] == s[i])
            && (forall i | k < i < |t| :: t[i] == s[i - 1])
            && (Distinct(s) && x !in s ==> Distinct(t))
  {
  }

  lemma PutAtEnd<N>(s: seq<N>, x: N)
    ensures Put(s, |s|, x) == s + [x]
  {
  }

  function Drop<N>(s: seq<N>, k: nat): seq<N>
    requires k < |s|
  {
    s[..k] + s[k + 1..]
  }

  lemma DropIs<N>(s: seq<N>, k: nat)
    requires k < |s|
    ensures var t := Drop(s, k);
            && |t| == |s| - 1
            && (forall i | 0 <= i < k :: t[i] == s[i])
            && (forall i | k <= i < |t| :: t[i] == s[i + 1])
            && (Distinct(s) ==> Distinct(t))
  {
  }

  class ListNode<T(==)> {
    const value: T
    var next: ListNode?<T>
    var prev: ListNode?<T>

    constructor (value: T)
      ensures this.value == value && next == null && prev == null
    {
      this.value, next, prev := value, null, null;
    }
  }

  ghost function Values<T>(nodes: seq<ListNode<T>>): (s: seq<T>)
    ensures |s| == |nodes|
    ensures forall i | 0 <= i < |nodes| :: s[i] == nodes[i].value
  {
    seq(|nodes|, i requires 0 <= i < |nodes| => nodes[i].value)
  }

  lemma ValuesPut<T>(nodes: seq<ListNode<T>>, k: nat, node: ListNode<T>)
    requires k <= |nodes|
    ensures Values(Put(nodes, k, node)) == Put(Values(nodes), k, node.value)
  {
  }

  lemma ValuesDrop<T>(nodes: seq<ListNode<T>>, k: nat)
    requires k < |nodes|
    ensures Values(Drop(nodes, k)) == Drop(Values(nodes), k)
  {
  }

  class List<T(==)> {
    var head: ListNode?<T>
    var tail: ListNode?<T>
    var length: nat
    ghost var nodes: seq<ListNode<T>>  // the nodes that are linked, from the head on
    ghost var repr: set<object>        // every node it may write

    ghost function NodeAt(i: int): ListNode?<T>
      reads this
    {
      if 0 <= i < |nodes| then nodes[i] else null
    }

    ghost predicate LinkedAt(i: nat)
      requires i < |nodes|
      reads this, repr
    {
      nodes[i] in repr && nodes[i].prev == NodeAt(i - 1) && nodes[i].next == NodeAt(i + 1)
    }

    /** The links run through distinct nodes, mutually inverse, from the head to the tail. */
    ghost predicate Linked()
      reads this, repr
    {
      && head == NodeAt(0) && tail == NodeAt(|nodes| - 1)
      && Distinct(nodes)
      && (forall i | 0 <= i < |nodes| :: LinkedAt(i))
    }

    /** And the length counts them. */
    ghost predicate Valid()
      reads this, repr
    {
      Linked() && length == |nodes|
    }

    ghost function Contents(): (s: seq<T>)
      reads this
      ensures |s| == |nodes|
    {
      Values(nodes)
    }

    /** `list_create` */
    constructor ()
      ensures Valid() && Contents() == [] && repr == {}
    {
      head, tail, length, nodes, repr := null, null, 0, [], {};
    }

    lemma HeadIs()
      requires Linked()
      ensures head == null <==> nodes == []
      ensures nodes != [] ==> head == nodes[0] && head.value == Contents()[0]
    {
    }

    /** `list_append` */
    method Append(value: T)
      requires Linked()
      modifies this, repr
      ensures Linked() && length == old(length) + 1
      ensures Contents() == old(Contents()) + [value]
      ensures fresh(repr - old(repr))
    {
      hide Distinct, Put, Drop, Values;
      if nodes != [] { OnlyAt(nodes, |nodes| - 1); }
      var node := new ListNode(value);
      node.prev := tail;
      if tail != null {
        assert LinkedAt(|nodes| - 1);
        tail.next := node;
      } else {
        head := node;
      }
      tail := node;
      length := length + 1;
      PutIs(nodes, |nodes|, node);
      ValuesPut(nodes, |nodes|, node);
      PutAtEnd(nodes, node);
      PutAtEnd(Values(nodes), value);
      nodes, repr := nodes + [node], repr + {node};
      forall i | 0 <= i < |nodes| ensures LinkedAt(i) {
        if i < |nodes| - 1 { assert old(LinkedAt(i)); }
      }
    }

    /** `list_find` */
    method Find(value: T) returns (node: ListNode?<T>)
      requires Linked()
      ensures if value in Contents() then exists i :: 0 <= i < |nodes| && node == nodes[i] && Contents()[i] == value
                                                       && value !in Contents()[..i]
              else node == null
    {
      node := head;
      ghost var i := 0;
      while node != null
        invariant 0 <= i <= |nodes| && node == NodeAt(i) && value !in Contents()[..i]
        decreases |nodes| - i
      {
        if node.value == value {
          assert Contents()[i] == value;
          return;
        }
        assert LinkedAt(i);
        assert Contents()[..i + 1] == Contents()[..i] + [Contents()[i]];
        node, i := node.next, i + 1;
      }
      assert Contents()[..i] == Contents();
    }

    /** `list_at`.  Its bound is the length it keeps, so that may not run past the last node by two. */
    method At(index: nat) returns (node: ListNode?<T>)
      requires Linked() && (index < length ==> index <= |nodes|)
      ensures node == if index < length then NodeAt(index) else null
    {
      if index >= length {
        return null;
      }
      node := head;
      for i := 0 to index
        invariant i <= |nodes| && node == NodeAt(i)
      {
        assert LinkedAt(i);
        node := node.next;
      }
    }

    /** `list_remove` of the node at `k` */
    method Remove(node: ListNode<T>, ghost k: nat)
      requires Linked() && k < |nodes| && nodes[k] == node && length > 0
      modifies this, repr
      ensures Linked() && length == old(length) - 1
      ensures nodes == Drop(old(nodes), k) && repr == old(repr)
      ensures Contents() == Drop(old(Contents()), k)
    {
      hide Distinct, Put, Drop, Values;
      assert LinkedAt(k);
      OnlyAt(nodes, k);
      if k > 0 {
        assert LinkedAt(k - 1);
        OnlyAt(nodes, k - 1);
      }
      if k + 1 < |nodes| {
        assert LinkedAt(k + 1);
        OnlyAt(nodes, k + 1);
      }
      if node == head {
        head := node.next;
      }
      if node == tail {
        tail := node.prev;
      }
      if node.prev != null {
        node.prev.next := node.next;
      }
      if node.next != null {
        node.next.prev := node.prev;
      }
      length := length - 1;
      DropIs(nodes, k);
      ValuesDrop(nodes, k);
      nodes := Drop(nodes, k);
      forall i | 0 <= i < |nodes| ensures LinkedAt(i) {
        if i < k {
          assert old(LinkedAt(i));
        } else {
          assert old(LinkedAt(i + 1));
        }
      }
    }

    /** `list_pop_front`.  On an empty list the code would follow a null pointer. */
    method PopFront() returns (value: T)
      requires Linked() && nodes != [] && length > 0
      modifies this, repr
      ensures Linked() && length == old(length) - 1
      ensures nodes == old(nodes)[1..] && repr == old(repr)
      ensures value == old(Contents())[0] && Contents() == old(Contents())[1..]
    {
      var node := head;
      value := node.value;
      Remove(node, 0);
    }

    /** `list_insert_before`: before the node at `k`, or, for null, at the end of an empty list.
        For null and a list that is not empty, the new node is counted but never linked. */
    method InsertBefore(after: ListNode?<T>, value: T, ghost k: nat)
      requires Linked() && k <= |nodes| && after == NodeAt(k)
      modifies this, repr
      ensures Linked() && length == old(length) + 1
      ensures Contents() == if after == null && old(nodes) != [] then old(Contents())
                            else Put(old(Contents()), k, value)
      ensures fresh(repr - old(repr))
      ensures old(Valid()) ==> (Valid() <==> after != null || old(nodes) == [])
    {
      var node := new ListNode(value);
      node.next := after;
      if after != null {
        LinkBefore(node, after, k);
        return;
      }
      node.prev := null;
      if head == null {
        head := node;
      }
      if tail == null {
        tail := node;
      }
      length := length + 1;
      repr := repr + {node};
      if nodes == [] {
        nodes := [node];
      } else {
        forall i | 0 <= i < |nodes| ensures LinkedAt(i) { assert old(LinkedAt(i)); }
      }
    }

    /** Links a new node before the node `after`. */
    method LinkBefore(node: ListNode<T>, after: ListNode<T>, ghost k: nat)
      requires Linked() && k < |nodes| && after == nodes[k] && node !in repr && node.next == after
      modifies this, repr, node
      ensures Linked() && length == old(length) + 1 && repr == old(repr) + {node}
      ensures nodes == Put(old(nodes), k, node) && Contents() == Put(old(Contents()), k, node.value)
    {
      hide Distinct, Put, Values;
      assert LinkedAt(k);
      OnlyAt(nodes, k);
      if k > 0 {
        assert LinkedAt(k - 1);
        OnlyAt(nodes, k - 1);
      }
      forall i | 0 <= i < |nodes| ensures nodes[i] != node { assert LinkedAt(i); }
      node.prev := after.prev;
      after.prev := node;
      if node.prev != null {
        node.prev.next := node;
      }
      if head == after {
        head := node;
      }
      length := length + 1;
      PutIs(nodes, k, node);
      ValuesPut(nodes, k, node);
      nodes, repr := Put(nodes, k, node), repr + {node};
      forall i | 0 <= i < |nodes| ensures LinkedAt(i) {
        if i < k {
          assert old(LinkedAt(i));
        } else if i > k {
          assert old(LinkedAt(i - 1));
        }
      }
    }
  }
}
