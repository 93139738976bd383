/**
 * The singly linked list of linked-list.rb: a `LinkedList` object owning a
 * chain of `Node` objects, each holding a value and a mutable `next`
 * reference. Where a Ruby method walks the chain (`find`, `append`,
 * `remove`, `length`, `to_s`), the Dafny method walks it with the same
 * cursor loop; `has_value` and `insert_after` walk it only through `Find`,
 * and `prepend` does not walk it. `InsertAfter`, `Remove` and `ToString` are
 * proved against the sequence functions of ListSpec; `Prepend`, `Append`,
 * `Find`, `HasValue` and `Length` are stated directly on `Contents`.
 */
module LinkedLists {
  import ListSpec

  /** One link of the chain: a value and the node after it, or null for the last one. */
  class Node<T> {
    var value: T
    var next: Node?<T>

    constructor (next: Node?<T>, value: T)
      ensures this.next == next && this.value == value
    {
      this.next := next;
      this.value := value;
    }
  }

  /**
   * A chain in which each node's `next` is the node after it and the last
   * node's `next` is null has no node twice: it is acyclic.
   */
  lemma ChainIsAcyclic<T>(nodes: seq<Node<T>>)
    requires forall i :: 0 <= i < |nodes| - 1 ==> nodes[i].next == nodes[i + 1]
    requires nodes != [] ==> nodes[|nodes| - 1].next == null
    ensures forall i, j :: 0 <= i < j < |nodes| ==> nodes[i] != nodes[j]
  {
    forall i, j | 0 <= i < j < |nodes|
      ensures nodes[i] != nodes[j]
    {
      DistinctFrom(nodes, i, j);
    }
  }

  /** Two positions of such a chain hold different nodes: their distances to the null end differ. */
  lemma {:induction false} DistinctFrom<T>(nodes: seq<Node<T>>, i: nat, j: nat)
    requires forall i :: 0 <= i < |nodes| - 1 ==> nodes[i].next == nodes[i + 1]
    requires nodes != [] ==> nodes[|nodes| - 1].next == null
    requires i < j < |nodes|
    ensures nodes[i] != nodes[j]
    decreases |nodes| - j
  {
    assert nodes[i].next == nodes[i + 1];
    if j + 1 < |nodes| {
      assert nodes[j].next == nodes[j + 1];
      DistinctFrom(nodes, i + 1, j + 1);
    } else {
      assert nodes[j].next == null;
    }
  }

  /**
   * `after` is the chain `before`, whose nodes hold `values`, with the node
   * holding the first occurrence of `target` taken out; `before` itself
   * when no node holds `target`.
   */
  ghost predicate RemovedFirst<T>(before: seq<Node<T>>, values: seq<T>, target: T, after: seq<Node<T>>)
    requires |values| == |before|
  {
    var i := ListSpec.IndexOf(values, target);
    if i < |values| then after == before[..i] + before[i + 1..] else after == before
  }

  class LinkedList<T(==)> {
    /** The head node, or null once `remove` has taken out the only node. */
    var first: Node?<T>

    /** The nodes of the chain in traversal order from `first`. */
    ghost var nodes: seq<Node<T>>
    /** The values the list holds, in traversal order. */
    ghost var Contents: seq<T>
    /** The objects the list is made of: itself and its nodes (nodes unlinked by `remove` may remain). */
    ghost var Repr: set<object>

    /**
     * The object invariant: `first` starts the chain `nodes`, each node's
     * `next` is the node after it and the last node's `next` is null, and
     * the nodes hold `Contents`.
     */
    ghost predicate Valid()
      reads this, Repr
      ensures Valid() ==> this in Repr
    {
      && this in Repr
      && (forall i :: 0 <= i < |nodes| ==> nodes[i] in Repr)
      && first == (if nodes == [] then null else nodes[0])
      && (forall i :: 0 <= i < |nodes| - 1 ==> nodes[i].next == nodes[i + 1])
      && (nodes != [] ==> nodes[|nodes| - 1].next == null)
      && |Contents| == |nodes|
      && (forall i :: 0 <= i < |nodes| ==> nodes[i].value == Contents[i])
    }

    /** `LinkedList.new(value)`: a list of one node holding `value`. */
    constructor (value: T)
      ensures Valid() && fresh(Repr)
      ensures Contents == [value]
      ensures first != null && nodes == [first]
    {
      var node := new Node(null, value);
      first := node;
      nodes := [node];
      Contents := [value];
      Repr := {this, node};
    }

    /** Puts a new node holding `value` in front of the head; returns the list itself. */
    method Prepend(value: T) returns (r: LinkedList<T>)
      requires Valid()
      modifies this
      ensures Valid() && fresh(Repr - old(Repr))
      ensures Contents == [value] + old(Contents)
      ensures first != null && fresh(first) && nodes == [first] + old(nodes)
      ensures r == this
    {
      var node := new Node(first, value);
      first := node;
      nodes := [node] + nodes;
      assert forall i :: 1 <= i < |nodes| ==> nodes[i] == old(nodes)[i - 1];
      Contents := [value] + Contents;
      Repr := Repr + {node};
      r := this;
    }

    /**
     * Walks to the node whose `next` is null and links a new node holding
     * `value` after it; returns the list itself. Only that last node is
     * changed. The walk dereferences `first`, so the list must not be empty.
     */
    method Append(value: T) returns (r: LinkedList<T>)
      requires Valid() && first != null
      modifies this, nodes[|nodes| - 1]
      ensures Valid() && fresh(Repr - old(Repr))
      ensures Contents == old(Contents) + [value]
      ensures |nodes| == |old(nodes)| + 1 && nodes[..|old(nodes)|] == old(nodes) && fresh(nodes[|old(nodes)|])
      ensures r == this
    {
      ChainIsAcyclic(nodes);
      var current := first;
      ghost var k := 0;
      while current.next != null
        invariant 0 <= k < |nodes| && current == nodes[k]
        invariant current.next == if k + 1 < |nodes| then nodes[k + 1] else null
        decreases |nodes| - k
      {
        current := current.next;
        k := k + 1;
      }
      var node := new Node(null, value);
      current.next := node;
      nodes := nodes + [node];
      Contents := Contents + [value];
      Repr := Repr + {node};
      r := this;
    }

    /**
     * The first node, in traversal order, whose value is `target`, or null
     * when no node holds it.
     */
    method Find(target: T) returns (r: Node?<T>)
      requires Valid()
      ensures r == null <==> target !in Contents
      ensures r != null ==> ListSpec.IndexOf(Contents, target) < |nodes| && r == nodes[ListSpec.IndexOf(Contents, target)]
      ensures r != null ==> r.value == target
    {
      var current := first;
      ghost var k := 0;
      while current != null
        invariant 0 <= k <= |nodes|
        invariant current == if k < |nodes| then nodes[k] else null
        invariant target !in Contents[..k]
        decreases |nodes| - k
      {
        if current.value == target {
          return current;
        }
        current := current.next;
        k := k + 1;
      }
      assert Contents[..k] == Contents;
      return null;
    }

    /** Whether some node holds `target`. */
    method HasValue(target: T) returns (b: bool)
      requires Valid()
      ensures b <==> target in Contents
    {
      var node := Find(target);
      if node != null {
        return true;
      }
      return false;
    }

    /**
     * Links a new node holding `value` right after the first node holding
     * `target`, in front of that node's old successor, and returns the list
     * itself; returns null and changes nothing when no node holds `target`.
     */
    method InsertAfter(target: T, value: T) returns (r: LinkedList?<T>)
      requires Valid()
      modifies Repr
      ensures Valid() && fresh(Repr - old(Repr))
      ensures r == null <==> target !in old(Contents)
      ensures r != null ==> r == this
      ensures Contents == ListSpec.InsertAfter(old(Contents), target, value)
      ensures r == null ==> nodes == old(nodes)
      ensures r != null ==>
        var i := ListSpec.IndexOf(old(Contents), target);
        && i + 1 < |nodes|
        && fresh(nodes[i + 1])
        && nodes == old(nodes)[..i + 1] + [nodes[i + 1]] + old(nodes)[i + 1..]
    {
      var prev := Find(target);
      if prev == null {
        return null;
      }
      LinkAfter(prev, ListSpec.IndexOf(Contents, target), value);
      r := this;
    }

    /**
     * `remove(target)` as written: when the head holds `target` it is
     * dropped, and then the scan unlinks the first remaining node holding
     * `target`. So a head match removes two occurrences when there is a
     * second one, and any other call removes the first occurrence. The list
     * must not be empty, and after a head match the new head must not hold
     * `target` too, since the scan would relink through a nil predecessor.
     */
    method Remove(target: T) returns (r: LinkedList<T>)
      requires Valid() && first != null
      requires ListSpec.Removable(Contents, target)
      modifies Repr
      ensures Valid() && Repr == old(Repr)
      ensures Contents == ListSpec.Remove(old(Contents), target)
      ensures old(Contents)[0] != target ==> RemovedFirst(old(nodes), old(Contents), target, nodes)
      ensures old(Contents)[0] == target ==> RemovedFirst(old(nodes)[1..], old(Contents)[1..], target, nodes)
      ensures forall n :: n in nodes ==> n in old(nodes)
      ensures r == this
    {
      if first.value == target {
        DropHead();
      }
      UnlinkFirst(target);
      r := this;
    }

    /**
     * The scan of `remove`: walks with `prev` one node behind `current` and
     * unlinks the first node holding `target` by pointing its predecessor
     * past it. The head must not hold `target`, since `prev` is still nil
     * there.
     */
    method UnlinkFirst(target: T)
      requires Valid()
      requires Contents != [] ==> Contents[0] != target
      modifies Repr
      ensures Valid() && Repr == old(Repr)
      ensures Contents == ListSpec.RemoveFirst(old(Contents), target)
      ensures RemovedFirst(old(nodes), old(Contents), target, nodes)
      ensures forall n :: n in nodes ==> n in old(nodes)
    {
      var prev: Node?<T> := null;
      var current := first;
      ghost var k := 0;
      while current != null
        invariant 0 <= k <= |nodes|
        invariant current == if k < |nodes| then nodes[k] else null
        invariant prev == if k == 0 then null else nodes[k - 1]
        invariant target !in Contents[..k]
        invariant Valid() && nodes == old(nodes) && Contents == old(Contents) && Repr == old(Repr)
        decreases |nodes| - k
      {
        if current.value == target {
          ListSpec.FirstMatchAt(Contents, target, k);
          UnlinkAfter(prev, current, k);
          return;
        }
        prev := current;
        current := current.next;
        k := k + 1;
      }
      assert Contents[..k] == Contents;
    }

    /** `@first = @first.next`: the head leaves the chain and its successor becomes `first`. */
    method DropHead()
      requires Valid() && first != null
      modifies this
      ensures Valid() && Repr == old(Repr)
      ensures nodes == old(nodes)[1..] && Contents == old(Contents)[1..]
    {
      first := first.next;
      nodes := nodes[1..];
      Contents := Contents[1..];
    }

    /**
     * `prev.next = Node.new(prev.next, value)`: links a new node holding
     * `value` between the node at position `i` and its successor.
     */
    method LinkAfter(prev: Node<T>, ghost i: nat, value: T)
      requires Valid() && i < |nodes| && nodes[i] == prev
      modifies this, prev
      ensures Valid() && fresh(Repr - old(Repr))
      ensures i + 1 < |nodes| && fresh(nodes[i + 1])
      ensures nodes == old(nodes)[..i + 1] + [nodes[i + 1]] + old(nodes)[i + 1..]
      ensures Contents == old(Contents)[..i + 1] + [value] + old(Contents)[i + 1..]
    {
      ChainIsAcyclic(nodes);
      ghost var ns, cs := nodes, Contents;
      var node := new Node(prev.next, value);
      prev.next := node;
      nodes := ns[..i + 1] + [node] + ns[i + 1..];
      Contents := cs[..i + 1] + [value] + cs[i + 1..];
      Repr := Repr + {node};
      forall j | 0 <= j < |nodes|
        ensures nodes[j] in Repr && nodes[j].value == Contents[j]
      {
        if j <= i {
          assert nodes[j] == ns[j] && Contents[j] == cs[j];
        } else if j > i + 1 {
          assert nodes[j] == ns[j - 1] && Contents[j] == cs[j - 1];
        }
      }
      forall j | 0 <= j < |nodes| - 1
        ensures nodes[j].next == nodes[j + 1]
      {
        if j < i {
          assert nodes[j] == ns[j] && nodes[j + 1] == ns[j + 1];
        } else if j == i + 1 {
          assert nodes[j + 1] == ns[i + 1];
        } else if j > i + 1 {
          assert nodes[j] == ns[j - 1] && nodes[j + 1] == ns[j];
        }
      }
    }

    /**
     * `prev.next = current.next`: points `prev`, at position `k - 1`, past
     * `current`, at position `k`, which leaves the chain.
     */
    method UnlinkAfter(prev: Node<T>, current: Node<T>, ghost k: nat)
      requires Valid() && 0 < k < |nodes| && nodes[k - 1] == prev && nodes[k] == current
      modifies this, prev
      ensures Valid() && Repr == old(Repr)
      ensures nodes == old(nodes)[..k] + old(nodes)[k + 1..]
      ensures Contents == old(Contents)[..k] + old(Contents)[k + 1..]
    {
      ChainIsAcyclic(nodes);
      ghost var ns, cs := nodes, Contents;
      prev.next := current.next;
      nodes := ns[..k] + ns[k + 1..];
      Contents := cs[..k] + cs[k + 1..];
      forall j | 0 <= j < |nodes|
        ensures nodes[j] in Repr && nodes[j].value == Contents[j]
      {
        if j < k {
          assert nodes[j] == ns[j] && Contents[j] == cs[j];
        } else {
          assert nodes[j] == ns[j + 1] && Contents[j] == cs[j + 1];
        }
      }
      forall j | 0 <= j < |nodes| - 1
        ensures nodes[j].next == nodes[j + 1]
      {
        if j < k - 1 {
          assert nodes[j] == ns[j] && nodes[j + 1] == ns[j + 1];
        } else if j == k - 1 {
          assert nodes[j + 1] == ns[k + 1];
        } else {
          assert nodes[j] == ns[j + 1] && nodes[j + 1] == ns[j + 2];
        }
      }
    }

    /** Counts the nodes from `first` to the end of the chain. */
    method Length() returns (count: nat)
      requires Valid()
      ensures count == |Contents|
    {
      count := 0;
      var current := first;
      while current != null
        invariant count <= |nodes|
        invariant current == if count < |nodes| then nodes[count] else null
        decreases |nodes| - count
      {
        count := count + 1;
        current := current.next;
      }
    }

    /**
     * Collects the values in list order and joins them with ", ", each
     * value written by `show`.
     */
    method ToString(show: T -> string) returns (s: string)
      requires Valid()
      ensures s == ListSpec.Render(Contents, show)
    {
      var values: seq<T> := [];
      var current := first;
      while current != null
        invariant |values| <= |nodes|
        invariant current == if |values| < |nodes| then nodes[|values|] else null
        invariant values == Contents[..|values|]
        decreases |nodes| - |values|
      {
        values := values + [current.value];
        current := current.next;
      }
      assert values == Contents;
      s := ListSpec.Join(ListSpec.Shown(values, show), ", ");
    }

    /**
     * The intended `remove`: takes out the first node holding `target`, on
     * any list, including an empty one and one whose two leading nodes
     * both hold `target`.
     */
    method RemoveFirstMatch(target: T) returns (r: LinkedList<T>)
      requires Valid()
      modifies Repr
      ensures Valid() && Repr == old(Repr)
      ensures Contents == ListSpec.RemoveFirst(old(Contents), target)
      ensures RemovedFirst(old(nodes), old(Contents), target, nodes)
      ensures r == this
    {
      r := this;
      if first == null {
        return;
      }
      if first.value == target {
        assert nodes[..0] + nodes[1..] == nodes[1..];
        DropHead();
        return;
      }
      UnlinkFirst(target);
    }
  }
}
