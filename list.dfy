/** A doubly-linked list closed into a ring by a sentinel node `root`: an
    empty list is the root linked to itself, and root.next / root.prev are
    the first and last elements.  The ghost sequence `nodes` names the
    element nodes in order; `Repr` is the set of nodes the list owns. */
module ListModel {
  import opened RingModel

  class List<T(0)> {
    var root: Link<T>
    var size: nat
    ghost var nodes: seq<Link<T>>
    ghost var Repr: set<Link<T>>

    ghost predicate Valid()
      reads this, Repr
    {
      && root in Repr
      && (forall i :: 0 <= i < |nodes| ==> nodes[i] in Repr && nodes[i] != root)
      && Distinct(nodes)
      && size == |nodes|
      && Ring(root, nodes)
    }

    /** The values in order from Begin to End. */
    ghost function Contents(): seq<T>
      reads this, Repr
      requires Valid()
    {
      Values(nodes)
    }

    /** List(): an empty ring. */
    constructor ()
      ensures Valid() && fresh(Repr) && Contents() == []
    {
      root := new Link.Sentinel();
      size := 0;
      nodes := [];
      Repr := {root};
      new;
      Repr := {root};
    }

    /** Every node's neighbours point back at it. */
    lemma RingIsConsistent()
      requires Valid()
      ensures root.next.prev == root && root.prev.next == root
      ensures forall i :: 0 <= i < |nodes| ==> nodes[i].next.prev == nodes[i] && nodes[i].prev.next == nodes[i]
    {
      forall i | 0 <= i < |nodes|
        ensures nodes[i].next.prev == nodes[i] && nodes[i].prev.next == nodes[i]
      {
        if i > 0 {
          assert nodes[i - 1].next == nodes[i];
        }
        if i < |nodes| - 1 {
          assert nodes[i].next == nodes[i + 1];
        }
      }
    }

    /** LinkAfter(target, after): splices `after` in between target and its successor. */
    method LinkAfter(target: Link<T>, after: Link<T>)
      requires target.next != null && after != target && after != target.next
      modifies target, target.next, after
      ensures target.next == after && after.prev == target
      ensures after.next == old(target.next) && old(target.next).prev == after
      ensures old(target.next) != target ==> target.prev == old(target.prev) && old(target.next).next == old(target.next.next)
    {
      target.next.prev := after;
      after.next := target.next;
      target.next := after;
      after.prev := target;
    }

    /** Unlink(node): joins node's neighbours to each other and nulls its links. */
    method Unlink(node: Link<T>)
      requires node.prev != null && node.next != null && node.prev != node && node.next != node
      modifies node, node.prev, node.next
      ensures old(node.prev).next == old(node.next) && old(node.next).prev == old(node.prev)
      ensures old(node.prev) != old(node.next) ==>
        old(node.prev).prev == old(node.prev.prev) && old(node.next).next == old(node.next.next)
      ensures node.prev == null && node.next == null
    {
      node.prev.next := node.next;
      node.next.prev := node.prev;
      node.prev := null;
      node.next := null;
    }

    /** IsEmpty(): size_ == 0, which is exactly "no elements". */
    function IsEmpty(): (r: bool)
      reads this, Repr
      requires Valid()
      ensures r <==> Contents() == []
      ensures r <==> root.next == root
    {
      size == 0
    }

    /** Size(): the number of elements. */
    function Size(): (r: nat)
      reads this, Repr
      requires Valid()
      ensures r == |Contents()|
    {
      size
    }

    /** Front(): the first element (the source does not check for emptiness). */
    function Front(): (r: T)
      reads this, Repr
      requires Valid() && size > 0
      ensures r == Contents()[0]
    {
      root.next.value
    }

    /** Back(): the last element. */
    function Back(): (r: T)
      reads this, Repr
      requires Valid() && size > 0
      ensures r == Contents()[|Contents()| - 1]
    {
      root.prev.value
    }

    /** Begin(): root.next, which is End() exactly when the list is empty. */
    function Begin(): (r: Link<T>)
      reads this, Repr
      requires Valid()
      ensures r == if nodes == [] then root else nodes[0]
    {
      root.next
    }

    /** End(): the sentinel. */
    function End(): (r: Link<T>)
      reads this
    {
      root
    }

    /** Iterator::operator++: from the node at position k to the one at
        k + 1, or to End from the last; from End (position |nodes|) round
        to Begin. */
    function Next(it: Link<T>, ghost k: nat): (r: Link<T>)
      reads this, Repr
      requires Valid() && k <= |nodes| && it == At(root, nodes, k)
      ensures k < |nodes| ==> r == if k + 1 < |nodes| then nodes[k + 1] else root
      ensures k == |nodes| ==> r == Begin()
    {
      it.next
    }

    /** Iterator::operator*: the value held by the node at position k. */
    function Deref(it: Link<T>, ghost k: nat): (r: T)
      reads this, Repr
      requires Valid() && k < |nodes| && it == nodes[k]
      ensures r == Contents()[k]
    {
      it.value
    }

    /** Iterator::operator--: from the node at position k to the one at
        k - 1, or to the root from the first; from End (position |nodes|)
        back to the last node. */
    function Prev(it: Link<T>, ghost k: nat): (r: Link<T>)
      reads this, Repr
      requires Valid() && k <= |nodes| && it == At(root, nodes, k)
      ensures r == if k > 0 then nodes[k - 1] else root
    {
      it.prev
    }

    /** Links a new node in at position k, after the node at position k - 1:
        the shared body of PushBack and PushFront. */
    method InsertAt(target: Link<T>, ghost k: nat, node: Link<T>)
      requires Valid() && k <= |nodes| && target == At(root, nodes, k - 1)
      requires node !in Repr && node.prev == null && node.next == null
      modifies this, Repr, node
      ensures Valid() && Repr == old(Repr) + {node} && root == old(root)
      ensures nodes == old(nodes[..k]) + [node] + old(nodes[k..])
    {
      ghost var before := nodes;
      ghost var successor := At(root, nodes, k);
      InsertKeepsDistinct(nodes, k, node);
      size := size + 1;
      nodes := nodes[..k] + [node] + nodes[k..];
      Repr := Repr + {node};
      forall i | 0 <= i < |nodes|
        ensures nodes[i] in Repr && nodes[i] != root
      {
        if i != k {
          assert nodes[i] == before[if i < k then i else i - 1];
        }
      }
      LinkAfter(target, node);
      forall j {:trigger before[j].next} | 0 <= j < |before| && j != k - 1
        ensures before[j].next == At(root, before, j + 1)
      {
        assert before[j] != target && before[j] != node;
      }
      forall j {:trigger before[j].prev} | 0 <= j < |before| && j != k
        ensures before[j].prev == At(root, before, j - 1)
      {
        assert before[j] != successor && before[j] != node;
      }
      assert target == At(root, before, k - 1) && successor == At(root, before, k);
      assert target.next == node && node.prev == target;
      assert node.next == successor && successor.prev == node;
      assert k != 0 ==> root.next == At(root, before, 0);
      if k != |before| {
        assert root != successor;
        if k == 0 {
          assert root == target;
        }
      }
      assert k <= |before| && Distinct(before) && node != root;
      assert forall j :: 0 <= j < |before| ==> before[j] != root && before[j] != node;
      RingAfterInsert(root, before, k, node);
    }

    /** Unlinks and frees the node at position k: the shared body of PopBack,
        PopFront and Erase. */
    method RemoveAt(node: Link<T>, ghost k: nat)
      requires Valid() && k < |nodes| && node == nodes[k]
      modifies this, Repr
      ensures Valid() && Repr == old(Repr) - {node} && root == old(root)
      ensures nodes == old(nodes[..k]) + old(nodes[k + 1..])
    {
      ghost var before := nodes;
      ghost var predecessor := At(root, nodes, k - 1);
      ghost var successor := At(root, nodes, k + 1);
      RemoveKeepsDistinct(nodes, k);
      size := size - 1;
      nodes := nodes[..k] + nodes[k + 1..];
      Repr := Repr - {node};
      forall i | 0 <= i < |nodes|
        ensures nodes[i] in Repr && nodes[i] != root
      {
        assert nodes[i] == before[if i < k then i else i + 1];
      }
      Unlink(node);
      forall j {:trigger before[j].next} | 0 <= j < |before| && j != k - 1 && j != k
        ensures before[j].next == At(root, before, j + 1)
      {
        assert before[j] != predecessor && before[j] != node;
      }
      forall j {:trigger before[j].prev} | 0 <= j < |before| && j != k + 1 && j != k
        ensures before[j].prev == At(root, before, j - 1)
      {
        assert before[j] != successor && before[j] != node;
      }
      assert predecessor.next == successor && successor.prev == predecessor;
      if k != 0 {
        assert root != predecessor;
      }
      if k != |before| - 1 {
        assert root != successor;
      }
      RingAfterRemove(root, before, k);
    }

    /** PushBack(value): links a new node after the last one. */
    method PushBack(value: T)
      requires Valid()
      modifies this, Repr
      ensures Valid() && fresh(Repr - old(Repr)) && root == old(root)
      ensures Contents() == old(Contents()) + [value]
      ensures Back() == value
    {
      var node := new Link(value);
      InsertAt(root.prev, |nodes|, node);
    }

    /** PushFront(value): links a new node after the root. */
    method PushFront(value: T)
      requires Valid()
      modifies this, Repr
      ensures Valid() && fresh(Repr - old(Repr)) && root == old(root)
      ensures Contents() == [value] + old(Contents())
      ensures Front() == value
    {
      var node := new Link(value);
      InsertAt(root, 0, node);
    }

    /** PopBack(): unlinks and frees the last node; the list must not be empty. */
    method PopBack()
      requires Valid() && size > 0
      modifies this, Repr
      ensures Valid() && Repr <= old(Repr) && root == old(root)
      ensures Contents() == old(Contents())[..old(size) - 1]
    {
      RemoveAt(root.prev, |nodes| - 1);
    }

    /** PopFront(): unlinks and frees the first node; the list must not be empty. */
    method PopFront()
      requires Valid() && size > 0
      modifies this, Repr
      ensures Valid() && Repr <= old(Repr) && root == old(root)
      ensures Contents() == old(Contents())[1..]
    {
      RemoveAt(root.next, 0);
    }

    /** Erase(it): unlinks and frees the node `it`, at position k. */
    method Erase(it: Link<T>, ghost k: nat)
      requires Valid() && k < |nodes| && it == nodes[k]
      modifies this, Repr
      ensures Valid() && Repr <= old(Repr) && root == old(root)
      ensures Contents() == old(Contents())[..k] + old(Contents())[k + 1..]
    {
      RemoveAt(it, k);
    }

    /** ~List(): pops from the back until empty (deleting the root is not modelled). */
    method Destroy()
      requires Valid()
      modifies this, Repr
      ensures Valid() && Contents() == [] && nodes == [] && root == old(root) && Repr <= old(Repr)
    {
      while size > 0
        invariant Valid() && Repr <= old(Repr) && root == old(root)
        decreases size
      {
        PopBack();
      }
    }

    /** List(const List&): a fresh list built by PushBack over the source from Begin to End. */
    constructor Copy(other: List<T>)
      requires other.Valid()
      ensures Valid() && fresh(Repr) && Contents() == other.Contents()
    {
      root := new Link.Sentinel();
      size := 0;
      nodes := [];
      Repr := {root};
      new;
      var current := other.root.next;
      ghost var k := 0;
      while current != other.root
        invariant Valid() && fresh(Repr) && Ring(other.root, other.nodes)
        invariant 0 <= k <= |other.nodes| && current == At(other.root, other.nodes, k)
        invariant Contents() == Values(other.nodes)[..k]
        decreases |other.nodes| - k
      {
        assert Values(other.nodes)[..k + 1] == Values(other.nodes)[..k] + [current.value];
        PushBack(current.value);
        current := current.next;
        k := k + 1;
      }
    }

    /** List(List&&): takes over the source's ring; the source gets a fresh empty ring. */
    constructor Move(other: List<T>)
      requires other.Valid()
      modifies other
      ensures Valid() && Repr == old(other.Repr) && Contents() == old(other.Contents())
      ensures other.Valid() && fresh(other.Repr) && other.Contents() == []
    {
      root, size, nodes, Repr := other.root, other.size, other.nodes, other.Repr;
      new;
      var sentinel := new Link.Sentinel();
      other.root, other.size, other.nodes, other.Repr := sentinel, 0, [], {sentinel};
    }

    /** Swap: exchanges the roots and sizes. */
    method Swap(other: List<T>)
      modifies this, other
      ensures root == old(other.root) && size == old(other.size) && nodes == old(other.nodes) && Repr == old(other.Repr)
      ensures other.root == old(root) && other.size == old(size) && other.nodes == old(nodes) && other.Repr == old(Repr)
    {
      root, other.root := other.root, root;
      size, other.size := other.size, size;
      nodes, other.nodes := other.nodes, nodes;
      Repr, other.Repr := other.Repr, Repr;
    }

    /** operator=(const List&): copy, then swap with the copy. */
    method CopyAssign(other: List<T>)
      requires Valid() && other.Valid()
      modifies this
      ensures Valid() && fresh(Repr) && Contents() == old(other.Contents())
    {
      var tmp := new List.Copy(other);
      Swap(tmp);
    }

    /** operator=(List&&): destroys this list's elements, takes over the
        source's ring and gives the source a fresh empty ring.  Moving a list
        into itself leaves it empty. */
    method MoveAssign(other: List<T>)
      requires Valid() && other.Valid() && (other == this || Repr !! other.Repr)
      modifies this, Repr, other
      ensures Valid() && other.Valid()
      ensures other != this ==> Contents() == old(other.Contents()) && other.Contents() == [] && fresh(other.Repr)
      ensures other == this ==> Contents() == []
    {
      Destroy();
      Adopt(other);
    }

    /** The second half of operator=(List&&): takes the source's root and
        size, then gives the source a fresh empty ring. */
    method Adopt(other: List<T>)
      requires other.Valid()
      modifies this, other
      ensures other != this ==> root == old(other.root) && size == old(other.size)
      ensures other != this ==> nodes == old(other.nodes) && Repr == old(other.Repr)
      ensures other.Valid() && fresh(other.Repr) && other.Contents() == []
    {
      root, size, nodes, Repr := other.root, other.size, other.nodes, other.Repr;
      var sentinel := new Link.Sentinel();
      other.root, other.size, other.nodes, other.Repr := sentinel, 0, [], {sentinel};
    }
  }
}
