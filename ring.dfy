/** Circular doubly-linked rings of `Link` objects, shared by the owning list
    and the intrusive list: a root and a sequence of nodes form a ring when
    each node's next is the following position and its prev the preceding one,
    wrapping round through the root. */
module RingModel {

  /** A node of a circular doubly-linked list: BaseNode and Node<T> of the
      owning list, and ListHook (with the element that derives from it) of the
      intrusive list.  `value` is what the node carries; a root carries one
      too, which no operation reads. */
  class Link<T(0)> {
    var prev: Link?<T>
    var next: Link?<T>
    const value: T

    /** new Node(value), or a ListHook as constructed: unlinked. */
    constructor (value: T)
      ensures this.value == value && prev == null && next == null
    {
      this.value := value;
      prev := null;
      next := null;
    }

    /** ListHook(): both links null (the root of an intrusive list, which
        is not an element, has no value of its own). */
    constructor Unlinked()
      ensures prev == null && next == null
    {
      prev := null;
      next := null;
    }

    /** new BaseNode{} linked to itself, as a fresh root. */
    constructor Sentinel()
      ensures prev == this && next == this
    {
      new;
      prev := this;
      next := this;
    }

    /** ListHook::IsLinked: either link is set. */
    predicate IsLinked()
      reads this
    {
      next != null || prev != null
    }

    /** ListHook::Unlink: joins whichever neighbours there are to each other
        and clears both links; on an unlinked hook it changes nothing. */
    method Unlink()
      modifies this, prev, next
      ensures next == null && prev == null && !IsLinked()
      ensures old(prev) != null && old(prev) != this ==> old(prev).next == old(next)
      ensures old(next) != null && old(next) != this ==> old(next).prev == old(prev)
      ensures old(prev) != null && old(prev) != this && old(prev) != old(next) ==> old(prev).prev == old(prev.prev)
      ensures old(next) != null && old(next) != this && old(prev) != old(next) ==> old(next).next == old(next.next)
      ensures !old(IsLinked()) ==> unchanged(this)
    {
      if prev != null {
        prev.next := next;
      }
      if next != null {
        next.prev := prev;
      }
      next := null;
      prev := null;
    }

    /** ListHook::LinkBefore(other): puts this hook between other.prev and
        other, without first unlinking it from anywhere. */
    method LinkBefore(other: Link<T>)
      modifies this, other, other.prev
      ensures next == other && other.prev == this
      ensures other != this ==> prev == old(other.prev)
      ensures old(other.prev) != null && old(other.prev) != this ==> old(other.prev).next == this
      ensures other != this && other != old(other.prev) ==> other.next == old(other.next)
      ensures old(other.prev) != null && old(other.prev) != this && old(other.prev) != other ==>
        old(other.prev).prev == old(other.prev.prev)
    {
      if other.prev != null {
        other.prev.next := this;
      }
      prev := other.prev;
      other.prev := this;
      next := other;
    }
  }

  /** Position i of the ring root, nodes[0], ..., nodes[|nodes| - 1], where
      positions -1 and |nodes| are both the root. */
  ghost function At<T(0)>(root: Link<T>, nodes: seq<Link<T>>, i: int): Link<T>
    requires -1 <= i <= |nodes|
  {
    if 0 <= i < |nodes| then nodes[i] else root
  }

  /** The values the nodes hold, in order. */
  ghost function Values<T(0)>(nodes: seq<Link<T>>): (r: seq<T>)
    ensures |r| == |nodes| && forall i :: 0 <= i < |nodes| ==> r[i] == nodes[i].value
  {
    seq(|nodes|, i requires 0 <= i < |nodes| => nodes[i].value)
  }

  /** No node occurs twice. */
  ghost predicate Distinct<T(0)>(nodes: seq<Link<T>>)
  {
    forall i, j :: 0 <= i < j < |nodes| ==> nodes[i] != nodes[j]
  }

  /** Inserting a node that is not yet present keeps the nodes distinct. */
  lemma InsertKeepsDistinct<T(0)>(nodes: seq<Link<T>>, k: nat, node: Link<T>)
    requires Distinct(nodes) && k <= |nodes| && node !in nodes
    ensures Distinct(nodes[..k] + [node] + nodes[k..])
  {
    var after := nodes[..k] + [node] + nodes[k..];
    forall i, j | 0 <= i < j < |after|
      ensures after[i] != after[j]
    {
      var i' := if i < k then i else i - 1;
      var j' := if j <= k then j else j - 1;
      if i == k {
        assert after[j] == nodes[j'];
      } else if j == k {
        assert after[i] == nodes[i'];
      } else {
        assert after[i] == nodes[i'] && after[j] == nodes[j'];
      }
    }
  }

  /** Removing one node keeps the rest distinct, and the removed one is gone. */
  lemma RemoveKeepsDistinct<T(0)>(nodes: seq<Link<T>>, k: nat)
    requires Distinct(nodes) && k < |nodes|
    ensures Distinct(nodes[..k] + nodes[k + 1..])
    ensures nodes[k] !in nodes[..k] + nodes[k + 1..]
  {
    var after := nodes[..k] + nodes[k + 1..];
    forall i, j | 0 <= i < j < |after|
      ensures after[i] != after[j]
    {
      var i' := if i < k then i else i + 1;
      var j' := if j < k then j else j + 1;
      assert after[i] == nodes[i'] && after[j] == nodes[j'];
    }
    forall i | 0 <= i < |after|
      ensures after[i] != nodes[k]
    {
      var i' := if i < k then i else i + 1;
      assert after[i] == nodes[i'];
    }
  }

  /** The ring root, nodes[0], ..., nodes[|nodes| - 1]: each node's next is
      the following position and its prev the preceding one, wrapping round
      through the root. */
  ghost predicate Ring<T(0)>(root: Link<T>, nodes: seq<Link<T>>)
    reads root, nodes
  {
    && root.next == At(root, nodes, 0)
    && root.prev == At(root, nodes, |nodes| - 1)
    && (forall i {:trigger nodes[i].next} :: 0 <= i < |nodes| ==> nodes[i].next == At(root, nodes, i + 1))
    && (forall i {:trigger nodes[i].prev} :: 0 <= i < |nodes| ==> nodes[i].prev == At(root, nodes, i - 1))
  }

  /** Every hook of a ring, the root included, is linked. */
  lemma RingIsLinked<T(0)>(root: Link<T>, nodes: seq<Link<T>>)
    requires Ring(root, nodes)
    ensures root.IsLinked()
    ensures forall i :: 0 <= i < |nodes| ==> nodes[i].IsLinked()
  {
  }

  /** Linking `node` in at position k, between target = At(k - 1) and
      successor = At(k), rewrites four links; every other link of the ring
      is as it was, and the result is the ring with `node` inserted. */
  lemma RingAfterInsert<T(0)>(root: Link<T>, before: seq<Link<T>>, k: nat, node: Link<T>)
    requires k <= |before| && Distinct(before) && node != root
    requires forall j :: 0 <= j < |before| ==> before[j] != root && before[j] != node
    requires At(root, before, k - 1).next == node && node.prev == At(root, before, k - 1)
    requires node.next == At(root, before, k) && At(root, before, k).prev == node
    requires forall j {:trigger before[j].next} :: 0 <= j < |before| && j != k - 1 ==> before[j].next == At(root, before, j + 1)
    requires forall j {:trigger before[j].prev} :: 0 <= j < |before| && j != k ==> before[j].prev == At(root, before, j - 1)
    requires k != 0 ==> root.next == At(root, before, 0)
    requires k != |before| ==> root.prev == At(root, before, |before| - 1)
    ensures Ring(root, before[..k] + [node] + before[k..])
  {
    var after := before[..k] + [node] + before[k..];
    forall i | 0 <= i < |after|
      ensures after[i].next == At(root, after, i + 1) && after[i].prev == At(root, after, i - 1)
    {
      if i < k {
        assert after[i] == before[i];
        if i > 0 {
          assert after[i - 1] == before[i - 1];
        }
        if i + 1 < k {
          assert after[i + 1] == before[i + 1];
        }
      } else if i > k {
        assert after[i] == before[i - 1];
        if i - 1 > k {
          assert after[i - 1] == before[i - 2];
        }
        if i + 1 < |after| {
          assert after[i + 1] == before[i];
        }
      } else {
        if k > 0 {
          assert after[k - 1] == before[k - 1];
        }
        if k + 1 < |after| {
          assert after[k + 1] == before[k];
        }
      }
    }
  }

  /** Unlinking the node at position k joins predecessor = At(k - 1) and
      successor = At(k + 1); every other link of the ring is as it was, and
      the result is the ring without that node. */
  lemma RingAfterRemove<T(0)>(root: Link<T>, before: seq<Link<T>>, k: nat)
    requires k < |before| && Distinct(before)
    requires forall j :: 0 <= j < |before| ==> before[j] != root
    requires At(root, before, k - 1).next == At(root, before, k + 1)
    requires At(root, before, k + 1).prev == At(root, before, k - 1)
    requires forall j {:trigger before[j].next} :: 0 <= j < |before| && j != k - 1 && j != k ==> before[j].next == At(root, before, j + 1)
    requires forall j {:trigger before[j].prev} :: 0 <= j < |before| && j != k + 1 && j != k ==> before[j].prev == At(root, before, j - 1)
    requires k != 0 ==> root.next == At(root, before, 0)
    requires k != |before| - 1 ==> root.prev == At(root, before, |before| - 1)
    ensures Ring(root, before[..k] + before[k + 1..])
  {
    var after := before[..k] + before[k + 1..];
    forall i | 0 <= i < |after|
      ensures after[i].next == At(root, after, i + 1)
    {
      if i < k - 1 {
        assert after[i] == before[i] && after[i + 1] == before[i + 1];
      } else if i == k - 1 {
        assert after[i] == before[i];
        if i + 1 < |after| {
          assert after[i + 1] == before[i + 2];
        }
      } else {
        assert after[i] == before[i + 1];
        if i + 1 < |after| {
          assert after[i + 1] == before[i + 2];
        }
      }
    }
    forall i | 0 <= i < |after|
      ensures after[i].prev == At(root, after, i - 1)
    {
      if i < k {
        assert after[i] == before[i];
        if i > 0 {
          assert after[i - 1] == before[i - 1];
        }
      } else if i == k {
        assert after[i] == before[i + 1];
        if i > 0 {
          assert after[i - 1] == before[i - 1];
        }
      } else {
        assert after[i] == before[i + 1] && after[i - 1] == before[i];
      }
    }
  }
}
