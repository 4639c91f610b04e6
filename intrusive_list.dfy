/** An intrusive doubly-linked list: the elements carry their own links (each
    element is a ListHook), the list owns only its root hook and never copies,
    moves or frees an element.  Elements are `Link` objects whose `value` is
    the element's own data; the ghost sequence `hooks` names the elements in
    order, and `Repr` is the ring's footprint: the root and the elements. */
module IntrusiveListModel {
  import opened RingModel

  class List<T(0)> {
    const root: Link<T>
    ghost var hooks: seq<Link<T>>
    ghost var Repr: set<Link<T>>

    ghost predicate Valid()
      reads this, Repr
    {
      && root in Repr
      && (forall i :: 0 <= i < |hooks| ==> hooks[i] in Repr && hooks[i] != root)
      && Distinct(hooks)
      && Ring(root, hooks)
    }

    /** List(): the root hook linked to itself. */
    constructor ()
      ensures Valid() && fresh(Repr) && hooks == []
    {
      root := new Link.Unlinked();
      hooks := [];
      Repr := {root};
      new;
      root.next := root;
      root.prev := root;
    }

    /** IsEmpty(): the root's next is the root itself, exactly when there are
        no elements. */
    function IsEmpty(): (r: bool)
      reads this, Repr
      requires Valid()
      ensures r <==> hooks == []
    {
      root.next == root
    }

    /** Size(): walks from root.next back round to the root, counting. */
    method Size() returns (size: nat)
      requires Valid()
      ensures size == |hooks|
    {
      size := 0;
      var current := root.next;
      while current != root
        invariant size <= |hooks| && current == At(root, hooks, size)
        decreases |hooks| - size
      {
        current := current.next;
        size := size + 1;
      }
    }

    /** Front(): the first element; on an empty list the source dereferences
        a failed dynamic_cast of the root. */
    function Front(): (r: Link<T>)
      reads this, Repr
      requires Valid() && hooks != []
      ensures r == hooks[0]
    {
      root.next
    }

    /** Back(): the last element. */
    function Back(): (r: Link<T>)
      reads this, Repr
      requires Valid() && hooks != []
      ensures r == hooks[|hooks| - 1]
    {
      root.prev
    }

    /** Begin(): root.next, which is End() exactly when the list is empty. */
    function Begin(): (r: Link<T>)
      reads this, Repr
      requires Valid()
      ensures r == At(root, hooks, 0)
      ensures r == End() <==> hooks == []
    {
      root.next
    }

    /** End(): the root hook. */
    function End(): (r: Link<T>)
    {
      root
    }

    /** Iterator::operator++ from position k: to position k + 1, and from
        End (position |hooks|) round to Begin. */
    function Next(it: Link<T>, ghost k: nat): (r: Link<T>)
      reads this, Repr
      requires Valid() && k <= |hooks| && it == At(root, hooks, k)
      ensures k < |hooks| ==> r == At(root, hooks, k + 1)
      ensures k == |hooks| ==> r == Begin()
    {
      it.next
    }

    /** Iterator::operator-- from position k: to position k - 1, the root
        from the first element, and from End (position |hooks|) back to the
        last element. */
    function Prev(it: Link<T>, ghost k: nat): (r: Link<T>)
      reads this, Repr
      requires Valid() && k <= |hooks| && it == At(root, hooks, k)
      ensures r == At(root, hooks, k - 1)
    {
      it.prev
    }

    /** Links `element` in at position k, before the hook now at position k:
        the shared body of PushBack and PushFront. */
    method LinkAt(element: Link<T>, successor: Link<T>, ghost k: nat)
      requires Valid() && k <= |hooks| && successor == At(root, hooks, k)
      requires element != root && forall i :: 0 <= i < |hooks| ==> hooks[i] != element
      modifies this, Repr, element
      ensures Valid() && Repr == old(Repr) + {element}
      ensures hooks == old(hooks[..k]) + [element] + old(hooks[k..])
    {
      ghost var before := hooks;
      ghost var target := At(root, hooks, k - 1);
      InsertKeepsDistinct(hooks, k, element);
      hooks := hooks[..k] + [element] + hooks[k..];
      Repr := Repr + {element};
      forall i | 0 <= i < |hooks|
        ensures hooks[i] in Repr && hooks[i] != root
      {
        if i != k {
          assert hooks[i] == before[if i < k then i else i - 1];
        }
      }
      element.LinkBefore(successor);
      forall j {:trigger before[j].next} | 0 <= j < |before| && j != k - 1
        ensures before[j].next == At(root, before, j + 1)
      {
        assert before[j] != target && before[j] != element;
      }
      forall j {:trigger before[j].prev} | 0 <= j < |before| && j != k
        ensures before[j].prev == At(root, before, j - 1)
      {
        assert before[j] != successor && before[j] != element;
      }
      assert target.next == element && element.prev == target;
      assert element.next == successor && successor.prev == element;
      if k != 0 {
        assert root != target;
      }
      if k != |before| {
        assert root != successor;
      }
      RingAfterInsert(root, before, k, element);
    }

    /** PushBack(element): links the element before the root, so it becomes
        the last one.  The element must not already be in this list. */
    method PushBack(element: Link<T>)
      requires Valid() && element != root && forall i :: 0 <= i < |hooks| ==> hooks[i] != element
      modifies this, Repr, element
      ensures Valid() && Repr == old(Repr) + {element}
      ensures hooks == old(hooks) + [element]
      ensures Back() == element
    {
      LinkAt(element, root, |hooks|);
    }

    /** PushFront(element): links the element before the first one. */
    method PushFront(element: Link<T>)
      requires Valid() && element != root && forall i :: 0 <= i < |hooks| ==> hooks[i] != element
      modifies this, Repr, element
      ensures Valid() && Repr == old(Repr) + {element}
      ensures hooks == [element] + old(hooks)
      ensures Front() == element
    {
      LinkAt(element, root.next, 0);
    }

    /** ListHook::Unlink (or ~ListHook) on the element at position k: the
        element leaves the list, whose remaining elements stay in order. */
    method UnlinkElement(element: Link<T>, ghost k: nat)
      requires Valid() && k < |hooks| && element == hooks[k]
      modifies this, Repr
      ensures Valid() && Repr == old(Repr) - {element}
      ensures hooks == old(hooks[..k]) + old(hooks[k + 1..])
      ensures !element.IsLinked()
    {
      ghost var before := hooks;
      ghost var predecessor := At(root, hooks, k - 1);
      ghost var successor := At(root, hooks, k + 1);
      RemoveKeepsDistinct(hooks, k);
      hooks := hooks[..k] + hooks[k + 1..];
      Repr := Repr - {element};
      forall i | 0 <= i < |hooks|
        ensures hooks[i] in Repr && hooks[i] != root
      {
        assert hooks[i] == before[if i < k then i else i + 1];
      }
      element.Unlink();
      forall j {:trigger before[j].next} | 0 <= j < |before| && j != k - 1 && j != k
        ensures before[j].next == At(root, before, j + 1)
      {
        assert before[j] != predecessor && before[j] != element;
      }
      forall j {:trigger before[j].prev} | 0 <= j < |before| && j != k + 1 && j != k
        ensures before[j].prev == At(root, before, j - 1)
      {
        assert before[j] != successor && before[j] != element;
      }
      assert predecessor.next == successor && successor.prev == predecessor;
      if k != 0 {
        assert root != predecessor;
      }
      if k != |before| - 1 {
        assert root != successor;
      }
      RingAfterRemove(root, before, k);
    }

    /** PopBack(): unlinks the last element; on an empty list nothing happens. */
    method PopBack()
      requires Valid()
      modifies this, Repr
      ensures Valid() && Repr <= old(Repr)
      ensures hooks == if old(hooks) == [] then [] else old(hooks[..|hooks| - 1])
      ensures old(hooks) != [] ==> !old(hooks[|hooks| - 1]).IsLinked() && old(hooks[|hooks| - 1]) !in Repr
    {
      if !IsEmpty() && root.prev != null {
        UnlinkElement(root.prev, |hooks| - 1);
      }
    }

    /** PopFront(): unlinks the first element; on an empty list nothing happens. */
    method PopFront()
      requires Valid()
      modifies this, Repr
      ensures Valid() && Repr <= old(Repr)
      ensures hooks == if old(hooks) == [] then [] else old(hooks[1..])
      ensures old(hooks) != [] ==> !old(hooks[0]).IsLinked() && old(hooks[0]) !in Repr
    {
      if !IsEmpty() && root.next != null {
        UnlinkElement(root.next, 0);
      }
    }

    /** ~List(): pops from the back until empty, then links the root to
        itself; every former element ends up unlinked. */
    method Destroy()
      requires Valid()
      modifies this, Repr
      ensures Valid() && hooks == [] && Repr <= old(Repr)
      ensures forall i :: 0 <= i < |old(hooks)| ==> !old(hooks)[i].IsLinked()
    {
      ghost var elements := hooks;
      while !IsEmpty()
        invariant Valid() && Repr <= old(Repr)
        invariant |hooks| <= |elements| && hooks == elements[..|hooks|]
        invariant forall i :: |hooks| <= i < |elements| ==> elements[i] !in Repr && !elements[i].IsLinked()
        decreases |hooks|
      {
        PopBack();
      }
      root.next := root;
      root.prev := root;
    }

    /** The relinking shared by the move constructor and move assignment:
        this root is linked in just before other's root, other's root is
        unlinked (so that this root takes its place in the ring) and then
        linked to itself.  Moving a list into itself leaves it empty. */
    method TakeOver(other: List<T>)
      requires other.Valid()
      requires other == this ==> Valid() && hooks == []
      requires other != this ==> root !in other.Repr
      modifies this, root, other, other.Repr
      ensures other.Valid() && other.hooks == [] && other.Repr == {other.root}
      ensures Valid()
      ensures other != this ==> hooks == old(other.hooks) && Repr == old(other.Repr) - {other.root} + {root}
    {
      ghost var elements := other.hooks;
      var otherRoot := other.root;
      ghost var otherRepr := other.Repr;
      ghost var n := |elements|;
      ghost var last := At(otherRoot, elements, n - 1);
      root.LinkBefore(otherRoot);
      if other != this {
        assert forall j :: 0 <= j < n ==> elements[j] != root && elements[j] != otherRoot;
        assert forall j {:trigger elements[j].next} :: 0 <= j < n - 1 ==> elements[j].next == elements[j + 1];
        assert forall j {:trigger elements[j].prev} :: 0 < j < n ==> elements[j].prev == elements[j - 1];
        assert root.next == otherRoot && otherRoot.prev == root && root.prev == last && last.next == root;
        assert otherRoot.next == At(root, elements, 0);
        assert n > 0 ==> elements[0].prev == otherRoot;
      }
      otherRoot.Unlink();
      otherRoot.next := otherRoot;
      otherRoot.prev := otherRoot;
      other.hooks := [];
      other.Repr := {otherRoot};
      if other != this {
        hooks := elements;
        Repr := otherRepr - {otherRoot} + {root};
        assert root.next == At(root, elements, 0);
        assert root.prev == At(root, elements, n - 1);
        forall i {:trigger elements[i].next} | 0 <= i < n
          ensures elements[i].next == At(root, elements, i + 1)
        {
        }
        forall i {:trigger elements[i].prev} | 0 <= i < n
          ensures elements[i].prev == At(root, elements, i - 1)
        {
        }
        assert Ring(root, hooks);
      }
    }

    /** List(List&&): an empty root takes over the other list's ring. */
    constructor Move(other: List<T>)
      requires other.Valid()
      modifies other, other.Repr
      ensures Valid() && hooks == old(other.hooks)
      ensures Repr == old(other.Repr) - {other.root} + {root} && fresh(root)
      ensures other.Valid() && other.hooks == [] && other.Repr == {other.root}
    {
      root := new Link.Unlinked();
      hooks := [];
      Repr := {root};
      new;
      TakeOver(other);
    }

    /** operator=(List&&): pops every element of this list, links the root
        to itself and takes over the other list's ring. */
    method MoveAssign(other: List<T>)
      requires Valid() && other.Valid() && (other == this || Repr !! other.Repr)
      modifies this, Repr, other, other.Repr
      ensures Valid() && other.Valid() && other.hooks == []
      ensures forall i :: 0 <= i < |old(hooks)| ==> !old(hooks)[i].IsLinked()
      ensures other != this ==> hooks == old(other.hooks)
      ensures other == this ==> hooks == []
    {
      while !IsEmpty()
        invariant Valid() && Repr <= old(Repr)
        invariant |hooks| <= |old(hooks)| && hooks == old(hooks)[..|hooks|]
        invariant forall i :: |hooks| <= i < |old(hooks)| ==> old(hooks)[i] !in Repr && !old(hooks)[i].IsLinked()
        invariant other != this ==> other.Valid() && Repr !! other.Repr && other.Repr == old(other.Repr) && other.hooks == old(other.hooks)
        decreases |hooks|
      {
        PopBack();
      }
      root.next := root;
      root.prev := root;
      TakeOver(other);
    }
  }
}
