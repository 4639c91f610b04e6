/** A growable array of ints: a heap buffer `elements`, the number of slots in
    use `size` and the buffer length `capacity`.  The buffer only grows, and it
    grows by doubling when PushBack finds it full. */
module VectorModel {

  /** Copies `src[..n]` into the front of `dst`, the way std::copy does. */
  method CopyPrefix(src: array<int>, dst: array<int>, n: nat)
    requires n <= src.Length && n <= dst.Length && src != dst
    modifies dst
    ensures dst[..n] == src[..n]
    ensures dst[n..] == old(dst[n..])
  {
    var i := 0;
    while i < n
      invariant 0 <= i <= n
      invariant dst[..i] == src[..i]
      invariant dst[n..] == old(dst[n..])
    {
      dst[i] := src[i];
      i := i + 1;
    }
  }

  /** The capacity PushBack asks Reserve for when the buffer is full. */
  function GrownCapacity(capacity: nat): (r: nat)
    ensures r > capacity
    ensures capacity > 0 ==> r == 2 * capacity
  {
    if capacity == 0 then 1 else 2 * capacity
  }

  class Vector {
    var elements: array<int>
    var size: nat
    var capacity: nat

    /** The buffer is exactly `capacity` long and holds the `size` live elements. */
    ghost predicate Valid()
      reads this
    {
      size <= capacity && elements.Length == capacity
    }

    /** The abstract value: the live prefix of the buffer. */
    ghost function Contents(): seq<int>
      reads this, elements
      requires Valid()
    {
      elements[..size]
    }

    /** Vector(): an empty vector over an empty buffer. */
    constructor ()
      ensures Valid() && fresh(elements)
      ensures Contents() == [] && capacity == 0
    {
      elements := new int[0];
      size, capacity := 0, 0;
    }

    /** Vector(n): n zeros, capacity exactly n. */
    constructor OfSize(n: nat)
      ensures Valid() && fresh(elements)
      ensures Contents() == seq(n, _ => 0) && capacity == n
    {
      var buffer := new int[n];
      var ind := 0;
      while ind < n
        invariant 0 <= ind <= n
        invariant buffer[..ind] == seq(ind, _ => 0)
      {
        buffer[ind] := 0;
        ind := ind + 1;
      }
      elements := buffer;
      size, capacity := n, n;
    }

    /** Vector(initializer_list): the listed values in order, capacity = their number. */
    constructor OfList(values: seq<int>)
      ensures Valid() && fresh(elements)
      ensures Contents() == values && capacity == |values|
    {
      var buffer := new int[|values|];
      var ind := 0;
      while ind < |values|
        invariant 0 <= ind <= |values|
        invariant buffer[..ind] == values[..ind]
      {
        buffer[ind] := values[ind];
        ind := ind + 1;
      }
      elements := buffer;
      size, capacity := |values|, |values|;
    }

    /** Copy constructor: a fresh buffer sized to the source's size (not its capacity). */
    constructor Copy(other: Vector)
      requires other.Valid()
      ensures Valid() && fresh(elements)
      ensures Contents() == other.Contents() && capacity == other.size
    {
      var buffer := new int[other.size];
      CopyPrefix(other.elements, buffer, other.size);
      elements := buffer;
      size, capacity := other.size, other.size;
    }

    /** Move constructor: steals the buffer; the source is left empty with capacity 0. */
    constructor Move(other: Vector)
      requires other.Valid()
      modifies other
      ensures Valid() && other.Valid()
      ensures elements == old(other.elements) && size == old(other.size) && capacity == old(other.capacity)
      ensures fresh(other.elements) && other.Contents() == [] && other.capacity == 0
    {
      elements, size, capacity := other.elements, other.size, other.capacity;
      new;
      other.elements := new int[0];
      other.size, other.capacity := 0, 0;
    }

    /** Swap exchanges all three fields. */
    method Swap(other: Vector)
      modifies this, other
      ensures elements == old(other.elements) && other.elements == old(elements)
      ensures size == old(other.size) && other.size == old(size)
      ensures capacity == old(other.capacity) && other.capacity == old(capacity)
    {
      elements, other.elements := other.elements, elements;
      size, other.size := other.size, size;
      capacity, other.capacity := other.capacity, capacity;
    }

    /** Copy assignment: copy-and-swap, so the capacity becomes the source's size. */
    method CopyAssign(other: Vector)
      requires Valid() && other.Valid()
      modifies this
      ensures Valid() && fresh(elements)
      ensures Contents() == old(other.Contents()) && capacity == old(other.size)
    {
      var tmp := new Vector.Copy(other);
      Swap(tmp);
    }

    /** Move assignment: take over the source's buffer, leaving the source empty;
        moving a vector into itself changes nothing. */
    method MoveAssign(other: Vector)
      requires Valid() && other.Valid()
      modifies this, other
      ensures Valid() && other.Valid()
      ensures elements == old(other.elements) && size == old(other.size) && capacity == old(other.capacity)
      ensures other != this ==> other.Contents() == [] && other.capacity == 0
    {
      var tmp := new Vector.Move(other);
      Swap(tmp);
    }

    /** operator[] for reading; the source does no bounds check, so the index must be live. */
    method Get(index: nat) returns (value: int)
      requires Valid() && index < size
      ensures value == Contents()[index]
    {
      value := elements[index];
    }

    /** operator[] for writing: only the addressed element changes. */
    method Set(index: nat, value: int)
      requires Valid() && index < size
      modifies elements
      ensures Valid()
      ensures Contents() == old(Contents())[index := value]
    {
      elements[index] := value;
    }

    function Size(): (r: nat)
      reads this, elements
      requires Valid()
      ensures r == |Contents()| && r <= capacity
    {
      size
    }

    function Capacity(): (r: nat)
      reads this
      requires Valid()
      ensures r == elements.Length && r >= size
    {
      capacity
    }

    /** Reserve(n): reallocates only when n exceeds the capacity, keeping the live elements. */
    method Reserve(newCapacity: nat)
      requires Valid()
      modifies this
      ensures Valid() && size == old(size)
      ensures Contents() == old(Contents())
      ensures capacity == if newCapacity > old(capacity) then newCapacity else old(capacity)
      ensures newCapacity <= old(capacity) ==> elements == old(elements)
      ensures newCapacity > old(capacity) ==> fresh(elements)
    {
      if newCapacity > capacity {
        var newElements := new int[newCapacity];
        CopyPrefix(elements, newElements, size);
        elements := newElements;
        capacity := newCapacity;
      }
    }

    /** PushBack: when full, grow to GrownCapacity and retry; then append. */
    method PushBack(element: int)
      requires Valid()
      modifies this, elements
      ensures Valid()
      ensures Contents() == old(Contents()) + [element]
      ensures capacity == if old(size) >= old(capacity) then GrownCapacity(old(capacity)) else old(capacity)
      decreases if size < capacity then 0 else 1
    {
      if size >= capacity {
        Reserve(GrownCapacity(capacity));
        PushBack(element);
      } else {
        elements[size] := element;
        size := size + 1;
      }
    }

    /** PopBack: drops the last element; on an empty vector it does nothing. */
    method PopBack()
      requires Valid()
      modifies this
      ensures Valid() && capacity == old(capacity) && elements == old(elements)
      ensures Contents() == if old(size) == 0 then old(Contents()) else old(Contents())[..old(size) - 1]
    {
      size := if size > 0 then size - 1 else 0;
    }

    /** Clear: size becomes 0, the buffer and capacity stay. */
    method Clear()
      requires Valid()
      modifies this
      ensures Valid() && capacity == old(capacity) && elements == old(elements)
      ensures Contents() == []
    {
      size := 0;
    }
  }
}
