/** A type-erasing holder: an Any is empty or owns one heap object `Inner`
    that stores a value together with the identity of its type.  The run-time
    type information the source obtains from typeid/dynamic_cast is an explicit
    tag here; V is the universe of storable values. */
module AnyModel {

  /** The identity of a stored type, as typeid would report it. */
  type TypeTag = string

  /** The outcome of reading an Any as a given type. */
  datatype CastOutcome<V> =
    | Got(value: V)       // the stored value
    | BadCast             // std::bad_cast from the failed dynamic_cast
    | NullDereference     // *inner_ptr_ on a null pointer (undefined behaviour)

  /** Inner<T>: one heap-allocated value of the concrete type `tag`. */
  class Inner<V> {
    const tag: TypeTag
    const value: V

    constructor (tag: TypeTag, value: V)
      ensures this.tag == tag && this.value == value
    {
      this.tag := tag;
      this.value := value;
    }

    /** Clone: a new Inner of the same type holding an equal value. */
    method Clone() returns (copy: Inner<V>)
      ensures fresh(copy) && copy.tag == tag && copy.value == value
    {
      copy := new Inner(tag, value);
    }
  }

  class Any<V> {
    var inner: Inner?<V>

    /** Any(): empty. */
    constructor ()
      ensures Empty()
    {
      inner := null;
    }

    /** Any(T&&): owns a new Inner holding the value under its decayed type. */
    constructor Of(tag: TypeTag, value: V)
      ensures !Empty() && fresh(inner)
      ensures GetValue(tag) == Got(value)
    {
      inner := new Inner(tag, value);
    }

    /** Copy constructor: an independent clone of the source's Inner (a new
        object with the same type and value), or empty when the source is. */
    constructor Copy(other: Any<V>)
      ensures Empty() == other.Empty()
      ensures inner != null ==> fresh(inner) && inner.tag == other.inner.tag && inner.value == other.inner.value
      ensures forall tag :: GetValue(tag) == other.GetValue(tag)
    {
      var copy: Inner?<V> := null;
      if other.inner != null {
        copy := other.inner.Clone();
      }
      inner := copy;
    }

    /** Move constructor: takes the source's Inner; the source becomes empty. */
    constructor Move(other: Any<V>)
      modifies other
      ensures inner == old(other.inner)
      ensures other.Empty()
    {
      inner := other.inner;
      new;
      other.inner := null;
    }

    /** Empty(): there is no Inner, so every cast fails with bad_cast. */
    function Empty(): (r: bool)
      reads this, inner
      ensures r <==> forall tag :: GetValue(tag) == BadCast
    {
      if inner == null then true
      else assert GetValue(inner.tag).Got?; false
    }

    /** Swap: exchanges the Inner pointers (a self-swap changes nothing). */
    method Swap(other: Any<V>)
      modifies this, other
      ensures inner == old(other.inner) && other.inner == old(inner)
    {
      inner, other.inner := other.inner, inner;
    }

    /** Copy assignment: copy-and-swap; assigning an Any to itself changes nothing. */
    method CopyAssign(other: Any<V>)
      modifies this
      ensures other == this ==> inner == old(inner)
      ensures other != this ==> Empty() == other.Empty() && (inner != null ==> fresh(inner))
      ensures forall tag :: GetValue(tag) == old(other.GetValue(tag))
    {
      if other != this {
        var tmp := new Any.Copy(other);
        tmp.Swap(this);
      }
    }

    /** Move assignment: takes the source's Inner and leaves the source empty;
        moving an Any into itself changes nothing. */
    method MoveAssign(other: Any<V>)
      modifies this, other
      ensures inner == old(other.inner)
      ensures other != this ==> other.Empty()
    {
      var tmp := new Any.Move(other);
      tmp.Swap(this);
    }

    /** Assigning a value: the held value and its type are both replaced. */
    method AssignValue(tag: TypeTag, value: V)
      modifies this
      ensures !Empty() && fresh(inner)
      ensures GetValue(tag) == Got(value)
      ensures forall other :: other != tag ==> GetValue(other) == BadCast
    {
      var tmp := new Any.Of(tag, value);
      tmp.Swap(this);
    }

    /** Clear: destroys the held value, if any. */
    method Clear()
      modifies this
      ensures Empty()
    {
      inner := null;
    }

    /** Cast<T>() as written: the dynamic_cast is applied to *inner_ptr_
        without a null check, so an empty Any dereferences a null pointer. */
    function CastAsWritten(tag: TypeTag): (r: CastOutcome<V>)
      reads this, inner
      ensures inner == null ==> r == NullDereference
      ensures inner != null ==> r == GetValue(tag)
    {
      if inner == null then NullDereference
      else if inner.tag == tag then Got(inner.value)
      else BadCast
    }

    /** GetValue<T>(): the stored value when the stored type is exactly the
        requested (decayed) type, std::bad_cast otherwise, including on an
        empty Any. */
    function GetValue(tag: TypeTag): (r: CastOutcome<V>)
      reads this, inner
      ensures r.Got? <==> inner != null && inner.tag == tag
      ensures r.Got? ==> r.value == inner.value
      ensures !r.Got? ==> r == BadCast
    {
      if inner != null && inner.tag == tag then Got(inner.value) else BadCast
    }
  }

  /** On an empty Any the code as written dereferences null where the holder
      is expected to throw std::bad_cast. */
  lemma EmptyCastDereferencesNull<V>(a: Any<V>, tag: TypeTag)
    requires a.Empty()
    ensures a.CastAsWritten(tag) == NullDereference
    ensures a.GetValue(tag) == BadCast
  {
  }
}
