/** A holder that either is empty or holds one T in its own storage.  The pair
    (has_value_, buf_) is modelled as one field `slot`: None when has_value_ is
    false, Some(v) when buf_ holds v.  Moving a T out of an Optional leaves a
    moved-from T behind; what that value is depends on T (an empty list, a null
    unique_ptr, ...), so the methods that move take it as the parameter
    `movedFrom`. */
module OptionalModel {
  import opened Wrappers

  /** The outcome of GetValuePtr and of everything built on it: the stored
      value, or the std::exception it throws on an empty Optional. */
  datatype Access<T> = Value(value: T) | Thrown

  class Optional<T> {
    var slot: Option<T>

    /** Optional(): holds nothing. */
    constructor ()
      ensures !HasValue()
    {
      slot := None;
    }

    /** Optional(const T&) and Optional(T&&): holds the value. */
    constructor Of(value: T)
      ensures HasValue() && Get() == Value(value)
    {
      slot := Some(value);
    }

    /** Copy constructor: same emptiness and an equal value; the two objects
        share nothing afterwards. */
    constructor Copy(other: Optional<T>)
      ensures HasValue() == other.HasValue() && Get() == other.Get()
    {
      slot := other.slot;
    }

    /** Move constructor: takes the value and never changes other.HasValue();
        a non-empty source keeps a moved-from T. */
    constructor Move(other: Optional<T>, movedFrom: T)
      modifies other
      ensures HasValue() == old(other.HasValue()) && Get() == old(other.Get())
      ensures other.HasValue() == old(other.HasValue())
      ensures other.HasValue() ==> other.Get() == Value(movedFrom)
    {
      slot := other.slot;
      new;
      if other.slot.Some? {
        other.slot := Some(movedFrom);
      }
    }

    /** Copy assignment: afterwards this mirrors the source (empty when the
        source is empty); assigning an Optional to itself changes nothing. */
    method CopyAssign(other: Optional<T>)
      modifies this
      ensures HasValue() == old(other.HasValue()) && Get() == old(other.Get())
      ensures other == this ==> slot == old(slot)
    {
      if this != other {
        if other.slot.Some? && slot.Some? {
          var valueCopy := other.slot.value;
          slot := Some(valueCopy);
        } else if other.slot.Some? && slot.None? {
          slot := Some(other.slot.value);
        } else {
          slot := None;
        }
      }
    }

    /** Move assignment: like copy assignment, but the source keeps its
        HasValue() and a non-empty source is left holding a moved-from T. */
    method MoveAssign(other: Optional<T>, movedFrom: T)
      modifies this, other
      ensures HasValue() == old(other.HasValue())
      ensures other.HasValue() == old(other.HasValue())
      ensures other == this ==> slot == old(slot)
      ensures other != this ==> Get() == old(other.Get())
      ensures other != this && other.HasValue() ==> other.Get() == Value(movedFrom)
    {
      if this != other {
        if other.slot.Some? && slot.Some? {
          var valueCopy := other.slot.value;
          other.slot := Some(movedFrom);
          slot := Some(valueCopy);
        } else if other.slot.Some? && slot.None? {
          slot := Some(other.slot.value);
          other.slot := Some(movedFrom);
        } else {
          slot := None;
        }
      }
    }

    /** HasValue(): a value is held, exactly when reading it does not throw. */
    function HasValue(): (r: bool)
      reads this
      ensures r <==> Get().Value?
    {
      slot.Some?
    }

    /** Value(), operator* and operator-> for reading, all through GetValuePtr:
        the stored value, or a throw exactly when the Optional is empty. */
    function Get(): (r: Access<T>)
      reads this
      ensures r.Thrown? <==> slot.None?
      ensures slot.Some? ==> r == Value(slot.value)
    {
      if slot.None? then Thrown else Value(slot.value)
    }

    /** Writing through Value() or operator*: replaces the stored value, or
        throws (and changes nothing) when empty. */
    method SetThroughValue(value: T) returns (r: Access<T>)
      modifies this
      ensures r.Thrown? <==> !old(HasValue())
      ensures HasValue() == old(HasValue())
      ensures if old(HasValue()) then Get() == Value(value) && r == Value(value) else slot == old(slot)
    {
      if slot.None? {
        r := Thrown;
      } else {
        slot := Some(value);
        r := Value(value);
      }
    }

    /** std::move(opt).Value(): moves the value out, leaving a moved-from T in
        place; throws on an empty Optional. */
    method TakeValue(movedFrom: T) returns (r: Access<T>)
      modifies this
      ensures r == old(Get())
      ensures HasValue() == old(HasValue())
      ensures HasValue() ==> Get() == Value(movedFrom)
    {
      r := Get();
      if slot.Some? {
        slot := Some(movedFrom);
      }
    }

    /** Reset: destroys a held value; an empty Optional stays as it is. */
    method Reset()
      modifies this
      ensures !HasValue()
    {
      if slot.Some? {
        slot := None;
      }
    }
  }
}
