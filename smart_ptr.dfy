/** A reference-counted pointer pair over a shared LinkCounter.  A SharedPtr
    owns the managed string; a WeakPtr observes it without owning it.  The
    counter records `strong` (owning SharedPtrs) and `weak` (observing
    WeakPtrs).  Deleting an object or a counter is not expressible here, so the
    destructors return what they free.  Ghost bookkeeping on the counter (the
    sets of owners and observers) states what the two counts mean. */
module SmartPtrModel {

  /** The managed object: a std::string on the heap. */
  class Managed {
    var text: string

    constructor (text: string)
      ensures this.text == text
    {
      this.text := text;
    }
  }

  /** LinkCounter{strong, weak}. */
  class LinkCounter {
    var strong: int
    var weak: int
    ghost var owners: multiset<SharedPtr>
    ghost var observers: multiset<WeakPtr>
    /** The object every pointer sharing this counter points to. */
    ghost const managed: Managed?

    /** new LinkCounter{1, 0}: the pointer creating it is its one owner. */
    constructor (ghost managed: Managed?)
      ensures strong == 1 && weak == 0
      ensures owners == multiset{} && observers == multiset{} && this.managed == managed
    {
      strong, weak := 1, 0;
      owners, observers := multiset{}, multiset{};
      this.managed := managed;
    }

    /** The counts are the numbers of live owners and observers. */
    ghost predicate Counts()
      reads this
    {
      strong == |owners| && weak == |observers|
    }
  }

  /** Handing one record of a multiset over to another element keeps its size. */
  lemma HandOver<T>(m: multiset<T>, a: T, b: T)
    requires a in m
    ensures |m - multiset{a} + multiset{b}| == |m|
  {
    assert |m - multiset{a}| == |m| - 1;
  }

  /** A record added and then taken out again leaves the multiset as it was. */
  lemma AddRemove<T>(m: multiset<T>, a: T)
    ensures m + multiset{a} - multiset{a} == m
  {
  }

  /** Taking a record out and putting it back leaves the multiset as it was. */
  lemma RemoveAdd<T>(m: multiset<T>, a: T)
    requires a in m
    ensures m - multiset{a} + multiset{a} == m
  {
  }

  /** Taking out a record that is there lowers the count by one. */
  lemma RemoveOne<T>(m: multiset<T>, a: T)
    requires a in m
    ensures |m - multiset{a}| == |m| - 1
  {
  }

  /** What destroying a SharedPtr frees. */
  datatype SharedRelease = Kept | ObjectDeleted | ObjectAndCounterDeleted

  /** What destroying a WeakPtr frees. */
  datatype WeakRelease = NothingFreed | CounterDeleted

  class SharedPtr {
    var obj: Managed?
    var counter: LinkCounter?

    /** A live SharedPtr with a counter is one of that counter's owners and
        points to the counter's object. */
    ghost predicate Valid()
      reads this, counter
    {
      counter != null ==> this in counter.owners && counter.Counts() && obj == counter.managed
    }

    /** SharedPtr(): null, no counter. */
    constructor ()
      ensures Valid() && obj == null && counter == null
    {
      obj, counter := null, null;
    }

    /** SharedPtr(ptr): owns ptr with a new counter {1, 0}. */
    constructor Own(ptr: Managed?)
      ensures Valid() && obj == ptr && fresh(counter)
      ensures counter.strong == 1 && counter.weak == 0
      ensures counter.owners == multiset{this} && counter.observers == multiset{}
    {
      obj := ptr;
      counter := new LinkCounter(ptr);
      new;
      counter.owners := multiset{this};
    }

    /** Copy constructor: shares the source's object and counter; strong + 1. */
    constructor Copy(other: SharedPtr)
      requires other.Valid()
      modifies other.counter
      ensures Valid() && other.Valid()
      ensures obj == other.obj && counter == other.counter
      ensures var c := other.counter;
        c != null ==> c.strong == old(c.strong) + 1 && c.weak == old(c.weak)
                      && c.owners == old(c.owners) + multiset{this} && c.observers == old(c.observers)
    {
      obj, counter := other.obj, other.counter;
      new;
      if counter != null {
        counter.strong := counter.strong + 1;
        counter.owners := counter.owners + multiset{this};
      }
    }

    /** Move constructor: takes over the source's ownership; the source is
        nulled and the counts do not change. */
    constructor Move(other: SharedPtr)
      requires other.Valid()
      modifies other, other.counter
      ensures Valid() && other.Valid()
      ensures obj == old(other.obj) && counter == old(other.counter)
      ensures other.obj == null && other.counter == null
      ensures var c := old(other.counter);
        c != null ==> c.strong == old(c.strong) && c.weak == old(c.weak)
                      && c.owners == old(c.owners) - multiset{other} + multiset{this} && c.observers == old(c.observers)
    {
      obj, counter := other.obj, other.counter;
      new;
      if counter != null {
        counter.owners := counter.owners - multiset{other} + multiset{this};
      }
      other.obj, other.counter := null, null;
    }

    /** SharedPtr(const WeakPtr&): empty when the weak pointer has expired,
        otherwise shares its object and counter with strong + 1. */
    constructor FromWeak(weakPtr: WeakPtr)
      requires weakPtr.Valid()
      modifies weakPtr.counter
      ensures Valid() && weakPtr.Valid()
      ensures old(weakPtr.IsExpired()) ==> obj == null && counter == null
      ensures old(weakPtr.IsExpired()) && weakPtr.counter != null ==> unchanged(weakPtr.counter)
      ensures !old(weakPtr.IsExpired()) ==> obj == weakPtr.obj && counter == weakPtr.counter
      ensures var c := weakPtr.counter;
        !old(weakPtr.IsExpired()) ==> c.strong == old(c.strong) + 1 && c.weak == old(c.weak)
                                      && c.owners == old(c.owners) + multiset{this} && c.observers == old(c.observers)
    {
      var expired := weakPtr.IsExpired();
      if expired {
        obj, counter := null, null;
      } else {
        obj, counter := weakPtr.obj, weakPtr.counter;
      }
      new;
      if !expired {
        counter.strong := counter.strong + 1;
        counter.owners := counter.owners + multiset{this};
      }
    }

    /** ~SharedPtr(): strong - 1; at 0 the object is deleted, and the counter
        too when no WeakPtr observes it any more. */
    method Release() returns (freed: SharedRelease)
      requires Valid()
      modifies this, counter
      ensures var c := old(counter);
        c != null ==> c.strong == old(c.strong) - 1 && c.weak == old(c.weak)
                      && c.owners == old(c.owners) - multiset{this} && c.observers == old(c.observers) && c.Counts()
      ensures freed == if old(counter) == null || old(counter.strong) > 1 then Kept
                       else if old(counter.weak) == 0 then ObjectAndCounterDeleted
                       else ObjectDeleted
      ensures freed != Kept ==> obj == null
      ensures freed == ObjectAndCounterDeleted ==> counter == null
    {
      freed := Kept;
      if counter != null && counter.strong > 0 {
        counter.strong := counter.strong - 1;
        counter.owners := counter.owners - multiset{this};
        if counter.strong == 0 {
          obj := null;
          freed := ObjectDeleted;
          if counter.weak == 0 {
            counter := null;
            freed := ObjectAndCounterDeleted;
          }
        }
      }
    }

    /** Swaps the two pointers' fields, moving ownership records with them. */
    method SwapWith(other: SharedPtr)
      requires Valid() && other.Valid() && other != this
      modifies this, other, counter, other.counter
      ensures Valid() && other.Valid()
      ensures obj == old(other.obj) && counter == old(other.counter)
      ensures other.obj == old(obj) && other.counter == old(counter)
      ensures var c := old(counter); c != null ==> c.strong == old(c.strong) && c.weak == old(c.weak)
      ensures var c := old(other.counter); c != null ==> c.strong == old(c.strong) && c.weak == old(c.weak)
      ensures var c, d := old(counter), old(other.counter);
        && (c != null && c != d ==> c.owners == old(c.owners) - multiset{this} + multiset{other} && c.observers == old(c.observers))
        && (d != null && c != d ==> d.owners == old(d.owners) - multiset{other} + multiset{this} && d.observers == old(d.observers))
        && (c != null && c == d ==> c.owners == old(c.owners) && c.observers == old(c.observers))
    {
      // Sharing one counter, the two records trade places and nothing changes.
      if counter != other.counter {
        if counter != null {
          HandOver(counter.owners, this, other);
          counter.owners := counter.owners - multiset{this} + multiset{other};
        }
        if other.counter != null {
          HandOver(other.counter.owners, other, this);
          other.counter.owners := other.counter.owners - multiset{other} + multiset{this};
        }
      }
      obj, other.obj := other.obj, obj;
      counter, other.counter := other.counter, counter;
    }

    /** The body of operator=(SharedPtr other): the by-value parameter is
        swapped with this and then destroyed, which releases what this held. */
    method Assign(param: SharedPtr) returns (freed: SharedRelease)
      requires Valid() && param.Valid() && param != this
      modifies this, param, counter, param.counter
      ensures Valid() && obj == old(param.obj) && counter == old(param.counter)
      ensures var c, d := old(param.counter), old(counter);
        && (c != null && c != d ==> c.strong == old(c.strong) && c.owners == old(c.owners) - multiset{param} + multiset{this})
        && (d != null && c != d ==> d.strong == old(d.strong) - 1 && d.owners == old(d.owners) - multiset{this})
        && (d != null && c == d ==> d.strong == old(d.strong) - 1 && d.owners == old(d.owners) - multiset{param})
        && (c != null ==> c.weak == old(c.weak) && c.observers == old(c.observers))
        && (d != null ==> d.weak == old(d.weak) && d.observers == old(d.observers))
      ensures freed == if old(counter) == null || old(counter.strong) > 1 then Kept
                       else if old(counter.weak) == 0 then ObjectAndCounterDeleted else ObjectDeleted
    {
      ghost var left := if counter != null then counter.owners else multiset{};
      param.SwapWith(this);
      AddRemove(left - multiset{this}, param);
      freed := param.Release();
    }

    /** operator=(SharedPtr other) from an lvalue: the parameter is a copy of the
        source (strong + 1 on its counter); assigning from a pointer that shares
        this one's counter, itself included, leaves the counts as they were. */
    method CopyAssign(other: SharedPtr) returns (freed: SharedRelease)
      requires Valid() && other.Valid()
      modifies this, counter, other.counter
      ensures Valid() && other.Valid()
      ensures obj == old(other.obj) && counter == old(other.counter)
      ensures var c, d := old(other.counter), old(counter);
        && (c != null && c != d ==> c.strong == old(c.strong) + 1 && c.owners == old(c.owners) + multiset{this})
        && (d != null && c != d ==> d.strong == old(d.strong) - 1 && d.owners == old(d.owners) - multiset{this})
        && (c != null && c == d ==> c.strong == old(c.strong) && c.owners == old(c.owners))
        && (c != null ==> c.weak == old(c.weak) && c.observers == old(c.observers))
        && (d != null ==> d.weak == old(d.weak) && d.observers == old(d.observers) && d.Counts())
      ensures old(counter) == old(other.counter) ==> freed == Kept
      ensures old(counter) != old(other.counter) ==> freed == if old(counter) == null || old(counter.strong) > 1 then Kept
                       else if old(counter.weak) == 0 then ObjectAndCounterDeleted else ObjectDeleted
    {
      ghost var c, d := other.counter, counter;
      var param := new SharedPtr.Copy(other);
      if c != null {
        AddRemove(old(c.owners), param);
      }
      if d != null && c != d {
        RemoveOne(old(d.owners), this);
      }
      freed := Assign(param);
    }

    /** operator=(SharedPtr other) from an rvalue: the parameter is moved out of
        the source, which is left null; moving a pointer into itself changes
        nothing. */
    method MoveAssign(other: SharedPtr) returns (freed: SharedRelease)
      requires Valid() && other.Valid()
      modifies this, other, counter, other.counter
      ensures Valid() && other.Valid()
      ensures obj == old(other.obj) && counter == old(other.counter)
      ensures other != this ==> other.obj == null && other.counter == null
      ensures var c, d := old(other.counter), old(counter);
        && (c != null && c != d ==> c.strong == old(c.strong) && c.owners == old(c.owners) - multiset{other} + multiset{this})
        && (d != null && c != d ==> d.strong == old(d.strong) - 1 && d.owners == old(d.owners) - multiset{this})
        && (d != null && c == d ==> d.strong == old(d.strong) - (if other == this then 0 else 1)
                                    && d.owners == old(d.owners) - (if other == this then multiset{} else multiset{other}))
        && (c != null ==> c.weak == old(c.weak) && c.observers == old(c.observers))
        && (d != null ==> d.weak == old(d.weak) && d.observers == old(d.observers) && d.Counts())
      ensures other == this || old(counter) == old(other.counter) ==> freed == Kept
      ensures other != this ==> freed == if old(counter) == null || old(counter.strong) > 1 then Kept
                       else if old(counter.weak) == 0 then ObjectAndCounterDeleted else ObjectDeleted
    {
      ghost var c, d := other.counter, counter;
      if d != null {
        RemoveOne(d.owners, this);
        if c == d && other != this {
          RemoveOne(d.owners, other);
        }
      }
      var param := new SharedPtr.Move(other);
      if c != null {
        AddRemove(old(c.owners) - multiset{other}, param);
        if other == this {
          RemoveAdd(old(c.owners), this);
        }
      }
      freed := Assign(param);
    }

    /** Reset(ptr): releases the current ownership, then owns ptr with a new
        counter {1, 0}. */
    method Reset(ptr: Managed?) returns (freed: SharedRelease)
      requires Valid()
      modifies this, counter
      ensures Valid() && obj == ptr && fresh(counter)
      ensures counter.strong == 1 && counter.weak == 0 && counter.owners == multiset{this}
      ensures var c := old(counter);
        c != null ==> c.strong == old(c.strong) - 1 && c.weak == old(c.weak)
                      && c.owners == old(c.owners) - multiset{this} && c.observers == old(c.observers) && c.Counts()
      ensures freed == if old(counter) == null || old(counter.strong) > 1 then Kept
                       else if old(counter.weak) == 0 then ObjectAndCounterDeleted
                       else ObjectDeleted
    {
      freed := Release();
      obj := ptr;
      counter := new LinkCounter(ptr);
      counter.owners := multiset{this};
    }

    /** Get(): the raw pointer. */
    function Get(): (r: Managed?)
      reads this, counter
      requires Valid()
      ensures counter != null ==> r == counter.managed
    {
      obj
    }
  }

  class WeakPtr {
    var obj: Managed?
    var counter: LinkCounter?

    /** A live WeakPtr with a counter is one of that counter's observers. */
    ghost predicate Valid()
      reads this, counter
    {
      counter != null ==> this in counter.observers && counter.Counts() && obj == counter.managed
    }

    /** WeakPtr(): nothing observed. */
    constructor ()
      ensures Valid() && obj == null && counter == null
    {
      obj, counter := null, null;
    }

    /** Copy constructor: observes the same counter; weak + 1. */
    constructor Copy(other: WeakPtr)
      requires other.Valid()
      modifies other.counter
      ensures Valid() && other.Valid()
      ensures obj == other.obj && counter == other.counter
      ensures var c := other.counter;
        c != null ==> c.weak == old(c.weak) + 1 && c.strong == old(c.strong)
                      && c.observers == old(c.observers) + multiset{this} && c.owners == old(c.owners)
    {
      obj, counter := other.obj, other.counter;
      new;
      if counter != null {
        counter.weak := counter.weak + 1;
        counter.observers := counter.observers + multiset{this};
      }
    }

    /** Move constructor: takes over the observation; the source is nulled. */
    constructor Move(other: WeakPtr)
      requires other.Valid()
      modifies other, other.counter
      ensures Valid() && other.Valid()
      ensures obj == old(other.obj) && counter == old(other.counter)
      ensures other.obj == null && other.counter == null
      ensures var c := old(other.counter);
        c != null ==> c.weak == old(c.weak) && c.strong == old(c.strong)
                      && c.observers == old(c.observers) - multiset{other} + multiset{this} && c.owners == old(c.owners)
    {
      obj, counter := other.obj, other.counter;
      new;
      if counter != null {
        counter.observers := counter.observers - multiset{other} + multiset{this};
      }
      other.obj, other.counter := null, null;
    }

    /** WeakPtr(const SharedPtr&): observes the shared pointer's counter; weak + 1. */
    constructor FromShared(sharedPtr: SharedPtr)
      requires sharedPtr.Valid()
      modifies sharedPtr.counter
      ensures Valid() && sharedPtr.Valid()
      ensures obj == sharedPtr.obj && counter == sharedPtr.counter
      ensures var c := sharedPtr.counter;
        c != null ==> c.weak == old(c.weak) + 1 && c.strong == old(c.strong)
                      && c.observers == old(c.observers) + multiset{this} && c.owners == old(c.owners)
    {
      obj, counter := sharedPtr.obj, sharedPtr.counter;
      new;
      if counter != null {
        counter.weak := counter.weak + 1;
        counter.observers := counter.observers + multiset{this};
      }
    }

    /** ~WeakPtr(): weak - 1; the counter is deleted once both counts are 0. */
    method Release() returns (freed: WeakRelease)
      requires Valid()
      modifies this, counter
      ensures var c := old(counter);
        c != null ==> c.weak == old(c.weak) - 1 && c.strong == old(c.strong)
                      && c.observers == old(c.observers) - multiset{this} && c.owners == old(c.owners) && c.Counts()
      ensures freed == if old(counter) != null && old(counter.weak) == 1 && old(counter.strong) == 0
                       then CounterDeleted else NothingFreed
      ensures freed == CounterDeleted ==> obj == null && counter == null
    {
      freed := NothingFreed;
      if counter != null && counter.weak > 0 {
        counter.weak := counter.weak - 1;
        counter.observers := counter.observers - multiset{this};
        if counter.weak == 0 && counter.strong == 0 {
          counter := null;
          obj := null;
          freed := CounterDeleted;
        }
      }
    }

    /** Swaps the two pointers' fields, moving observation records with them. */
    method SwapWith(other: WeakPtr)
      requires Valid() && other.Valid() && other != this
      modifies this, other, counter, other.counter
      ensures Valid() && other.Valid()
      ensures obj == old(other.obj) && counter == old(other.counter)
      ensures other.obj == old(obj) && other.counter == old(counter)
      ensures var c := old(counter); c != null ==> c.strong == old(c.strong) && c.weak == old(c.weak)
      ensures var c := old(other.counter); c != null ==> c.strong == old(c.strong) && c.weak == old(c.weak)
      ensures var c, d := old(counter), old(other.counter);
        && (c != null && c != d ==> c.observers == old(c.observers) - multiset{this} + multiset{other} && c.owners == old(c.owners))
        && (d != null && c != d ==> d.observers == old(d.observers) - multiset{other} + multiset{this} && d.owners == old(d.owners))
        && (c != null && c == d ==> c.observers == old(c.observers) && c.owners == old(c.owners))
    {
      // Sharing one counter, the two records trade places and nothing changes.
      if counter != other.counter {
        if counter != null {
          HandOver(counter.observers, this, other);
          counter.observers := counter.observers - multiset{this} + multiset{other};
        }
        if other.counter != null {
          HandOver(other.counter.observers, other, this);
          other.counter.observers := other.counter.observers - multiset{other} + multiset{this};
        }
      }
      obj, other.obj := other.obj, obj;
      counter, other.counter := other.counter, counter;
    }

    /** The body of operator=(WeakPtr other): the by-value parameter is
        swapped with this and then destroyed, which releases what this held. */
    method Assign(param: WeakPtr) returns (freed: WeakRelease)
      requires Valid() && param.Valid() && param != this
      modifies this, param, counter, param.counter
      ensures Valid() && obj == old(param.obj) && counter == old(param.counter)
      ensures var c, d := old(param.counter), old(counter);
        && (c != null && c != d ==> c.weak == old(c.weak) && c.observers == old(c.observers) - multiset{param} + multiset{this})
        && (d != null && c != d ==> d.weak == old(d.weak) - 1 && d.observers == old(d.observers) - multiset{this})
        && (d != null && c == d ==> d.weak == old(d.weak) - 1 && d.observers == old(d.observers) - multiset{param})
        && (c != null ==> c.strong == old(c.strong) && c.owners == old(c.owners))
        && (d != null ==> d.strong == old(d.strong) && d.owners == old(d.owners))
      ensures freed == if old(counter) != null && old(counter.weak) == 1 && old(counter.strong) == 0
                       then CounterDeleted else NothingFreed
    {
      ghost var left := if counter != null then counter.observers else multiset{};
      param.SwapWith(this);
      AddRemove(left - multiset{this}, param);
      freed := param.Release();
    }

    /** operator=(WeakPtr other) from an lvalue: the parameter is a copy of the
        source (weak + 1 on its counter); assigning from a pointer that shares
        this one's counter, itself included, leaves the counts as they were. */
    method CopyAssign(other: WeakPtr) returns (freed: WeakRelease)
      requires Valid() && other.Valid()
      modifies this, counter, other.counter
      ensures Valid() && other.Valid()
      ensures obj == old(other.obj) && counter == old(other.counter)
      ensures var c, d := old(other.counter), old(counter);
        && (c != null && c != d ==> c.weak == old(c.weak) + 1 && c.observers == old(c.observers) + multiset{this})
        && (d != null && c != d ==> d.weak == old(d.weak) - 1 && d.observers == old(d.observers) - multiset{this})
        && (c != null && c == d ==> c.weak == old(c.weak) && c.observers == old(c.observers))
        && (c != null ==> c.strong == old(c.strong) && c.owners == old(c.owners))
        && (d != null ==> d.strong == old(d.strong) && d.owners == old(d.owners) && d.Counts())
      ensures old(counter) == old(other.counter) ==> freed == NothingFreed
      ensures old(counter) != old(other.counter) ==> freed == if old(counter) != null && old(counter.weak) == 1 && old(counter.strong) == 0
                       then CounterDeleted else NothingFreed
    {
      ghost var c, d := other.counter, counter;
      var param := new WeakPtr.Copy(other);
      if c != null {
        AddRemove(old(c.observers), param);
      }
      if d != null && c != d {
        RemoveOne(old(d.observers), this);
      }
      freed := Assign(param);
    }

    /** operator=(WeakPtr other) from an rvalue: the parameter is moved out of
        the source, which is left null; moving a pointer into itself changes
        nothing. */
    method MoveAssign(other: WeakPtr) returns (freed: WeakRelease)
      requires Valid() && other.Valid()
      modifies this, other, counter, other.counter
      ensures Valid() && other.Valid()
      ensures obj == old(other.obj) && counter == old(other.counter)
      ensures other != this ==> other.obj == null && other.counter == null
      ensures var c, d := old(other.counter), old(counter);
        && (c != null && c != d ==> c.weak == old(c.weak) && c.observers == old(c.observers) - multiset{other} + multiset{this})
        && (d != null && c != d ==> d.weak == old(d.weak) - 1 && d.observers == old(d.observers) - multiset{this})
        && (d != null && c == d ==> d.weak == old(d.weak) - (if other == this then 0 else 1)
                                    && d.observers == old(d.observers) - (if other == this then multiset{} else multiset{other}))
        && (c != null ==> c.strong == old(c.strong) && c.owners == old(c.owners))
        && (d != null ==> d.strong == old(d.strong) && d.owners == old(d.owners) && d.Counts())
      ensures other == this || old(counter) == old(other.counter) ==> freed == NothingFreed
      ensures other != this ==> freed == if old(counter) != null && old(counter.weak) == 1 && old(counter.strong) == 0
                       then CounterDeleted else NothingFreed
    {
      ghost var c, d := other.counter, counter;
      if d != null {
        RemoveOne(d.observers, this);
        if c == d && other != this {
          RemoveOne(d.observers, other);
        }
      }
      var param := new WeakPtr.Move(other);
      if c != null {
        AddRemove(old(c.observers) - multiset{other}, param);
        if other == this {
          RemoveAdd(old(c.observers), this);
        }
      }
      freed := Assign(param);
    }

    /** IsExpired(): no counter, or no strong reference left; for a valid
        pointer that is exactly "no SharedPtr owns the object any more". */
    predicate IsExpired()
      reads this, counter
      ensures Valid() ==> (IsExpired() <==> counter == null || counter.owners == multiset{})
    {
      !(counter != null && counter.strong > 0)
    }

    /** Lock(): an empty SharedPtr when expired, otherwise a new owner of the
        object (strong + 1). */
    method Lock() returns (locked: SharedPtr)
      requires Valid()
      modifies counter
      ensures Valid() && locked.Valid() && fresh(locked)
      ensures old(IsExpired()) ==> locked.obj == null && locked.counter == null
      ensures !old(IsExpired()) ==> locked.obj == obj && locked.counter == counter
      ensures !old(IsExpired()) ==> counter.strong == old(counter.strong) + 1 && counter.owners == old(counter.owners) + multiset{locked}
      ensures counter != null ==> counter.weak == old(counter.weak) && counter.observers == old(counter.observers)
      ensures old(IsExpired()) && counter != null ==> unchanged(counter)
    {
      if !IsExpired() {
        locked := new SharedPtr.FromWeak(this);
      } else {
        locked := new SharedPtr();
      }
    }

    /** Reset(): releases the observation and nulls both fields. */
    method Reset() returns (freed: WeakRelease)
      requires Valid()
      modifies this, counter
      ensures Valid() && obj == null && counter == null
      ensures var c := old(counter);
        c != null ==> c.weak == old(c.weak) - 1 && c.strong == old(c.strong)
                      && c.observers == old(c.observers) - multiset{this} && c.owners == old(c.owners) && c.Counts()
      ensures freed == if old(counter) != null && old(counter.weak) == 1 && old(counter.strong) == 0
                       then CounterDeleted else NothingFreed
    {
      freed := Release();
      obj, counter := null, null;
    }
  }
}
