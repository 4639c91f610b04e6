/** A bounded multi-producer multi-consumer queue after Vyukov: a ring of
    `maxSize` slots, each with a data field and an epoch counter, and two
    ever-growing cursors `head` and `tail`.  A position p lives in slot
    p & (maxSize - 1); the slot's epoch says whose turn it is: epoch == p means
    "free for the enqueue at position p", epoch == p + 1 means "holds the value
    enqueued at p, ready for the dequeue at p".  This model is sequential: one
    call at a time, so every compare-and-swap succeeds on its first try. */
module MpmcModel {
  import opened Modular

  /** n is 1, 2, 4, 8, ... */
  predicate IsPowerOfTwo(n: nat)
    decreases n
  {
    n == 1 || (n >= 2 && n % 2 == 0 && IsPowerOfTwo(n / 2))
  }

  /** Bitwise and of two unsigned numbers, bit by bit from the lowest. */
  function BitAnd(a: nat, b: nat): (r: nat)
    ensures r <= a && r <= b
  {
    if a == 0 || b == 0 then 0
    else 2 * BitAnd(a / 2, b / 2) + (if a % 2 == 1 && b % 2 == 1 then 1 else 0)
  }

  /** Masking with n - 1 is reduction modulo n when n is a power of two. */
  lemma {:induction false} LowMaskIsMod(a: nat, n: nat)
    requires IsPowerOfTwo(n)
    ensures BitAnd(a, n - 1) == a % n
    decreases n
  {
    if n == 1 {
      assert BitAnd(a, 0) == 0;
    } else if a == 0 {
      assert BitAnd(0, n - 1) == 0;
    } else {
      var m := n / 2;
      assert n == 2 * m && IsPowerOfTwo(m);
      assert (n - 1) / 2 == m - 1 && (n - 1) % 2 == 1;
      assert BitAnd(a, n - 1) == 2 * BitAnd(a / 2, m - 1) + a % 2;
      LowMaskIsMod(a / 2, m);
      HalfMod(a, m);
    }
  }

  /** Element{data, epoch}. */
  datatype Element<T> = Element(data: T, epoch: nat)

  /** The ring state Vyukov's algorithm relies on, over the slots as values:
      a power-of-two size of at least 2, at most that many positions between
      the cursors, and each position p of the window [head, head + size)
      carrying the epoch that marks it full (p + 1) or free (p). */
  ghost predicate WindowOk<T>(slots: seq<Element<T>>, head: nat, tail: nat)
  {
    var n := |slots|;
    && IsPowerOfTwo(n) && n >= 2
    && head <= tail <= head + n
    && forall p :: head <= p < head + n ==> slots[p % n].epoch == if p < tail then p + 1 else p
  }

  /** The slots the constructor sets up (slot i with epoch i) make an empty
      window that is valid for a power-of-two size of at least 2. */
  lemma InitialWindowOk<T>(slots: seq<Element<T>>)
    requires IsPowerOfTwo(|slots|) && |slots| >= 2
    requires forall i :: 0 <= i < |slots| ==> slots[i].epoch == i
    ensures WindowOk(slots, 0, 0)
  {
    var n := |slots|;
    forall p | 0 <= p < n
      ensures slots[p % n].epoch == p
    {
      ModUnique(p, n, 0, p);
    }
  }

  /** The values at positions head .. tail - 1, oldest first. */
  ghost function Window<T>(slots: seq<Element<T>>, head: nat, tail: nat): (w: seq<T>)
    requires |slots| > 0 && head <= tail
    ensures |w| == tail - head
  {
    seq(tail - head, i requires 0 <= i < tail - head => slots[(head + i) % |slots|].data)
  }

  /** Enqueue's test on a valid ring: the tail's slot is free (its epoch is
      exactly the tail) when fewer than size positions are taken, and lags
      behind the tail when the ring is full. */
  lemma TailSlotFreeIffNotFull<T>(slots: seq<Element<T>>, head: nat, tail: nat)
    requires WindowOk(slots, head, tail)
    ensures tail <= slots[tail % |slots|].epoch <==> tail - head < |slots|
    ensures tail - head < |slots| ==> slots[tail % |slots|].epoch == tail
  {
    var n := |slots|;
    if tail - head == n {
      NextLapSameSlot(head, n);
      assert slots[head % n].epoch == head + 1;
    }
  }

  /** Writing the value into the tail's free slot and bumping its epoch
      appends the value and keeps the ring valid. */
  lemma EnqueueAppends<T>(slots: seq<Element<T>>, head: nat, tail: nat, value: T)
    requires WindowOk(slots, head, tail) && tail - head < |slots|
    ensures var n := |slots|;
      var after := slots[tail % n := Element(value, slots[tail % n].epoch + 1)];
      && WindowOk(after, head, tail + 1)
      && Window(after, head, tail + 1) == Window(slots, head, tail) + [value]
  {
    var n := |slots|;
    TailSlotFreeIffNotFull(slots, head, tail);
    var after := slots[tail % n := Element(value, slots[tail % n].epoch + 1)];
    forall p | head <= p < head + n && p != tail
      ensures p % n != tail % n
    {
      DistinctSlots(p, tail, head, n);
    }
    assert WindowOk(after, head, tail + 1);
  }

  /** Dequeue's test on a valid ring: the head's slot holds this lap's value
      (epoch head + 1) exactly when the ring is not empty. */
  lemma HeadSlotFullIffNotEmpty<T>(slots: seq<Element<T>>, head: nat, tail: nat)
    requires WindowOk(slots, head, tail)
    ensures head + 1 <= slots[head % |slots|].epoch <==> head < tail
    ensures head < tail ==> slots[head % |slots|].epoch == head + 1
  {
  }

  /** Taking the head's value and moving its slot's epoch on by size - 1
      (to head + size, the next lap's position) removes the oldest value and
      keeps the ring valid. */
  lemma DequeueRemovesOldest<T>(slots: seq<Element<T>>, head: nat, tail: nat)
    requires WindowOk(slots, head, tail) && head < tail
    ensures var n := |slots|;
      var after := slots[head % n := slots[head % n].(epoch := slots[head % n].epoch + n - 1)];
      && slots[head % n].data == Window(slots, head, tail)[0]
      && WindowOk(after, head + 1, tail)
      && Window(after, head + 1, tail) == Window(slots, head, tail)[1..]
  {
    var n := |slots|;
    var after := slots[head % n := slots[head % n].(epoch := slots[head % n].epoch + n - 1)];
    forall p | head + 1 <= p < head + 1 + n
      ensures after[p % n].epoch == if p < tail then p + 1 else p
    {
      if p == head + n {
        NextLapSameSlot(head, n);
      } else {
        DistinctSlots(p, head, head, n);
      }
    }
    forall i | 0 <= i < tail - head - 1
      ensures Window(after, head + 1, tail)[i] == Window(slots, head, tail)[1..][i]
    {
      DistinctSlots(head + 1 + i, head, head, n);
    }
  }

  /** The constructor's loop: a fresh ring of `size` slots, slot i with epoch i. */
  method InitialSlots<T(0)>(size: nat) returns (slots: array<Element<T>>)
    ensures fresh(slots) && slots.Length == size
    ensures forall i :: 0 <= i < size ==> slots[i].epoch == i
  {
    slots := new Element<T>[size];
    var index := 0;
    while index < size
      invariant 0 <= index <= size
      invariant forall i :: 0 <= i < index ==> slots[i].epoch == i
    {
      slots[index] := slots[index].(epoch := index);
      index := index + 1;
    }
  }

  class MPMCBoundedQueue<T(0)> {
    const maxSize: nat
    const elements: array<Element<T>>
    var head: nat
    var tail: nat

    /** The ring has exactly maxSize slots. */
    ghost predicate Shape()
      reads this
    {
      maxSize > 0 && elements.Length == maxSize
    }

    /** The slot of a position: position & (max_size_ - 1). */
    function Slot(position: nat): (r: nat)
      reads this
      requires Shape()
      ensures r < maxSize
      ensures IsPowerOfTwo(maxSize) ==> r == position % maxSize
    {
      var r := BitAnd(position, maxSize - 1);
      if IsPowerOfTwo(maxSize) then LowMaskIsMod(position, maxSize); r else r
    }

    /** The ring is as the algorithm relies on it. */
    ghost predicate Valid()
      reads this, elements
    {
      Shape() && WindowOk(elements[..], head, tail)
    }

    /** The queued values, oldest first. */
    ghost function Contents(): seq<T>
      reads this, elements
      requires Valid()
    {
      Window(elements[..], head, tail)
    }

    /** MPMCBoundedQueue(size), as written: any positive size is accepted (the
        power-of-two check is commented out); slot i starts with epoch i. */
    constructor (size: nat)
      requires size > 0
      ensures Shape() && maxSize == size && head == 0 && tail == 0
      ensures fresh(elements) && forall i :: 0 <= i < size ==> elements[i].epoch == i
    {
      var slots := InitialSlots<T>(size);
      maxSize, elements := size, slots;
      head, tail := 0, 0;
    }

    /** MPMCBoundedQueue(size) for the sizes the algorithm is built for: an
        empty, valid queue.  A power of two makes the mask reduce positions
        modulo the size (the check the source comments out); at least 2 keeps
        a full slot's epoch apart from the epoch that frees it for the next
        lap, which that check alone does not ensure. */
    constructor Checked(size: nat)
      requires IsPowerOfTwo(size) && size >= 2
      ensures Valid() && fresh(elements) && maxSize == size && Contents() == []
    {
      var slots := InitialSlots<T>(size);
      InitialWindowOk(slots[..]);
      maxSize, elements := size, slots;
      head, tail := 0, 0;
    }

    /** Enqueue: fails when the tail's slot is not free for this lap
        (prev_tail > epoch); otherwise claims the position, stores the value
        and bumps the slot's epoch.  On a valid queue it appends the value
        exactly when fewer than maxSize values are queued. */
    method Enqueue(value: T) returns (ok: bool)
      requires Shape()
      modifies this, elements
      ensures Shape() && head == old(head)
      ensures ok <==> old(tail) <= old(elements[Slot(tail)].epoch)
      ensures ok ==> (tail == old(tail) + 1
        && elements[..] == old(elements[..])[Slot(old(tail)) := Element(value, old(elements[Slot(tail)].epoch) + 1)])
      ensures !ok ==> tail == old(tail) && elements[..] == old(elements[..])
      ensures old(Valid()) ==> (Valid()
        && (ok <==> old(|Contents()|) < maxSize)
        && Contents() == if ok then old(Contents()) + [value] else old(Contents()))
    {
      ghost var wasValid := Valid();
      if wasValid {
        TailSlotFreeIffNotFull(elements[..], head, tail);
        if tail - head < maxSize {
          EnqueueAppends(elements[..], head, tail, value);
        }
      }
      var prevTail := tail;
      var index := Slot(prevTail);
      if prevTail > elements[index].epoch {
        return false;
      }
      // compare_exchange_weak(prev_tail, prev_tail + 1) succeeds: no other thread moved the tail
      tail := prevTail + 1;
      elements[index] := Element(value, elements[index].epoch + 1);
      ok := true;
    }

    /** Dequeue: fails when the head's slot does not hold this lap's value
        (prev_head + 1 > epoch), leaving `data` as the caller passed it;
        otherwise claims the position, moves the value out and moves the
        slot's epoch on by maxSize - 1.  On a valid queue it removes and
        returns the oldest value exactly when one is queued. */
    method Dequeue(previous: T) returns (ok: bool, data: T)
      requires Shape()
      modifies this, elements
      ensures Shape() && tail == old(tail)
      ensures ok <==> old(head) + 1 <= old(elements[Slot(head)].epoch)
      ensures ok ==> (head == old(head) + 1 && data == old(elements[Slot(head)].data)
        && elements[..] == old(elements[..])[Slot(old(head)) := old(elements[Slot(head)]).(epoch := old(elements[Slot(head)].epoch) + maxSize - 1)])
      ensures !ok ==> head == old(head) && data == previous && elements[..] == old(elements[..])
      ensures old(Valid()) ==> (Valid()
        && (ok <==> old(|Contents()|) > 0)
        && (ok ==> data == old(Contents())[0] && Contents() == old(Contents())[1..])
        && (!ok ==> Contents() == old(Contents())))
    {
      ghost var wasValid := Valid();
      if wasValid {
        HeadSlotFullIffNotEmpty(elements[..], head, tail);
        if head < tail {
          DequeueRemovesOldest(elements[..], head, tail);
        }
      }
      var prevHead := head;
      var index := Slot(prevHead);
      if prevHead + 1 > elements[index].epoch {
        return false, previous;
      }
      // compare_exchange_weak(prev_head, prev_head + 1) succeeds: no other thread moved the head
      head := prevHead + 1;
      data := elements[index].data;
      elements[index] := elements[index].(epoch := elements[index].epoch + maxSize - 1);
      ok := true;
    }
  }

  /** Size 1 as written: the mask 0 does reduce positions modulo 1, but the
      epoch scheme breaks.  A slot holding the value for position p has epoch
      p + 1, which is also the epoch that frees it for position p + size =
      p + 1, so Enqueue's full test never fires; and Dequeue moves the epoch
      on by size - 1 = 0.  Both enqueues succeed, the second overwrites the
      first, and both dequeues return the second value. */
  method SizeOneOverwrites() returns (accepted: bool, first: int, second: int)
    ensures accepted && first == 2 && second == 2
  {
    var queue := new MPMCBoundedQueue<int>(1);
    var ok1 := queue.Enqueue(1);
    var ok2 := queue.Enqueue(2);
    var ok3, ok4;
    ok3, first := queue.Dequeue(0);
    ok4, second := queue.Dequeue(0);
    accepted := ok1 && ok2 && ok3 && ok4;
  }

  /** Size 3 as written: the mask is 2, so positions 0 and 1 share slot 0.
      The second value overwrites the first, and the first dequeue returns it. */
  method SizeThreeReorders() returns (accepted: bool, first: int)
    ensures accepted && first == 2
  {
    var queue := new MPMCBoundedQueue<int>(3);
    var ok1 := queue.Enqueue(1);
    var ok2 := queue.Enqueue(2);
    var ok3;
    ok3, first := queue.Dequeue(0);
    accepted := ok1 && ok2 && ok3;
  }

  /** With a valid size, the sequence from the tests behaves as a FIFO of
      capacity 2: 1 in and out, 2 and 3 in, 4 refused, 2 and 3 out, then empty. */
  method SizeTwoIsFifo() returns (outcomes: seq<bool>, values: seq<int>)
    ensures outcomes == [true, true, false, true, true, false, true, true, false]
    ensures values == [1, 2, 3]
  {
    var queue := new MPMCBoundedQueue<int>.Checked(2);
    var a := queue.Enqueue(1);
    var b, x := queue.Dequeue(0);
    var c, y := queue.Dequeue(x);
    var d := queue.Enqueue(2);
    var e := queue.Enqueue(3);
    var f := queue.Enqueue(4);
    var g, v2 := queue.Dequeue(0);
    var h, v3 := queue.Dequeue(0);
    var i, z := queue.Dequeue(0);
    outcomes := [a, b, c, d, e, f, g, h, i];
    values := [x, v2, v3];
  }
}
