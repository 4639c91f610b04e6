/** The block deque of ints: a growable array `blocks` of pointers to
    fixed-size blocks of 128 ints.  The elements occupy consecutive absolute
    positions HeadOf .. TailOf - 1, where absolute position p lives in block
    p / BlockSize at offset p % BlockSize.  `headBlock` and `tailBlock` are
    the indices of head_block_ptr_ and tail_block_ptr_ in `blocks` (the first
    may be -1, the second may equal the array's length); `headInd` and
    `tailInd` are head_ind_ and tail_ind_.  The ghost sequence `elements` is
    the deque's contents, `pointers` mirrors the pointer array, and `Repr`
    holds every block ever allocated. */
module DequeModel {
  import Modular
  import opened Wrappers

  const BlockSize: nat := 128
  const ReallocationCoef: nat := 2

  /** Absolute position p lies in block q at offset r whenever p == q * 128 + r. */
  lemma Decompose(p: nat, q: nat, r: nat)
    requires r < BlockSize && p == BlockSize * q + r
    ensures p / BlockSize == q && p % BlockSize == r
  {
    Modular.ModUnique(p, BlockSize, q, r);
  }

  /** A position between the starts of blocks lo and hi lies in a block between them. */
  lemma BlockBounds(p: nat, lo: nat, hi: nat)
    requires BlockSize * lo <= p < BlockSize * hi
    ensures lo <= p / BlockSize < hi
  {
    Decompose(p, p / BlockSize, p % BlockSize);
  }

  /** The scalar state of a deque: the pointer array's length, the head and
      tail block indices, the in-block indices and size_. */
  datatype Layout = Layout(numBlocks: nat, headBlock: int, tailBlock: int, headInd: int, tailInd: int, size: nat)

  /** The absolute position of the first element. */
  function HeadOf(l: Layout): int
  {
    BlockSize * (l.headBlock + 1) + l.headInd + 1
  }

  /** The absolute position one past the last element. */
  function TailOf(l: Layout): int
  {
    BlockSize * (l.tailBlock - 1) + l.tailInd
  }

  /** The index ranges the class keeps, and size_ counts the positions
      between the head and the tail. */
  ghost predicate WellFormed(l: Layout)
  {
    && l.numBlocks >= 2
    && -1 <= l.headBlock < l.tailBlock <= l.numBlocks
    && -1 <= l.headInd < BlockSize && 0 <= l.tailInd <= BlockSize
    && l.size == TailOf(l) - HeadOf(l)
  }

  /** The layout Initialize() sets up. */
  function InitialLayout(): (r: Layout)
    ensures WellFormed(r) && r.size == 0
  {
    Layout(2, 2 / 2 - 1, 2 / 2, -1, BlockSize, 0)
  }

  /** Reallocate(n): nothing when n is not larger; otherwise the old pointers
      move (n - numBlocks) / 2 places along in an array of n. */
  function ReallocatedLayout(l: Layout, newNumBlocks: nat): Layout
  {
    if newNumBlocks <= l.numBlocks then l
    else
      var shift := (newNumBlocks - l.numBlocks) / 2;
      l.(numBlocks := newNumBlocks, headBlock := l.headBlock + shift, tailBlock := l.tailBlock + shift)
  }

  /** PushBack's index steps: at the end of the tail block, reallocate when
      the tail block pointer is past the array and step to the next block;
      then one more element. */
  function PushBackLayout(l: Layout): Layout
  {
    var l' :=
      if l.tailInd < BlockSize then l
      else
        var grown := if l.tailBlock >= l.numBlocks then ReallocatedLayout(l, ReallocationCoef * l.numBlocks) else l;
        grown.(tailBlock := grown.tailBlock + 1, tailInd := 0);
    l'.(tailInd := l'.tailInd + 1, size := l'.size + 1)
  }

  /** PushFront's index steps, the mirror image of PushBackLayout. */
  function PushFrontLayout(l: Layout): Layout
  {
    var l' :=
      if l.headInd > -1 then l
      else
        var grown := if l.headBlock < 0 then ReallocatedLayout(l, ReallocationCoef * l.numBlocks) else l;
        grown.(headBlock := grown.headBlock - 1, headInd := BlockSize - 1);
    l'.(headInd := l'.headInd - 1, size := l'.size + 1)
  }

  /** PopBack's index steps: nothing on an empty deque; one element fewer,
      moving to the previous block when the tail index drops below zero. */
  function PopBackLayout(l: Layout): Layout
  {
    if l.size == 0 then l
    else if l.tailInd - 1 < 0 then l.(tailInd := BlockSize - 1, tailBlock := l.tailBlock - 1, size := l.size - 1)
    else l.(tailInd := l.tailInd - 1, size := l.size - 1)
  }

  /** PopFront's index steps, the mirror image of PopBackLayout. */
  function PopFrontLayout(l: Layout): Layout
  {
    if l.size == 0 then l
    else if l.headInd + 1 >= BlockSize then l.(headInd := 0, headBlock := l.headBlock + 1, size := l.size - 1)
    else l.(headInd := l.headInd + 1, size := l.size - 1)
  }

  /** Reallocation keeps the layout well formed and the element count, and
      moves the head and the tail by the same whole number of blocks. */
  lemma ReallocatedLayoutKeeps(l: Layout, n: nat)
    requires WellFormed(l)
    ensures var r := ReallocatedLayout(l, n);
      && WellFormed(r) && r.size == l.size && r.numBlocks >= n
      && HeadOf(r) - HeadOf(l) == TailOf(r) - TailOf(l) == BlockSize * (r.headBlock - l.headBlock)
  {
  }

  /** PushBack's steps keep the layout well formed and add one position at the tail. */
  lemma PushBackLayoutKeeps(l: Layout)
    requires WellFormed(l)
    ensures WellFormed(PushBackLayout(l)) && PushBackLayout(l).size == l.size + 1
  {
    if l.tailInd >= BlockSize && l.tailBlock >= l.numBlocks {
      ReallocatedLayoutKeeps(l, ReallocationCoef * l.numBlocks);
    }
  }

  /** PushFront's steps keep the layout well formed and add one position at the head. */
  lemma PushFrontLayoutKeeps(l: Layout)
    requires WellFormed(l)
    ensures WellFormed(PushFrontLayout(l)) && PushFrontLayout(l).size == l.size + 1
  {
    if l.headInd <= -1 && l.headBlock < 0 {
      ReallocatedLayoutKeeps(l, ReallocationCoef * l.numBlocks);
    }
  }

  /** PopBack's steps keep the layout well formed and remove one position,
      none from an empty deque. */
  lemma PopBackLayoutKeeps(l: Layout)
    requires WellFormed(l)
    ensures WellFormed(PopBackLayout(l)) && PopBackLayout(l).size == if l.size == 0 then 0 else l.size - 1
  {
  }

  /** PopFront's steps keep the layout well formed and remove one position,
      none from an empty deque. */
  lemma PopFrontLayoutKeeps(l: Layout)
    requires WellFormed(l)
    ensures WellFormed(PopFrontLayout(l)) && PopFrontLayout(l).size == if l.size == 0 then 0 else l.size - 1
  {
  }

  /** The block whose pointer PopBack as written reads when the tail index
      drops below zero: tail_block_ptr_, unchecked against the array's end. */
  function PopBackReleasedAsWritten(l: Layout): Option<int>
  {
    if l.size > 0 && l.tailInd - 1 < 0 then Some(l.tailBlock) else None
  }

  /** The block whose pointer PopFront as written reads when the head index
      reaches BlockSize: head_block_ptr_, unchecked against the array's start. */
  function PopFrontReleasedAsWritten(l: Layout): Option<int>
  {
    if l.size > 0 && l.headInd + 1 >= BlockSize then Some(l.headBlock) else None
  }

  /** Corrected PopBack release: the pointer after the new tail block is
      read only when it is inside the array. */
  function PopBackReleased(l: Layout): (r: Option<int>)
    requires WellFormed(l)
    ensures r.Some? ==> 0 <= r.value < l.numBlocks && r == PopBackReleasedAsWritten(l)
    ensures PopBackReleasedAsWritten(l).Some? && PopBackReleasedAsWritten(l).value < l.numBlocks ==> r.Some?
  {
    if l.size > 0 && l.tailInd - 1 < 0 && l.tailBlock < l.numBlocks then Some(l.tailBlock) else None
  }

  /** Corrected PopFront release: the pointer before the new head block is
      read only when it is inside the array. */
  function PopFrontReleased(l: Layout): (r: Option<int>)
    requires WellFormed(l)
    ensures r.Some? ==> 0 <= r.value < l.numBlocks && r == PopFrontReleasedAsWritten(l)
    ensures PopFrontReleasedAsWritten(l).Some? && 0 <= PopFrontReleasedAsWritten(l).value ==> r.Some?
  {
    if l.size > 0 && l.headInd + 1 >= BlockSize && 0 <= l.headBlock then Some(l.headBlock) else None
  }

  /** Deque{1, 2} is built as PushFront(1) then PushBack(2); after one
      PopBack, a second PopBack as written reads blocks_[num_blocks_]. */
  lemma PopBackReadsPastEnd()
    ensures var l := PopBackLayout(PushBackLayout(PushFrontLayout(InitialLayout())));
      WellFormed(l) && l.size == 1 && PopBackReleasedAsWritten(l) == Some(l.numBlocks)
  {
    var pushed := PushBackLayout(PushFrontLayout(InitialLayout()));
    assert PushFrontLayout(InitialLayout()) == Layout(2, -1, 1, BlockSize - 2, BlockSize, 1);
    assert pushed == Layout(2, -1, 2, BlockSize - 2, 1, 2);
  }

  /** For the same Deque{1, 2}, the second PopFront as written reads blocks_[-1]. */
  lemma PopFrontReadsBeforeStart()
    ensures var l := PopFrontLayout(PushBackLayout(PushFrontLayout(InitialLayout())));
      WellFormed(l) && l.size == 1 && PopFrontReleasedAsWritten(l) == Some(-1)
  {
    var pushed := PushBackLayout(PushFrontLayout(InitialLayout()));
    assert PushFrontLayout(InitialLayout()) == Layout(2, -1, 1, BlockSize - 2, BlockSize, 1);
    assert pushed == Layout(2, -1, 2, BlockSize - 2, 1, 2);
  }

  /** Every allocated block is one of Repr's 128-int arrays, and no block
      is pointed to twice. */
  ghost predicate Allocated(pointers: seq<array?<int>>, Repr: set<array<int>>)
  {
    && (forall b :: 0 <= b < |pointers| && pointers[b] != null ==> pointers[b] in Repr && pointers[b].Length == BlockSize)
    && (forall b, c :: 0 <= b < c < |pointers| && pointers[b] != null ==> pointers[b] != pointers[c])
  }

  /** The blocks strictly between the head block and the tail block are allocated. */
  ghost predicate Live(pointers: seq<array?<int>>, headBlock: int, tailBlock: int)
  {
    && -1 <= headBlock && tailBlock <= |pointers|
    && forall b :: 0 <= b < |pointers| && headBlock < b < tailBlock ==> pointers[b] != null
  }

  /** Element i is stored at absolute position head + i. */
  ghost predicate Stores(pointers: seq<array?<int>>, Repr: set<array<int>>, head: int, elements: seq<int>)
    reads Repr
  {
    forall i :: 0 <= i < |elements| ==> StoredAt(pointers, Repr, head + i, elements[i])
  }

  /** Absolute position p is in an allocated block of Repr and holds value. */
  ghost predicate StoredAt(pointers: seq<array?<int>>, Repr: set<array<int>>, p: int, value: int)
    reads Repr
  {
    && 0 <= p / BlockSize < |pointers|
    && pointers[p / BlockSize] != null && pointers[p / BlockSize] in Repr
    && p % BlockSize < pointers[p / BlockSize].Length
    && pointers[p / BlockSize][p % BlockSize] == value
  }

  /** Changing a block pointer outside the positions head .. head + |elements| - 1,
      or adding blocks to Repr, keeps every element where it is. */
  lemma StoresOutside(pointers: seq<array?<int>>, Repr: set<array<int>>, head: nat, elements: seq<int>,
                      b: nat, block: array?<int>, Repr': set<array<int>>)
    requires Stores(pointers, Repr, head, elements) && Repr <= Repr' && b < |pointers|
    requires BlockSize * (b + 1) <= head || head + |elements| <= BlockSize * b
    ensures Stores(pointers[b := block], Repr', head, elements)
  {
    forall i | 0 <= i < |elements|
      ensures StoredAt(pointers[b := block], Repr', head + i, elements[i])
    {
      var p := head + i;
      assert StoredAt(pointers, Repr, p, elements[i]);
      if BlockSize * (b + 1) <= head {
        BlockBounds(p, b + 1, p / BlockSize + 1);
      } else {
        BlockBounds(p, 0, b);
      }
    }
  }

  /** The block pointer and the offset of absolute position head + i
      (null off the pointer array). */
  ghost function Place(pointers: seq<array?<int>>, head: int, i: nat): (array?<int>, int)
  {
    var p := head + i;
    if 0 <= p && p / BlockSize < |pointers| then (pointers[p / BlockSize], p % BlockSize) else (null, 0)
  }

  /** Changing a block pointer outside blocks lo + 1 .. hi - 1 moves none of
      the n positions from head on, when they lie in those blocks. */
  lemma PlacesOutside(pointers: seq<array?<int>>, b: int, block: array?<int>, lo: int, hi: int, head: int, n: nat)
    requires 0 <= b < |pointers| && (b <= lo || hi <= b) && -1 <= lo
    requires BlockSize * (lo + 1) <= head && head + n <= BlockSize * hi
    ensures forall i :: 0 <= i < n ==> Place(pointers[b := block], head, i) == Place(pointers, head, i)
  {
    forall i | 0 <= i < n
      ensures Place(pointers[b := block], head, i) == Place(pointers, head, i)
    {
      BlockBounds(head + i, lo + 1, hi);
    }
  }

  /** Moving the pointers `shift` places along into a larger array and the
      head `shift` blocks along keeps every position in its block, at its
      offset. */
  lemma RecentredPlaces(pointers: seq<array?<int>>, recentred: seq<array?<int>>, shift: nat, head: nat, n: nat)
    requires |pointers| + shift <= |recentred| && head + n <= BlockSize * |pointers|
    requires forall c :: 0 <= c < |recentred| ==> recentred[c] == if shift <= c < shift + |pointers| then pointers[c - shift] else null
    ensures forall i :: 0 <= i < n ==> Place(recentred, head + BlockSize * shift, i) == Place(pointers, head, i)
  {
    forall i | 0 <= i < n
      ensures Place(recentred, head + BlockSize * shift, i) == Place(pointers, head, i)
    {
      var p := head + i;
      BlockBounds(p, 0, |pointers|);
      Decompose(p + BlockSize * shift, p / BlockSize + shift, p % BlockSize);
      assert recentred[p / BlockSize + shift] == pointers[p / BlockSize];
    }
  }

  /** Copying the block pointers into the middle of a larger array, `shift`
      places along, keeps every element in its block. */
  lemma Recentred(pointers: seq<array?<int>>, recentred: seq<array?<int>>, shift: nat,
                  Repr: set<array<int>>, headBlock: int, tailBlock: int, head: nat, head': int, elements: seq<int>)
    requires |pointers| + shift <= |recentred| && head' == head + BlockSize * shift
    requires forall c :: 0 <= c < |recentred| ==> recentred[c] == if shift <= c < shift + |pointers| then pointers[c - shift] else null
    requires Allocated(pointers, Repr) && Live(pointers, headBlock, tailBlock) && Stores(pointers, Repr, head, elements)
    ensures Allocated(recentred, Repr) && Live(recentred, headBlock + shift, tailBlock + shift)
    ensures Stores(recentred, Repr, head', elements)
  {
    forall b | 0 <= b < |recentred| && recentred[b] != null
      ensures recentred[b] in Repr && recentred[b].Length == BlockSize
    {
      assert recentred[b] == pointers[b - shift];
    }
    forall b, c | 0 <= b < c < |recentred| && recentred[b] != null
      ensures recentred[b] != recentred[c]
    {
      if recentred[c] != null {
        assert recentred[b] == pointers[b - shift] && recentred[c] == pointers[c - shift];
      }
    }
    forall i | 0 <= i < |elements|
      ensures StoredAt(recentred, Repr, head' + i, elements[i])
    {
      var p := head + i;
      assert StoredAt(pointers, Repr, p, elements[i]);
      Decompose(p + BlockSize * shift, p / BlockSize + shift, p % BlockSize);
      assert recentred[p / BlockSize + shift] == pointers[p / BlockSize];
    }
    forall b | 0 <= b < |recentred| && headBlock + shift < b < tailBlock + shift
      ensures recentred[b] != null
    {
      assert recentred[b] == pointers[b - shift];
    }
  }

  /** Blocks that are element-wise copies of the originals, null where the
      originals are null, store the same elements. */
  lemma StoresCopied(pointers: seq<array?<int>>, Repr: set<array<int>>, copies: seq<array?<int>>, Repr': set<array<int>>,
                     head: int, elements: seq<int>)
    requires |copies| == |pointers| && Allocated(pointers, Repr) && Stores(pointers, Repr, head, elements)
    requires forall b :: 0 <= b < |copies| ==> (copies[b] == null <==> pointers[b] == null)
    requires forall b :: 0 <= b < |copies| && copies[b] != null ==> copies[b] in Repr' && copies[b][..] == pointers[b][..]
    ensures Stores(copies, Repr', head, elements)
  {
    forall i | 0 <= i < |elements|
      ensures StoredAt(copies, Repr', head + i, elements[i])
    {
      var p := head + i;
      assert StoredAt(pointers, Repr, p, elements[i]);
      var b := p / BlockSize;
      assert copies[b][..] == pointers[b][..];
      assert copies[b][p % BlockSize] == copies[b][..][p % BlockSize];
    }
  }

  /** Dropping the last element keeps the others where they are. */
  lemma StoresPrefix(pointers: seq<array?<int>>, Repr: set<array<int>>, head: int, elements: seq<int>, n: nat)
    requires Stores(pointers, Repr, head, elements) && n <= |elements|
    ensures Stores(pointers, Repr, head, elements[..n])
  {
    forall i | 0 <= i < n
      ensures StoredAt(pointers, Repr, head + i, elements[..n][i])
    {
      assert elements[..n][i] == elements[i];
    }
  }

  /** Dropping the first element moves the head one position along. */
  lemma StoresSuffix(pointers: seq<array?<int>>, Repr: set<array<int>>, head: int, elements: seq<int>)
    requires Stores(pointers, Repr, head, elements) && elements != []
    ensures Stores(pointers, Repr, head + 1, elements[1..])
  {
    forall i | 0 <= i < |elements| - 1
      ensures StoredAt(pointers, Repr, head + 1 + i, elements[1..][i])
    {
      assert elements[1..][i] == elements[i + 1];
      assert StoredAt(pointers, Repr, head + (i + 1), elements[i + 1]);
    }
  }

  /** The representation invariant of a deque, stated on its field values:
      the pointer array mirrors `pointers`, the layout is well formed, the
      allocated blocks are distinct 128-int arrays of Repr, every block
      between the head and tail blocks is allocated, and element i sits at
      absolute position HeadOf(l) + i. */
  ghost predicate Represents(blocks: array<array?<int>>, l: Layout, pointers: seq<array?<int>>,
                             Repr: set<array<int>>, elements: seq<int>)
    reads blocks, Repr
  {
    && blocks.Length == l.numBlocks
    && blocks[..] == pointers
    && WellFormed(l) && |elements| == l.size
    && Allocated(pointers, Repr)
    && Live(pointers, l.headBlock, l.tailBlock)
    && Stores(pointers, Repr, HeadOf(l), elements)
  }


  /** The block count the sized constructors grow to: `numBlocks` doubled
      until the blocks have room for `count` ints. */
  function BlocksFor(numBlocks: nat, count: nat): (r: nat)
    requires numBlocks >= 1
    ensures r >= numBlocks && BlockSize * r >= count
    ensures r == numBlocks || BlockSize * (r / ReallocationCoef) < count
    decreases count - BlockSize * numBlocks
  {
    if BlockSize * numBlocks >= count then numBlocks
    else BlocksFor(numBlocks * ReallocationCoef, count)
  }

  /** The doubling loop of Deque(size) and Deque(initializer_list). */
  method GrowBlocks(numBlocks: nat, count: nat) returns (n: nat)
    requires numBlocks >= 1
    ensures n == BlocksFor(numBlocks, count)
  {
    n := numBlocks;
    while BlockSize * n < count
      invariant n >= 1 && BlocksFor(n, count) == BlocksFor(numBlocks, count)
      decreases count - BlockSize * n
    {
      n := n * ReallocationCoef;
    }
  }

  /** A table of two null pointers with the initial layout holds nothing. */
  lemma InitiallyRepresents(nulls: array<array?<int>>)
    requires nulls.Length == 2 && forall b :: 0 <= b < 2 ==> nulls[b] == null
    ensures Represents(nulls, InitialLayout(), nulls[..], {}, [])
  {
  }

  /** new int*[n] filled with nullptr. */
  method NewBlockArray(n: nat) returns (a: array<array?<int>>)
    ensures fresh(a) && a.Length == n
    ensures forall b :: 0 <= b < n ==> a[b] == null
  {
    a := new array?<int>[n](_ => null);
  }

  /** new int[kBlockSize] and std::copy of a whole block. */
  method CopyBlock(source: array<int>) returns (copy: array<int>)
    ensures fresh(copy) && copy[..] == source[..]
  {
    copy := new int[source.Length];
    var i := 0;
    while i < source.Length
      invariant 0 <= i <= source.Length
      invariant forall j :: 0 <= j < i ==> copy[j] == source[j]
    {
      copy[i] := source[i];
      i := i + 1;
    }
  }

  /** The copying part of Reallocate: a new array of newLength null
      pointers with the old pointers std::copy'd `shift` places along. */
  method CopyIntoMiddle(source: array<array?<int>>, newLength: nat, shift: nat) returns (target: array<array?<int>>)
    requires shift + source.Length <= newLength
    ensures fresh(target) && target.Length == newLength
    ensures forall c :: 0 <= c < newLength ==> target[c] == if shift <= c < shift + source.Length then source[c - shift] else null
  {
    target := NewBlockArray(newLength);
    var b := 0;
    while b < source.Length
      invariant 0 <= b <= source.Length
      invariant forall c :: 0 <= c < newLength ==> target[c] == if shift <= c < shift + b then source[c - shift] else null
    {
      target[shift + b] := source[b];
      b := b + 1;
    }
  }

  /** The copying loop of Deque(const Deque&): a new pointer array of the
      same length, every allocated block copied into a new block and every
      null pointer kept null, so the copy holds the same elements in the
      same layout. */
  method CopyTable(source: array<array?<int>>, ghost l: Layout, ghost pointers: seq<array?<int>>,
                   ghost Repr: set<array<int>>, ghost elements: seq<int>)
    returns (copies: array<array?<int>>, ghost copied: set<array<int>>)
    requires Represents(source, l, pointers, Repr, elements)
    ensures fresh(copies) && fresh(copied)
    ensures Represents(copies, l, copies[..], copied, elements)
  {
    copies := NewBlockArray(source.Length);
    copied := {};
    var ind := 0;
    while ind < source.Length
      invariant 0 <= ind <= source.Length
      invariant forall b :: 0 <= b < ind ==> (copies[b] == null <==> pointers[b] == null)
      invariant forall b :: 0 <= b < ind && copies[b] != null ==> copies[b] in copied && copies[b][..] == pointers[b][..]
      invariant forall b, c :: 0 <= b < c < ind && copies[b] != null ==> copies[b] != copies[c]
      invariant fresh(copied)
    {
      if source[ind] != null {
        var block := CopyBlock(source[ind]);
        copies[ind] := block;
        copied := copied + {block};
      } else {
        copies[ind] := null;
      }
      ind := ind + 1;
    }
    StoresCopied(pointers, Repr, copies[..], copied, HeadOf(l), elements);
  }

  class Deque {
    var blocks: array<array?<int>>
    var numBlocks: nat
    var headBlock: int
    var tailBlock: int
    var headInd: int
    var tailInd: int
    var size: nat
    ghost var pointers: seq<array?<int>>
    ghost var elements: seq<int>
    ghost var Repr: set<array<int>>

    /** The scalar part of the representation. */
    function Shape(): Layout
      reads this
    {
      Layout(numBlocks, headBlock, tailBlock, headInd, tailInd, size)
    }

    ghost predicate Valid()
      reads this, blocks, Repr
    {
      Represents(blocks, Shape(), pointers, Repr, elements)
    }

    /** Deque(): the state Initialize() leaves. */
    constructor ()
      ensures Valid() && Shape() == InitialLayout() && elements == []
      ensures fresh(blocks) && Repr == {}
    {
      var nulls := NewBlockArray(2);
      InitiallyRepresents(nulls);
      blocks := nulls;
      numBlocks := 2;
      headBlock := 2 / 2 - 1;
      tailBlock := 2 / 2;
      headInd := -1;
      tailInd := BlockSize;
      size := 0;
      pointers := nulls[..];
      elements := [];
      Repr := {};
    }

    /** Initialize(): two null block pointers, the head just before the
        boundary between them and the tail just after it. */
    method Initialize()
      modifies this
      ensures Valid() && Shape() == InitialLayout() && elements == []
      ensures fresh(blocks) && Repr == {}
    {
      var nulls := NewBlockArray(2);
      InitiallyRepresents(nulls);
      Assign(nulls, Layout(2, 2 / 2 - 1, 2 / 2, -1, BlockSize, 0), nulls[..], {}, []);
    }

    /** Size(). */
    function Size(): (r: nat)
      reads this, blocks, Repr
      requires Valid()
      ensures r == |elements|
    {
      size
    }

    /** The block and offset operator[] computes for an index: absolute
        position HeadOf + index. */
    function Address(index: nat): (r: (int, int))
      reads this
      requires -1 <= headBlock && -1 <= headInd < BlockSize
      ensures r.0 == (HeadOf(Shape()) + index) / BlockSize && r.1 == (HeadOf(Shape()) + index) % BlockSize
    {
      var firstBlockElements := BlockSize - headInd - 1;
      if firstBlockElements > index then
        Decompose(HeadOf(Shape()) + index, headBlock + 1, headInd + index + 1);
        (headBlock + 1, headInd + index + 1)
      else
        var rest := index - firstBlockElements;
        Decompose(rest, rest / BlockSize, rest % BlockSize);
        Decompose(HeadOf(Shape()) + index, headBlock + 2 + rest / BlockSize, rest % BlockSize);
        (headBlock + 2 + rest / BlockSize, rest % BlockSize)
    }

    /** const operator[]: the element at an index. */
    function Get(index: nat): (r: int)
      reads this, blocks, Repr
      requires Valid() && index < size
      ensures r == elements[index]
    {
      var address := Address(index);
      blocks[address.0][address.1]
    }

    /** The block pointer and the offset absolute position HeadOf + i
        names: for an element, the address `&a[i]` denotes (null off the
        pointer array). */
    ghost function Slot(i: nat): (array?<int>, int)
      reads this
    {
      Place(pointers, HeadOf(Shape()), i)
    }

    /** Element i lives at its slot: the block and offset operator[]
        computes, an allocated block of Repr holding the element there. */
    lemma SlotHolds(i: nat)
      requires Valid() && i < |elements|
      ensures 0 <= Address(i).0 < blocks.Length && Slot(i) == (blocks[Address(i).0], Address(i).1)
      ensures Slot(i).0 != null && Slot(i).0 in Repr && 0 <= Slot(i).1 < Slot(i).0.Length
      ensures Slot(i).0[Slot(i).1] == elements[i]
    {
      assert StoredAt(pointers, Repr, HeadOf(Shape()) + i, elements[i]);
    }

    /** Consecutive elements within a block are adjacent ints of it:
        `&a[i] + 1 == &a[i + 1]` unless element i ends its block. */
    lemma SlotsAdjacent(i: nat)
      requires Valid() && i + 1 < |elements| && Slot(i).1 < BlockSize - 1
      ensures Slot(i + 1) == (Slot(i).0, Slot(i).1 + 1)
    {
      var p := HeadOf(Shape()) + i;
      assert StoredAt(pointers, Repr, p + 1, elements[i + 1]);
      Decompose(p + 1, p / BlockSize, p % BlockSize + 1);
    }

    /** When the first element starts a block, as after Deque(n), element i
        sits at offset i % 128 of its block; so elements i and i + 1 are
        adjacent ints unless i ends a block: for Deque(129) every i < 127. */
    lemma AlignedSlotsAdjacent(i: nat)
      requires Valid() && HeadOf(Shape()) % BlockSize == 0
      requires i + 1 < |elements| && i % BlockSize < BlockSize - 1
      ensures Slot(i).1 == i % BlockSize
      ensures Slot(i + 1) == (Slot(i).0, Slot(i).1 + 1)
    {
      var head := HeadOf(Shape());
      SlotHolds(i);
      Decompose(head + i, head / BlockSize + i / BlockSize, i % BlockSize);
      SlotsAdjacent(i);
    }

    /** Writing through the reference operator[] returns. */
    method Set(index: nat, value: int)
      requires Valid() && index < size
      modifies this, Repr
      ensures Valid() && elements == old(elements)[index := value]
      ensures Shape() == old(Shape()) && blocks == old(blocks) && Repr == old(Repr)
    {
      var address := Address(index);
      blocks[address.0][address.1] := value;
      elements := elements[index := value];
      forall i | 0 <= i < size
        ensures StoredAt(pointers, Repr, HeadOf(Shape()) + i, elements[i])
      {
        var p := HeadOf(Shape()) + i;
        if i == index {
          assert blocks[address.0][address.1] == value;
        } else {
          assert old(StoredAt(pointers, Repr, p, elements[i]));
          if pointers[p / BlockSize] == pointers[address.0] {
            assert p / BlockSize == address.0;
            assert p % BlockSize != address.1;
          }
        }
      }
    }

    /** Reallocate(new_num_blocks): nothing unless the array grows. */
    method Reallocate(newNumBlocks: nat)
      requires Valid()
      modifies this
      ensures Valid() && elements == old(elements) && Repr == old(Repr)
      ensures Shape() == ReallocatedLayout(old(Shape()), newNumBlocks)
      ensures newNumBlocks <= old(numBlocks) ==> blocks == old(blocks) && pointers == old(pointers)
      ensures newNumBlocks > old(numBlocks) ==> fresh(blocks)
      ensures forall i :: 0 <= i < |elements| ==> Slot(i) == old(Slot(i))
    {
      if newNumBlocks <= numBlocks {
        return;
      }
      ghost var oldPointers, head := pointers, HeadOf(Shape());
      Grow(newNumBlocks);
      RecentredPlaces(oldPointers, pointers, (numBlocks - |oldPointers|) / 2, head, |elements|);
    }

    /** The growing case of Reallocate: the old block pointers are copied
        into the middle of a new array, so every block keeps its contents
        and the head and tail stay on their blocks. */
    method Grow(newNumBlocks: nat)
      requires Valid() && newNumBlocks > numBlocks
      modifies this
      ensures Valid() && elements == old(elements) && Repr == old(Repr) && fresh(blocks)
      ensures Shape() == ReallocatedLayout(old(Shape()), newNumBlocks)
      ensures var shift := (numBlocks - old(numBlocks)) / 2;
        forall c :: 0 <= c < numBlocks ==> pointers[c] == if shift <= c < shift + old(numBlocks) then old(pointers)[c - shift] else null
    {
      var shift := (newNumBlocks - numBlocks) / 2;
      var newBlocks := CopyIntoMiddle(blocks, newNumBlocks, shift);
      var grown := Layout(newNumBlocks, headBlock + shift, tailBlock + shift, headInd, tailInd, size);
      ReallocatedLayoutKeeps(Shape(), newNumBlocks);
      Recentred(pointers, newBlocks[..], shift, Repr, headBlock, tailBlock, HeadOf(Shape()), HeadOf(grown), elements);
      Assign(newBlocks, grown, newBlocks[..], Repr, elements);
    }

    /** *block_ptr = new int[kBlockSize] for the head block or the tail block
        pointer, neither of which points at a block holding elements. */
    method AllocateBlock(b: int)
      requires Valid() && (b == headBlock || b == tailBlock) && 0 <= b < numBlocks && blocks[b] == null
      modifies blocks, this`Repr, this`pointers
      ensures Valid() && blocks[b] != null && fresh(blocks[b])
      ensures Repr == old(Repr) + {blocks[b]} && pointers == old(pointers)[b := blocks[b]]
      ensures forall i :: 0 <= i < |elements| ==> Slot(i) == old(Slot(i))
    {
      var block := new int[BlockSize];
      ghost var oldPointers, oldRepr := pointers, Repr;
      blocks[b] := block;
      pointers := pointers[b := block];
      Repr := Repr + {block};
      StoresOutside(oldPointers, oldRepr, HeadOf(Shape()), elements, b, block, Repr);
      PlacesOutside(oldPointers, b, block, headBlock, tailBlock, HeadOf(Shape()), |elements|);
    }

    /** The block step of PushBack once the tail block is full and the tail
        block pointer is inside the array: allocate the block it points at
        if there is none and move the tail to that block's start. */
    method AdvanceTail()
      requires Valid() && tailInd >= BlockSize && tailBlock < numBlocks
      modifies this, blocks
      ensures Valid() && elements == old(elements) && fresh(Repr - old(Repr)) && blocks == old(blocks)
      ensures Shape() == old(Shape()).(tailBlock := old(tailBlock) + 1, tailInd := 0)
      ensures forall i :: 0 <= i < |elements| ==> Slot(i) == old(Slot(i))
    {
      if blocks[tailBlock] == null {
        AllocateBlock(tailBlock);
      }
      ghost var head := HeadOf(Shape());
      tailBlock := tailBlock + 1;
      tailInd := 0;
      assert HeadOf(Shape()) == head;
    }

    /** The block step of PushFront, the mirror image of AdvanceTail. */
    method AdvanceHead()
      requires Valid() && headInd <= -1 && 0 <= headBlock
      modifies this, blocks
      ensures Valid() && elements == old(elements) && fresh(Repr - old(Repr)) && blocks == old(blocks)
      ensures Shape() == old(Shape()).(headBlock := old(headBlock) - 1, headInd := BlockSize - 1)
      ensures forall i :: 0 <= i < |elements| ==> Slot(i) == old(Slot(i))
    {
      if blocks[headBlock] == null {
        AllocateBlock(headBlock);
      }
      ghost var head := HeadOf(Shape());
      headBlock := headBlock - 1;
      headInd := BlockSize - 1;
      assert HeadOf(Shape()) == head;
    }

    /** The store step of PushBack: the value goes one past the last element. */
    method StoreAtTail(value: int)
      requires Valid() && tailInd < BlockSize
      modifies this, Repr
      ensures Valid() && elements == old(elements) + [value]
      ensures Shape() == old(Shape()).(tailInd := old(tailInd) + 1, size := old(size) + 1)
      ensures blocks == old(blocks) && Repr == old(Repr) && pointers == old(pointers)
      ensures forall i :: 0 <= i < |old(elements)| ==> Slot(i) == old(Slot(i))
    {
      ghost var position, head := TailOf(Shape()), HeadOf(Shape());
      Decompose(position, tailBlock - 1, tailInd);
      label Write:
      blocks[tailBlock - 1][tailInd] := value;
      tailInd := tailInd + 1;
      size := size + 1;
      elements := elements + [value];
      forall i | 0 <= i < size
        ensures StoredAt(pointers, Repr, HeadOf(Shape()) + i, elements[i])
      {
        var p := HeadOf(Shape()) + i;
        if i < size - 1 {
          assert old@Write(StoredAt(pointers, Repr, p, elements[i]));
        }
      }
      assert HeadOf(Shape()) == head;
      forall i | 0 <= i < size - 1
        ensures Slot(i) == old(Slot(i))
      {
        assert Slot(i) == Place(pointers, head, i);
      }
    }

    /** The store step of PushFront: the value goes just before the first element. */
    method StoreAtHead(value: int)
      requires Valid() && headInd > -1
      modifies this, Repr
      ensures Valid() && elements == [value] + old(elements)
      ensures Shape() == old(Shape()).(headInd := old(headInd) - 1, size := old(size) + 1)
      ensures blocks == old(blocks) && Repr == old(Repr) && pointers == old(pointers)
      ensures forall i :: 0 <= i < |old(elements)| ==> Slot(i + 1) == old(Slot(i))
    {
      ghost var position := HeadOf(Shape()) - 1;
      ghost var previous := elements;
      Decompose(position, headBlock + 1, headInd);
      label Write:
      blocks[headBlock + 1][headInd] := value;
      headInd := headInd - 1;
      size := size + 1;
      elements := [value] + elements;
      forall i | 0 <= i < size
        ensures StoredAt(pointers, Repr, position + i, elements[i])
      {
        if 0 < i {
          assert old@Write(StoredAt(pointers, Repr, position + 1 + (i - 1), previous[i - 1]));
        }
      }
      assert HeadOf(Shape()) == position;
      forall i | 0 <= i < |previous|
        ensures Slot(i + 1) == old(Slot(i))
      {
        assert Place(pointers, position, i + 1) == Place(pointers, position + 1, i);
      }
    }

    /** PushBack(value): the value becomes the last element. */
    method PushBack(value: int)
      requires Valid()
      modifies this, blocks, Repr
      ensures Valid() && elements == old(elements) + [value] && fresh(Repr - old(Repr))
      ensures Shape() == PushBackLayout(old(Shape())) && (blocks == old(blocks) || fresh(blocks))
      ensures forall i :: 0 <= i < |old(elements)| ==> Slot(i) == old(Slot(i))
    {
      if tailInd >= BlockSize {
        if tailBlock >= numBlocks {
          Reallocate(ReallocationCoef * numBlocks);
        }
        AdvanceTail();
      }
      StoreAtTail(value);
    }

    /** PushFront(value): the value becomes the first element. */
    method PushFront(value: int)
      requires Valid()
      modifies this, blocks, Repr
      ensures Valid() && elements == [value] + old(elements) && fresh(Repr - old(Repr))
      ensures Shape() == PushFrontLayout(old(Shape())) && (blocks == old(blocks) || fresh(blocks))
      ensures forall i :: 0 <= i < |old(elements)| ==> Slot(i + 1) == old(Slot(i))
    {
      if headInd <= -1 {
        if headBlock < 0 {
          Reallocate(ReallocationCoef * numBlocks);
        }
        AdvanceHead();
      }
      StoreAtHead(value);
    }

    /** Frees the block a pointer outside the live blocks points at, if any:
        delete[] *block_ptr; *block_ptr = nullptr. */
    method ReleaseBlock(b: int)
      requires Valid() && 0 <= b < numBlocks && (b <= headBlock || tailBlock <= b)
      modifies blocks, this`pointers
      ensures Valid() && pointers == old(pointers)[b := null]
      ensures forall i :: 0 <= i < |elements| ==> Slot(i) == old(Slot(i))
    {
      if blocks[b] != null {
        StoresOutside(pointers, Repr, HeadOf(Shape()), elements, b, null, Repr);
        PlacesOutside(pointers, b, null, headBlock, tailBlock, HeadOf(Shape()), |elements|);
        blocks[b] := null;
        pointers := pointers[b := null];
      } else {
        assert pointers[b := null] == pointers;
      }
    }

    /** The index steps of PopBack on a nonempty deque: one element fewer at
        the tail, moving to the previous block when the tail index drops
        below zero. */
    method DropBack()
      requires Valid() && size > 0
      modifies this
      ensures Valid() && elements == old(elements[..|elements| - 1]) && Shape() == PopBackLayout(old(Shape()))
      ensures blocks == old(blocks) && pointers == old(pointers) && Repr == old(Repr)
      ensures forall i :: 0 <= i < |elements| ==> Slot(i) == old(Slot(i))
    {
      ghost var head := HeadOf(Shape());
      StoresPrefix(pointers, Repr, head, elements, size - 1);
      tailInd := tailInd - 1;
      size := size - 1;
      elements := elements[..size];
      if tailInd < 0 {
        tailInd := BlockSize - 1;
        tailBlock := tailBlock - 1;
      }
      assert HeadOf(Shape()) == head;
      forall i | 0 <= i < |elements|
        ensures Slot(i) == old(Slot(i))
      {
        assert Slot(i) == Place(pointers, head, i);
      }
    }

    /** The index steps of PopFront on a nonempty deque, the mirror image of DropBack. */
    method DropFront()
      requires Valid() && size > 0
      modifies this
      ensures Valid() && elements == old(elements[1..]) && Shape() == PopFrontLayout(old(Shape()))
      ensures blocks == old(blocks) && pointers == old(pointers) && Repr == old(Repr)
      ensures forall i :: 0 <= i < |elements| ==> Slot(i) == old(Slot(i + 1))
    {
      ghost var head := HeadOf(Shape()) + 1;
      StoresSuffix(pointers, Repr, head - 1, elements);
      headInd := headInd + 1;
      size := size - 1;
      elements := elements[1..];
      if headInd >= BlockSize {
        headInd := 0;
        headBlock := headBlock + 1;
      }
      assert HeadOf(Shape()) == head;
      forall i | 0 <= i < |elements|
        ensures Slot(i) == old(Slot(i + 1))
      {
        assert Place(pointers, head, i) == Place(pointers, head - 1, i + 1);
      }
    }

    /** PopBack(): nothing on an empty deque, otherwise the last element goes;
        when the tail index drops below zero the block tail_block_ptr_ points
        at (the one after the last element's block) is freed, provided that
        pointer is inside the array. */
    method PopBack()
      requires Valid()
      modifies this, blocks
      ensures Valid() && elements == if old(elements) == [] then [] else old(elements)[..|old(elements)| - 1]
      ensures Shape() == PopBackLayout(old(Shape())) && Repr == old(Repr) && blocks == old(blocks)
      ensures pointers == match PopBackReleased(old(Shape())) case Some(b) => old(pointers)[b := null] case None => old(pointers)
      ensures forall i :: 0 <= i < |elements| ==> Slot(i) == old(Slot(i))
    {
      if size == 0 {
        return;
      }
      if tailInd - 1 < 0 && tailBlock < numBlocks {
        ReleaseBlock(tailBlock);
      }
      DropBack();
    }

    /** PopFront(): the mirror image of PopBack; the freed block is the one
        head_block_ptr_ points at, provided that pointer is inside the array. */
    method PopFront()
      requires Valid()
      modifies this, blocks
      ensures Valid() && elements == if old(elements) == [] then [] else old(elements)[1..]
      ensures Shape() == PopFrontLayout(old(Shape())) && Repr == old(Repr) && blocks == old(blocks)
      ensures pointers == match PopFrontReleased(old(Shape())) case Some(b) => old(pointers)[b := null] case None => old(pointers)
      ensures forall i :: 0 <= i < |elements| ==> Slot(i) == old(Slot(i + 1))
    {
      if size == 0 {
        return;
      }
      if headInd + 1 >= BlockSize && 0 <= headBlock {
        ReleaseBlock(headBlock);
      }
      DropFront();
    }

    /** Deque(size): Deque(), then the block array grown to BlocksFor(2, count)
        blocks, then `count` zeros pushed at the back. */
    constructor OfSize(count: nat)
      ensures Valid() && elements == seq(count, _ => 0)
      ensures HeadOf(Shape()) % BlockSize == 0
      ensures fresh(blocks) && fresh(Repr)
    {
      var nulls := NewBlockArray(2);
      blocks := nulls;
      numBlocks := 2;
      headBlock := 2 / 2 - 1;
      tailBlock := 2 / 2;
      headInd := -1;
      tailInd := BlockSize;
      size := 0;
      pointers := nulls[..];
      elements := [];
      Repr := {};
      new;
      InitiallyRepresents(nulls);
      var newNumBlocks := GrowBlocks(numBlocks, count);
      Reallocate(newNumBlocks);
      AppendAll(seq(count, _ => 0));
    }

    /** Deque(initializer_list): Deque(), the block array grown until it has
        room for the list, then the first half pushed at the front from its
        middle outwards and the second half pushed at the back, so the deque
        holds the list in order. */
    constructor OfList(list: seq<int>)
      ensures Valid() && elements == list
      ensures fresh(blocks) && fresh(Repr)
    {
      var nulls := NewBlockArray(2);
      blocks := nulls;
      numBlocks := 2;
      headBlock := 2 / 2 - 1;
      tailBlock := 2 / 2;
      headInd := -1;
      tailInd := BlockSize;
      size := 0;
      pointers := nulls[..];
      elements := [];
      Repr := {};
      new;
      InitiallyRepresents(nulls);
      var newNumBlocks := GrowBlocks(numBlocks, |list|);
      Reallocate(newNumBlocks);
      assert list[..|list| / 2] + [] + list[|list| / 2..] == list;
      PushHalves(list);
    }

    /** The two loops of Deque(initializer_list): the first half of `list`
        pushed at the front, then the second half at the back. */
    method PushHalves(list: seq<int>)
      requires Valid()
      modifies this, blocks, Repr
      ensures Valid() && elements == list[..|list| / 2] + old(elements) + list[|list| / 2..]
      ensures fresh(Repr - old(Repr)) && (blocks == old(blocks) || fresh(blocks))
    {
      PrependAll(list[..|list| / 2]);
      AppendAll(list[|list| / 2..]);
    }

    /** The push-back loop of the sized constructors: each value in order. */
    method AppendAll(values: seq<int>)
      requires Valid()
      modifies this, blocks, Repr
      ensures Valid() && elements == old(elements) + values && headInd == old(headInd)
      ensures fresh(Repr - old(Repr)) && (blocks == old(blocks) || fresh(blocks))
    {
      var it := 0;
      while it < |values|
        invariant 0 <= it <= |values|
        invariant Valid() && elements == old(elements) + values[..it] && headInd == old(headInd)
        invariant fresh(Repr - old(Repr)) && (blocks == old(blocks) || fresh(blocks))
      {
        PushBack(values[it]);
        it := it + 1;
      }
    }

    /** The push-front loop of Deque(initializer_list): the values from the
        last to the first, which leaves them in order in front. */
    method PrependAll(values: seq<int>)
      requires Valid()
      modifies this, blocks, Repr
      ensures Valid() && elements == values + old(elements)
      ensures fresh(Repr - old(Repr)) && (blocks == old(blocks) || fresh(blocks))
    {
      var it := |values|;
      while it > 0
        invariant 0 <= it <= |values|
        invariant Valid() && elements == values[it..] + old(elements)
        invariant fresh(Repr - old(Repr)) && (blocks == old(blocks) || fresh(blocks))
      {
        it := it - 1;
        ghost var rest := elements;
        PushFront(values[it]);
        calc {
          elements;
          [values[it]] + rest;
          [values[it]] + (values[it + 1..] + old(elements));
          ([values[it]] + values[it + 1..]) + old(elements);
          { assert [values[it]] + values[it + 1..] == values[it..]; }
          values[it..] + old(elements);
        }
      }
    }

    /** Deque(const Deque&): a new pointer array of the same length where
        every allocated block of the source is copied into a new block and
        every null pointer stays null; same indices and size. */
    constructor Copy(other: Deque)
      requires other.Valid()
      ensures Valid() && elements == other.elements && Shape() == other.Shape()
      ensures fresh(blocks) && fresh(Repr)
    {
      var copies;
      ghost var copied;
      copies, copied := CopyTable(other.blocks, other.Shape(), other.pointers, other.Repr, other.elements);
      blocks := copies;
      numBlocks := other.numBlocks;
      headBlock := other.headBlock;
      tailBlock := other.tailBlock;
      headInd := other.headInd;
      tailInd := other.tailInd;
      size := other.size;
      pointers := copies[..];
      elements := other.elements;
      Repr := copied;
    }

    /** Deque(Deque&&): Swap(other) with the new object, then
        other.Initialize(): this deque takes the source's blocks and the
        source is left empty. */
    constructor Move(other: Deque)
      requires other.Valid()
      modifies other
      ensures Valid() && elements == old(other.elements) && Shape() == old(other.Shape())
      ensures blocks == old(other.blocks) && Repr == old(other.Repr)
      ensures other.Valid() && other.elements == [] && other.Shape() == InitialLayout()
    {
      blocks := other.blocks;
      numBlocks := other.numBlocks;
      headBlock := other.headBlock;
      tailBlock := other.tailBlock;
      headInd := other.headInd;
      tailInd := other.tailInd;
      size := other.size;
      pointers := other.pointers;
      elements := other.elements;
      Repr := other.Repr;
      new;
      other.Initialize();
    }

    /** Overwrites every field with the given values. */
    method Assign(blocks': array<array?<int>>, l: Layout, ghost pointers': seq<array?<int>>,
                  ghost Repr': set<array<int>>, ghost elements': seq<int>)
      modifies this
      ensures blocks == blocks' && Shape() == l && pointers == pointers'
      ensures Repr == Repr' && elements == elements'
    {
      blocks, numBlocks, headBlock, tailBlock := blocks', l.numBlocks, l.headBlock, l.tailBlock;
      headInd, tailInd, size := l.headInd, l.tailInd, l.size;
      pointers, Repr, elements := pointers', Repr', elements';
    }

    /** Swap(other): every field exchanged. */
    method Swap(other: Deque)
      requires Valid() && other.Valid()
      modifies this, other
      ensures Valid() && other.Valid()
      ensures elements == old(other.elements) && other.elements == old(elements)
      ensures Shape() == old(other.Shape()) && other.Shape() == old(Shape())
      ensures blocks == old(other.blocks) && other.blocks == old(blocks)
      ensures Repr == old(other.Repr) && other.Repr == old(Repr)
    {
      var mine, shape := blocks, Shape();
      ghost var myPointers, myRepr, myElements := pointers, Repr, elements;
      Assign(other.blocks, other.Shape(), other.pointers, other.Repr, other.elements);
      other.Assign(mine, shape, myPointers, myRepr, myElements);
    }

    /** operator=(const Deque&): copy-and-swap; assigning a deque to itself
        changes nothing. */
    method CopyAssign(other: Deque)
      requires Valid() && other.Valid()
      modifies this
      ensures Valid() && elements == old(other.elements)
      ensures other == this ==> Shape() == old(Shape()) && blocks == old(blocks)
      ensures other != this ==> Shape() == old(other.Shape()) && fresh(blocks) && fresh(Repr)
    {
      if other != this {
        var copy := new Deque.Copy(other);
        Swap(copy);
      }
    }

    /** operator=(Deque&&): the old blocks are destroyed, the fields swapped
        with the source and the source re-initialized.  Moving a deque into
        itself therefore leaves it empty. */
    method MoveAssign(other: Deque)
      requires Valid() && other.Valid()
      modifies this, other
      ensures Valid() && other.Valid() && other.elements == [] && other.Shape() == InitialLayout()
      ensures other != this ==> elements == old(other.elements) && Shape() == old(other.Shape())
      ensures other == this ==> elements == []
    {
      Swap(other);
      other.Initialize();
    }

    /** Clear(): the destructor's work, then Initialize(). */
    method Clear()
      modifies this
      ensures Valid() && elements == [] && Shape() == InitialLayout()
    {
      Initialize();
    }
  }
}
