/** The AVL-tree set: a binary search tree whose nodes carry a balance
    factor (height of the left subtree minus height of the right one),
    rebalanced by rotations after every insertion and erasure, behind a
    sentinel node that stands for End. The tree is modelled as a value; the
    tree object holds it in a field that its operations reassign. */
module AvlSet {
  import opened Wrappers

  /** A subtree: null, or a node with its key, its children and its balance. */
  datatype Tree = Leaf | Node(left: Tree, key: int, right: Tree, balance: int)

  /** What an iterator points at: a node of the tree (named by its key, which
      is unique), the sentinel End, or nullptr. */
  datatype Cursor = Null | End | At(key: int)

  ghost function Keys(t: Tree): set<int>
  {
    match t
    case Leaf => {}
    case Node(l, k, r, _) => Keys(l) + {k} + Keys(r)
  }

  ghost function Height(t: Tree): nat
  {
    match t
    case Leaf => 0
    case Node(l, _, r, _) => 1 + (if Height(l) < Height(r) then Height(r) else Height(l))
  }

  /** Search-tree order: every key left of a node is smaller than the node's
      key and every key right of it is larger. */
  ghost predicate Ordered(t: Tree)
  {
    match t
    case Leaf => true
    case Node(l, k, r, _) =>
      && Ordered(l) && Ordered(r)
      && (forall x :: x in Keys(l) ==> x < k)
      && (forall x :: x in Keys(r) ==> k < x)
  }

  /** The AVL shape: every balance field is the height of the left subtree
      minus that of the right one, and lies in -1 .. 1. */
  ghost predicate Balanced(t: Tree)
  {
    match t
    case Leaf => true
    case Node(l, _, r, b) => Balanced(l) && Balanced(r) && b == Height(l) - Height(r) && -1 <= b <= 1
  }

  /** A node whose children are AVL trees and whose balance field is exact
      but may have reached -2 or 2: the state Rebalance finds a node in. */
  ghost predicate Leaning(t: Tree)
  {
    && t.Node? && Balanced(t.left) && Balanced(t.right)
    && t.balance == Height(t.left) - Height(t.right) && -2 <= t.balance <= 2
  }

  /** The keys in the order an iterator walks them. */
  function InOrder(t: Tree): seq<int>
  {
    match t
    case Leaf => []
    case Node(l, k, r, _) => InOrder(l) + [k] + InOrder(r)
  }

  ghost predicate StrictlyIncreasing(s: seq<int>)
  {
    forall i, j :: 0 <= i < j < |s| ==> s[i] < s[j]
  }

  /** a + [k] + b increases strictly exactly when a and b do, every
      element of a is below k and every element of b above it. */
  lemma SplitIncreasing(a: seq<int>, k: int, b: seq<int>)
    ensures StrictlyIncreasing(a + [k] + b) <==>
      && StrictlyIncreasing(a) && StrictlyIncreasing(b)
      && (forall x :: x in a ==> x < k) && (forall y :: y in b ==> k < y)
  {
    var s := a + [k] + b;
    var n := |a|;
    assert s[n] == k;
    if StrictlyIncreasing(s) {
      forall i, j | 0 <= i < j < n ensures a[i] < a[j] {
        assert s[i] == a[i] && s[j] == a[j];
      }
      forall i, j | 0 <= i < j < |b| ensures b[i] < b[j] {
        assert s[n + 1 + i] == b[i] && s[n + 1 + j] == b[j];
      }
      forall x | x in a ensures x < k {
        var i :| 0 <= i < n && a[i] == x;
        assert s[i] == x;
      }
      forall y | y in b ensures k < y {
        var i :| 0 <= i < |b| && b[i] == y;
        assert s[n + 1 + i] == y;
      }
    }
    if && StrictlyIncreasing(a) && StrictlyIncreasing(b)
       && (forall x :: x in a ==> x < k) && (forall y :: y in b ==> k < y)
    {
      forall i, j | 0 <= i < j < |s| ensures s[i] < s[j] {
        if j < n {
          assert s[i] == a[i] && s[j] == a[j];
        } else if j == n {
          assert s[i] == a[i] && a[i] in a;
        } else if i > n {
          assert s[i] == b[i - n - 1] && s[j] == b[j - n - 1];
        } else if i == n {
          assert s[j] == b[j - n - 1] && b[j - n - 1] in b;
        } else {
          assert s[i] == a[i] && a[i] in a && s[j] == b[j - n - 1] && b[j - n - 1] in b;
        }
      }
    }
  }

  /** Leaving out the middle element of a strictly increasing sequence
      leaves it strictly increasing. */
  lemma DropMiddle(a: seq<int>, k: int, b: seq<int>)
    requires StrictlyIncreasing(a + [k] + b)
    ensures StrictlyIncreasing(a + b)
  {
    SplitIncreasing(a, k, b);
    var s := a + b;
    var n := |a|;
    forall i, j | 0 <= i < j < |s| ensures s[i] < s[j] {
      if j < n {
        assert s[i] == a[i] && s[j] == a[j];
      } else if i >= n {
        assert s[i] == b[i - n] && s[j] == b[j - n];
      } else {
        assert s[i] == a[i] && a[i] in a && s[j] == b[j - n] && b[j - n] in b;
      }
    }
  }

  lemma {:induction false} KeysInOrder(t: Tree)
    ensures forall x :: x in InOrder(t) <==> x in Keys(t)
  {
    match t
    case Leaf =>
    case Node(l, k, r, _) =>
      KeysInOrder(l);
      KeysInOrder(r);
  }

  /** A tree is a search tree exactly when its in-order walk increases
      strictly. */
  lemma {:induction false} OrderedIffSortedWalk(t: Tree)
    ensures Ordered(t) <==> StrictlyIncreasing(InOrder(t))
  {
    match t
    case Leaf =>
    case Node(l, k, r, _) =>
      OrderedIffSortedWalk(l);
      OrderedIffSortedWalk(r);
      KeysInOrder(l);
      KeysInOrder(r);
      SplitIncreasing(InOrder(l), k, InOrder(r));
  }

  /** Min(node): the leftmost node of a subtree. */
  function Minimum(t: Tree): int
    requires t.Node?
  {
    if t.left.Leaf? then t.key else Minimum(t.left)
  }

  /** Max(node): the rightmost node of a subtree. */
  function Maximum(t: Tree): int
    requires t.Node?
  {
    if t.right.Leaf? then t.key else Maximum(t.right)
  }

  /** The leftmost node of an ordered tree holds its smallest key. */
  lemma {:induction false} MinimumIsLeast(t: Tree)
    requires t.Node? && Ordered(t)
    ensures Minimum(t) in Keys(t) && forall x :: x in Keys(t) ==> Minimum(t) <= x
  {
    if t.left.Node? {
      MinimumIsLeast(t.left);
    }
  }

  /** The rightmost node of an ordered tree holds its largest key. */
  lemma {:induction false} MaximumIsGreatest(t: Tree)
    requires t.Node? && Ordered(t)
    ensures Maximum(t) in Keys(t) && forall x :: x in Keys(t) ==> x <= Maximum(t)
  {
    if t.right.Node? {
      MaximumIsGreatest(t.right);
    }
  }

  /** Begin(): the leftmost node, or End for an empty tree. */
  function First(t: Tree): Cursor
  {
    if t.Leaf? then End else At(Minimum(t))
  }

  /** c is what Next yields after key k in a tree holding s: the node with the
      smallest larger key, or End when k is the largest. */
  ghost predicate IsSuccessor(s: set<int>, k: int, c: Cursor)
  {
    || (c == End && forall x :: x in s ==> x <= k)
    || (c.At? && c.key in s && k < c.key && forall x :: x in s && k < x ==> c.key <= x)
  }

  /** c is what Prev yields before key k: the node with the largest smaller
      key, or nullptr when k is the smallest. */
  ghost predicate IsPredecessor(s: set<int>, k: int, c: Cursor)
  {
    || (c == Null && forall x :: x in s ==> k <= x)
    || (c.At? && c.key in s && c.key < k && forall x :: x in s && x < k ==> x <= c.key)
  }

  // ---------------------------------------------------------------------
  // Rotations, with the balance updates of RotateLeft and RotateRight.

  /** RotateLeft(a): b = a's right child becomes the subtree root, a takes
      b's left subtree as its right one. */
  function RotateLeft(a: Tree): (r: Tree)
    requires a.Node? && a.right.Node?
    ensures r.Node? && r.left.Node?
    ensures InOrder(r) == InOrder(a)
  {
    var b := a.right;
    var aBalance := a.balance + 1 + (if b.balance < 0 then -b.balance else 0);
    var bBalance := b.balance + 1 + (if b.balance < 0 then aBalance else 0);
    Node(Node(a.left, a.key, b.left, aBalance), b.key, b.right, bBalance)
  }

  /** RotateRight(a): the mirror image of RotateLeft. */
  function RotateRight(a: Tree): (r: Tree)
    requires a.Node? && a.left.Node?
    ensures r.Node? && r.right.Node?
    ensures InOrder(r) == InOrder(a)
  {
    var b := a.left;
    var aBalance := a.balance - 1 + (if b.balance > 0 then -b.balance else 0);
    var bBalance := b.balance - 1 + (if b.balance > 0 then aBalance else 0);
    Node(b.left, b.key, Node(b.right, a.key, a.right, aBalance), bBalance)
  }

  /** RotateRightLeft: RotateRight on the right child, then RotateLeft. */
  function RotateRightLeft(n: Tree): (r: Tree)
    requires n.Node? && n.right.Node? && n.right.left.Node?
    ensures InOrder(r) == InOrder(n)
  {
    RotateLeft(n.(right := RotateRight(n.right)))
  }

  /** RotateLeftRight: RotateLeft on the left child, then RotateRight. */
  function RotateLeftRight(n: Tree): (r: Tree)
    requires n.Node? && n.left.Node? && n.left.right.Node?
    ensures InOrder(r) == InOrder(n)
  {
    RotateRight(n.(left := RotateLeft(n.left)))
  }

  /** A rotation keeps the key set and the search order: both are read off
      the in-order walk. */
  lemma {:induction false} SameWalkSameKeys(t: Tree, u: Tree)
    requires InOrder(t) == InOrder(u)
    ensures Keys(t) == Keys(u)
    ensures Ordered(t) ==> Ordered(u)
  {
    KeysInOrder(t);
    KeysInOrder(u);
    forall x
      ensures x in Keys(t) <==> x in Keys(u)
    {
      assert x in Keys(t) <==> x in InOrder(t);
      assert x in Keys(u) <==> x in InOrder(u);
    }
    OrderedIffSortedWalk(t);
    OrderedIffSortedWalk(u);
  }

  /** A node at -2 whose right child is not left-heavy: RotateLeft gives an
      AVL tree, one level lower exactly when its new root is even. */
  lemma RotateLeftRebalances(n: Tree)
    requires Leaning(n) && n.balance == -2 && n.right.balance != 1
    ensures Balanced(RotateLeft(n))
    ensures Height(RotateLeft(n)) == Height(n) - (if RotateLeft(n).balance == 0 then 1 else 0)
  {
  }

  /** The mirror image of RotateLeftRebalances. */
  lemma RotateRightRebalances(n: Tree)
    requires Leaning(n) && n.balance == 2 && n.left.balance != -1
    ensures Balanced(RotateRight(n))
    ensures Height(RotateRight(n)) == Height(n) - (if RotateRight(n).balance == 0 then 1 else 0)
  {
  }

  /** The tree the double rotation RotateRightLeft builds, with the
      balances its two single rotations leave. */
  lemma RotateRightLeftShape(n: Tree)
    requires n.Node? && n.right.Node? && n.right.left.Node?
    requires n.balance == -2 && n.right.balance == 1 && -1 <= n.right.left.balance <= 1
    ensures var c := n.right; var d := c.left;
      RotateRightLeft(n) == Node(Node(n.left, n.key, d.left, if d.balance == -1 then 1 else 0), d.key,
                                 Node(d.right, c.key, c.right, if d.balance == 1 then -1 else 0), 0)
  {
  }

  /** A node at -2 whose right child is left-heavy: the double rotation
      gives an AVL tree one level lower with an even root. */
  lemma RotateRightLeftRebalances(n: Tree)
    requires Leaning(n) && n.balance == -2 && n.right.balance == 1
    ensures n.right.left.Node?
    ensures Balanced(RotateRightLeft(n)) && RotateRightLeft(n).balance == 0
    ensures Height(RotateRightLeft(n)) == Height(n) - 1
  {
    var c := n.right;
    var h := Height(n.left);
    assert Height(c) == h + 2;
    assert Height(c.left) == Height(c.right) + 1;
    assert Height(c.left) == h + 1;
    var d := c.left;
    assert Balanced(d);
    RotateRightLeftShape(n);
    var left := Node(n.left, n.key, d.left, if d.balance == -1 then 1 else 0);
    var right := Node(d.right, c.key, c.right, if d.balance == 1 then -1 else 0);
    assert Balanced(left) && Height(left) == h + 1;
    assert Balanced(right) && Height(right) == h + 1;
  }

  /** The mirror image of RotateRightLeftShape. */
  lemma RotateLeftRightShape(n: Tree)
    requires n.Node? && n.left.Node? && n.left.right.Node?
    requires n.balance == 2 && n.left.balance == -1 && -1 <= n.left.right.balance <= 1
    ensures var c := n.left; var d := c.right;
      RotateLeftRight(n) == Node(Node(c.left, c.key, d.left, if d.balance == -1 then 1 else 0), d.key,
                                 Node(d.right, n.key, n.right, if d.balance == 1 then -1 else 0), 0)
  {
  }

  /** The mirror image of RotateRightLeftRebalances. */
  lemma RotateLeftRightRebalances(n: Tree)
    requires Leaning(n) && n.balance == 2 && n.left.balance == -1
    ensures n.left.right.Node?
    ensures Balanced(RotateLeftRight(n)) && RotateLeftRight(n).balance == 0
    ensures Height(RotateLeftRight(n)) == Height(n) - 1
  {
    var c := n.left;
    var h := Height(n.right);
    assert Height(c) == h + 2;
    assert Height(c.right) == Height(c.left) + 1;
    assert Height(c.right) == h + 1;
    var d := c.right;
    assert Balanced(d);
    RotateLeftRightShape(n);
    var left := Node(c.left, c.key, d.left, if d.balance == -1 then 1 else 0);
    var right := Node(d.right, n.key, n.right, if d.balance == 1 then -1 else 0);
    assert Balanced(left) && Height(left) == h + 1;
    assert Balanced(right) && Height(right) == h + 1;
  }

  // ---------------------------------------------------------------------
  // Rebalance, one node at a time.

  /** The loop condition of Rebalance: after an insertion the walk up stops
      at a node that has become even; after an erasure, at one that has
      become uneven by one. */
  predicate Stops(balance: int, onInsert: bool)
    ensures Stops(balance, onInsert) ==> -1 <= balance <= 1
  {
    (onInsert && balance == 0) || (!onInsert && (balance == -1 || balance == 1))
  }

  /** The subtree a pass of Rebalance leaves, and whether the walk goes on
      to the parent (whose balance then changes by one). */
  datatype Settled = Settled(tree: Tree, propagate: bool)
  {
    /** The same pass seen from an erasure: the walk goes on when the
        subtree has shrunk. */
    function AsRemoved(): Removed
    {
      Removed(tree, propagate)
    }
  }

  /** One pass of Rebalance's loop at a node whose balance has just been
      updated: stop; or rotate at -2 or 2 and look at the new subtree root;
      or move on to the parent. The result is an AVL tree with the same
      keys, and the walk goes on exactly when the subtree's height has
      changed (grown on insertion, shrunk on erasure). */
  function Settle(n: Tree, onInsert: bool): (r: Settled)
    requires Leaning(n)
    ensures Balanced(r.tree) && InOrder(r.tree) == InOrder(n)
    ensures -1 <= n.balance <= 1 ==> r.tree == n
    ensures Height(r.tree) == Height(n) - (if -1 <= n.balance <= 1 || r.tree.balance != 0 then 0 else 1)
    ensures r.propagate == !Stops(r.tree.balance, onInsert)
  {
    if Stops(n.balance, onInsert) then Settled(n, false)
    else if n.balance == -2 && n.right.balance == 1 then
      RotateRightLeftRebalances(n);
      var m := RotateRightLeft(n);
      Settled(m, !Stops(m.balance, onInsert))
    else if n.balance == -2 then
      RotateLeftRebalances(n);
      var m := RotateLeft(n);
      Settled(m, !Stops(m.balance, onInsert))
    else if n.balance == 2 && n.left.balance == -1 then
      RotateLeftRightRebalances(n);
      var m := RotateLeftRight(n);
      Settled(m, !Stops(m.balance, onInsert))
    else if n.balance == 2 then
      RotateRightRebalances(n);
      var m := RotateRight(n);
      Settled(m, !Stops(m.balance, onInsert))
    else Settled(n, true)
  }

  /** A pass of Rebalance keeps the keys and the search order. */
  lemma SettledKeys(n: Tree, onInsert: bool)
    requires Leaning(n) && Ordered(n)
    ensures Ordered(Settle(n, onInsert).tree) && Keys(Settle(n, onInsert).tree) == Keys(n)
  {
    SameWalkSameKeys(n, Settle(n, onInsert).tree);
  }

  /** A left subtree one level taller: Rebalance at the parent leaves an
      AVL tree that has grown exactly when the walk goes on. */
  lemma SettleGrownLeft(l: Tree, k: int, r: Tree, b: int, l': Tree)
    requires Balanced(Node(l, k, r, b)) && Balanced(l') && Height(l') == Height(l) + 1
    ensures Leaning(Node(l', k, r, b + 1))
    ensures var s := Settle(Node(l', k, r, b + 1), true);
      Height(s.tree) == Height(Node(l, k, r, b)) + (if s.propagate then 1 else 0)
  {
  }

  /** The mirror image of SettleGrownLeft. */
  lemma SettleGrownRight(l: Tree, k: int, r: Tree, b: int, r': Tree)
    requires Balanced(Node(l, k, r, b)) && Balanced(r') && Height(r') == Height(r) + 1
    ensures Leaning(Node(l, k, r', b - 1))
    ensures var s := Settle(Node(l, k, r', b - 1), true);
      Height(s.tree) == Height(Node(l, k, r, b)) + (if s.propagate then 1 else 0)
  {
  }

  /** A left subtree one level lower: Rebalance at the parent leaves an AVL
      tree that has shrunk exactly when the walk goes on. */
  lemma SettleShrunkLeft(l: Tree, k: int, r: Tree, b: int, l': Tree)
    requires Balanced(Node(l, k, r, b)) && Balanced(l') && Height(l') + 1 == Height(l)
    ensures Leaning(Node(l', k, r, b - 1))
    ensures var s := Settle(Node(l', k, r, b - 1), false);
      Height(s.tree) == Height(Node(l, k, r, b)) - (if s.propagate then 1 else 0)
  {
  }

  /** The mirror image of SettleShrunkLeft. */
  lemma SettleShrunkRight(l: Tree, k: int, r: Tree, b: int, r': Tree)
    requires Balanced(Node(l, k, r, b)) && Balanced(r') && Height(r') + 1 == Height(r)
    ensures Leaning(Node(l, k, r', b + 1))
    ensures var s := Settle(Node(l, k, r', b + 1), false);
      Height(s.tree) == Height(Node(l, k, r, b)) - (if s.propagate then 1 else 0)
  {
  }

  // ---------------------------------------------------------------------
  // Insert and Erase on the tree value.

  /** The tree after an insertion, whether it grew one level, and whether a
      node was added. */
  datatype Inserted = Inserted(tree: Tree, grew: bool, added: bool)

  /** Insert(key): descend to the null child where the key belongs and hang
      a new node there, or stop at the node that already holds the key; then
      Rebalance from the new node's parent upwards. */
  function InsertNode(t: Tree, key: int): (r: Inserted)
    requires Balanced(t)
    ensures Balanced(r.tree) && Height(r.tree) == Height(t) + (if r.grew then 1 else 0)
  {
    match t
    case Leaf => Inserted(Node(Leaf, key, Leaf, 0), true, true)
    case Node(l, k, rt, b) =>
      if key < k then
        var i := InsertNode(l, key);
        if i.grew then
          SettleGrownLeft(l, k, rt, b, i.tree);
          var s := Settle(Node(i.tree, k, rt, b + 1), true);
          Inserted(s.tree, s.propagate, i.added)
        else Inserted(Node(i.tree, k, rt, b), false, i.added)
      else if k < key then
        var i := InsertNode(rt, key);
        if i.grew then
          SettleGrownRight(l, k, rt, b, i.tree);
          var s := Settle(Node(l, k, i.tree, b - 1), true);
          Inserted(s.tree, s.propagate, i.added)
        else Inserted(Node(l, k, i.tree, b), false, i.added)
      else Inserted(t, false, false)
  }

  /** What an insertion does to the keys of a search tree: it adds exactly
      the key, adds a node exactly when the key was absent, and leaves the
      tree as it was when the key is present. */
  ghost predicate InsertsKey(t: Tree, key: int, r: Inserted)
  {
    && Ordered(r.tree) && Keys(r.tree) == Keys(t) + {key}
    && (r.added <==> key !in Keys(t))
    && (key in Keys(t) ==> r.tree == t)
  }

  /** Insertion into a search tree inserts the key (InsertsKey). */
  lemma {:induction false} InsertNodeKeys(t: Tree, key: int)
    requires Balanced(t) && Ordered(t)
    ensures InsertsKey(t, key, InsertNode(t, key))
  {
    match t
    case Leaf =>
    case Node(l, k, rt, b) =>
      if key < k {
        InsertNodeKeys(l, key);
        InsertBelowKeys(t, key);
      } else if k < key {
        InsertNodeKeys(rt, key);
        InsertAboveKeys(t, key);
      }
  }

  /** The step of InsertNodeKeys where the key goes into the left subtree. */
  lemma InsertBelowKeys(t: Tree, key: int)
    requires t.Node? && Balanced(t) && Ordered(t) && key < t.key
    requires InsertsKey(t.left, key, InsertNode(t.left, key))
    ensures InsertsKey(t, key, InsertNode(t, key))
  {
    var i := InsertNode(t.left, key);
    var n := Node(i.tree, t.key, t.right, if i.grew then t.balance + 1 else t.balance);
    assert Ordered(n) by {
      forall x | x in Keys(i.tree) ensures x < t.key {}
    }
    assert Keys(n) == Keys(t) + {key};
    assert key in Keys(t) <==> key in Keys(t.left);
    var r := if i.grew then Settle(n, true).tree else n;
    if i.grew {
      SettledKeys(n, true);
    }
    InsertBelowStep(t, key);
  }

  /** The step of InsertNodeKeys where the key goes into the right subtree. */
  lemma InsertAboveKeys(t: Tree, key: int)
    requires t.Node? && Balanced(t) && Ordered(t) && t.key < key
    requires InsertsKey(t.right, key, InsertNode(t.right, key))
    ensures InsertsKey(t, key, InsertNode(t, key))
  {
    var i := InsertNode(t.right, key);
    var n := Node(t.left, t.key, i.tree, if i.grew then t.balance - 1 else t.balance);
    assert Ordered(n) by {
      forall x | x in Keys(i.tree) ensures t.key < x {}
    }
    assert Keys(n) == Keys(t) + {key};
    assert key in Keys(t) <==> key in Keys(t.right);
    var r := if i.grew then Settle(n, true).tree else n;
    if i.grew {
      SettledKeys(n, true);
    }
    InsertAboveStep(t, key);
  }

  /** InsertNode at a node whose key is larger than the one inserted. */
  lemma InsertBelowStep(t: Tree, key: int)
    requires t.Node? && Balanced(t) && key < t.key
    ensures var i := InsertNode(t.left, key);
      var n := Node(i.tree, t.key, t.right, if i.grew then t.balance + 1 else t.balance);
      InsertNode(t, key) == Inserted(if i.grew then Settle(n, true).tree else n, i.grew && Settle(n, true).propagate, i.added)
  {
  }

  /** InsertNode at a node whose key is smaller than the one inserted. */
  lemma InsertAboveStep(t: Tree, key: int)
    requires t.Node? && Balanced(t) && t.key < key
    ensures var i := InsertNode(t.right, key);
      var n := Node(t.left, t.key, i.tree, if i.grew then t.balance - 1 else t.balance);
      InsertNode(t, key) == Inserted(if i.grew then Settle(n, true).tree else n, i.grew && Settle(n, true).propagate, i.added)
  {
  }

  /** A subtree after a removal, and whether it shrank one level. */
  datatype Removed = Removed(tree: Tree, shrank: bool)

  /** The removal that follows SwapNodes in Erase: the in-order successor of
      a node with two children is the leftmost node of its right subtree; it
      is unlinked from there (its right child takes its place) and the walk
      up rebalances every node on the way. Returns the successor's key. */
  function RemoveMin(t: Tree): (r: (Removed, int))
    requires t.Node? && Balanced(t)
    ensures Balanced(r.0.tree)
    ensures Height(r.0.tree) == Height(t) - (if r.0.shrank then 1 else 0)
  {
    if t.left.Leaf? then (Removed(t.right, true), t.key)
    else
      var (l', m) := RemoveMin(t.left);
      if l'.shrank then
        SettleShrunkLeft(t.left, t.key, t.right, t.balance, l'.tree);
        (Settle(Node(l'.tree, t.key, t.right, t.balance - 1), false).AsRemoved(), m)
      else (Removed(Node(l'.tree, t.key, t.right, t.balance), false), m)
  }

  /** RemoveMin takes out the least key and leaves the rest of the walk. */
  lemma {:induction false} RemoveMinWalk(t: Tree)
    requires t.Node? && Balanced(t)
    ensures InOrder(t) == [RemoveMin(t).1] + InOrder(RemoveMin(t).0.tree)
    ensures RemoveMin(t).1 == Minimum(t)
  {
    if t.left.Node? {
      RemoveMinWalk(t.left);
      var (l', m) := RemoveMin(t.left);
      var n := Node(l'.tree, t.key, t.right, if l'.shrank then t.balance - 1 else t.balance);
      assert InOrder(t) == [m] + InOrder(n);
    }
  }

  /** Erase(node) at the root of a subtree: a node with two children is
      swapped with its in-order successor, which takes over its balance;
      a node with at most one child is replaced by that child (the right one
      first). The parent's balance then moves by one and Rebalance starts
      there. */
  function RemoveRoot(t: Tree): (r: Removed)
    requires t.Node? && Balanced(t)
    ensures Balanced(r.tree)
    ensures Height(r.tree) == Height(t) - (if r.shrank then 1 else 0)
  {
    if t.left.Node? && t.right.Node? then
      var (rt, m) := RemoveMin(t.right);
      if rt.shrank then
        SettleShrunkRight(t.left, m, t.right, t.balance, rt.tree);
        Settle(Node(t.left, m, rt.tree, t.balance + 1), false).AsRemoved()
      else Removed(Node(t.left, m, rt.tree, t.balance), false)
    else if t.right.Node? then Removed(t.right, true)
    else if t.left.Node? then Removed(t.left, true)
    else Removed(Leaf, true)
  }

  /** Removing the root of a subtree leaves the walks of its two children,
      one after the other. */
  lemma RemoveRootWalk(t: Tree)
    requires t.Node? && Balanced(t)
    ensures InOrder(RemoveRoot(t).tree) == InOrder(t.left) + InOrder(t.right)
  {
    if t.left.Node? && t.right.Node? {
      RemoveMinWalk(t.right);
      var (rt, m) := RemoveMin(t.right);
      var n := Node(t.left, m, rt.tree, if rt.shrank then t.balance + 1 else t.balance);
      assert InOrder(n) == InOrder(t.left) + InOrder(t.right);
    }
  }

  /** Erase(key) on the tree value: descend to the node holding the key,
      remove it, and rebalance on the way back up. */
  function EraseNode(t: Tree, key: int): (r: Removed)
    requires Balanced(t)
    ensures Balanced(r.tree) && Height(r.tree) == Height(t) - (if r.shrank then 1 else 0)
  {
    match t
    case Leaf => Removed(Leaf, false)
    case Node(l, k, rt, b) =>
      if key < k then
        var e := EraseNode(l, key);
        if e.shrank then
          SettleShrunkLeft(l, k, rt, b, e.tree);
          Settle(Node(e.tree, k, rt, b - 1), false).AsRemoved()
        else Removed(Node(e.tree, k, rt, b), false)
      else if k < key then
        var e := EraseNode(rt, key);
        if e.shrank then
          SettleShrunkRight(l, k, rt, b, e.tree);
          Settle(Node(l, k, e.tree, b + 1), false).AsRemoved()
        else Removed(Node(l, k, e.tree, b), false)
      else RemoveRoot(t)
  }

  /** EraseNode at a node whose key is larger than the one erased. */
  lemma EraseBelowStep(t: Tree, key: int)
    requires t.Node? && Balanced(t) && key < t.key
    ensures var e := EraseNode(t.left, key);
      EraseNode(t, key).tree ==
        if e.shrank then Settle(Node(e.tree, t.key, t.right, t.balance - 1), false).tree
        else Node(e.tree, t.key, t.right, t.balance)
  {
  }

  /** EraseNode at a node whose key is smaller than the one erased. */
  lemma EraseAboveStep(t: Tree, key: int)
    requires t.Node? && Balanced(t) && t.key < key
    ensures var e := EraseNode(t.right, key);
      EraseNode(t, key).tree ==
        if e.shrank then Settle(Node(t.left, t.key, e.tree, t.balance + 1), false).tree
        else Node(t.left, t.key, e.tree, t.balance)
  {
  }

  /** Erasure removes exactly the key from a search tree. */
  lemma {:induction false} EraseNodeKeys(t: Tree, key: int)
    requires Balanced(t) && Ordered(t)
    ensures Ordered(EraseNode(t, key).tree) && Keys(EraseNode(t, key).tree) == Keys(t) - {key}
  {
    match t
    case Leaf =>
    case Node(l, k, rt, b) =>
      if key < k {
        EraseNodeKeys(l, key);
        EraseBelowKeys(t, key);
      } else if k < key {
        EraseNodeKeys(rt, key);
        EraseAboveKeys(t, key);
      } else {
        RemoveRootWalk(t);
        RemovedRootKeys(t, RemoveRoot(t).tree);
      }
  }

  /** The step of EraseNodeKeys where the key lies in the left subtree. */
  lemma EraseBelowKeys(t: Tree, key: int)
    requires t.Node? && Balanced(t) && Ordered(t) && key < t.key
    requires Ordered(EraseNode(t.left, key).tree) && Keys(EraseNode(t.left, key).tree) == Keys(t.left) - {key}
    ensures Ordered(EraseNode(t, key).tree) && Keys(EraseNode(t, key).tree) == Keys(t) - {key}
  {
    var e := EraseNode(t.left, key);
    var n := Node(e.tree, t.key, t.right, if e.shrank then t.balance - 1 else t.balance);
    BelowOrdered(t, e.tree, n.balance, key);
    var r := if e.shrank then Settle(n, false).tree else n;
    if e.shrank {
      SettledKeys(n, false);
    }
    assert Ordered(r) && Keys(r) == Keys(t) - {key};
    EraseBelowStep(t, key);
  }

  /** A search tree whose left subtree loses the key, re-rooted at the same
      node, is a search tree without the key. */
  lemma BelowOrdered(t: Tree, e: Tree, b: int, key: int)
    requires t.Node? && Ordered(t) && key < t.key
    requires Ordered(e) && Keys(e) == Keys(t.left) - {key}
    ensures Ordered(Node(e, t.key, t.right, b)) && Keys(Node(e, t.key, t.right, b)) == Keys(t) - {key}
  {
    forall x | x in Keys(e) ensures x < t.key {}
  }

  /** The step of EraseNodeKeys where the key lies in the right subtree. */
  lemma EraseAboveKeys(t: Tree, key: int)
    requires t.Node? && Balanced(t) && Ordered(t) && t.key < key
    requires Ordered(EraseNode(t.right, key).tree) && Keys(EraseNode(t.right, key).tree) == Keys(t.right) - {key}
    ensures Ordered(EraseNode(t, key).tree) && Keys(EraseNode(t, key).tree) == Keys(t) - {key}
  {
    var e := EraseNode(t.right, key);
    var n := Node(t.left, t.key, e.tree, if e.shrank then t.balance + 1 else t.balance);
    AboveOrdered(t, e.tree, n.balance, key);
    var r := if e.shrank then Settle(n, false).tree else n;
    if e.shrank {
      SettledKeys(n, false);
    }
    assert Ordered(r) && Keys(r) == Keys(t) - {key};
    EraseAboveStep(t, key);
  }

  /** The mirror image of BelowOrdered. */
  lemma AboveOrdered(t: Tree, e: Tree, b: int, key: int)
    requires t.Node? && Ordered(t) && t.key < key
    requires Ordered(e) && Keys(e) == Keys(t.right) - {key}
    ensures Ordered(Node(t.left, t.key, e, b)) && Keys(Node(t.left, t.key, e, b)) == Keys(t) - {key}
  {
    forall x | x in Keys(e) ensures t.key < x {}
  }

  /** Erasing a key a search tree does not hold leaves the tree as it was. */
  lemma {:induction false} EraseAbsentUnchanged(t: Tree, key: int)
    requires Balanced(t) && Ordered(t) && key !in Keys(t)
    ensures EraseNode(t, key) == Removed(t, false)
  {
    match t
    case Leaf =>
    case Node(l, k, rt, b) =>
      if key < k {
        EraseAbsentUnchanged(l, key);
      } else {
        EraseAbsentUnchanged(rt, key);
      }
  }

  /** Removing the root of an ordered subtree leaves an ordered tree of the
      other keys. */
  lemma {:induction false} RemovedRootKeys(t: Tree, u: Tree)
    requires t.Node? && Ordered(t) && InOrder(u) == InOrder(t.left) + InOrder(t.right)
    ensures Ordered(u) && Keys(u) == Keys(t) - {t.key}
  {
    OrderedIffSortedWalk(t);
    DropMiddle(InOrder(t.left), t.key, InOrder(t.right));
    OrderedIffSortedWalk(u);
    KeysInOrder(t.left);
    KeysInOrder(t.right);
    KeysInOrder(u);
    forall x
      ensures x in Keys(u) <==> x in Keys(t) - {t.key}
    {
      assert x in InOrder(u) <==> x in InOrder(t.left) || x in InOrder(t.right);
    }
  }

  // ---------------------------------------------------------------------
  // Walks over the tree value.

  /** DeepCopy: a node-by-node copy of a subtree, balances included. */
  function DeepCopy(t: Tree): (r: Tree)
    ensures r == t
  {
    match t
    case Leaf => Leaf
    case Node(l, k, rt, b) => Node(DeepCopy(l), k, DeepCopy(rt), b)
  }

  /** Min(node): follow left children down to the leftmost node. */
  method Min(t: Tree) returns (k: int)
    requires t.Node?
    ensures k == Minimum(t)
  {
    var node := t;
    while node.left.Node?
      invariant node.Node? && Minimum(node) == Minimum(t)
      decreases node
    {
      node := node.left;
    }
    k := node.key;
  }

  /** Max(node): follow right children down to the rightmost node. */
  method Max(t: Tree) returns (k: int)
    requires t.Node?
    ensures k == Maximum(t)
  {
    var node := t;
    while node.right.Node?
      invariant node.Node? && Maximum(node) == Maximum(t)
      decreases node
    {
      node := node.right;
    }
    k := node.key;
  }

  /** c is the least element of s, or End when s is empty. */
  ghost predicate IsLeast(s: set<int>, c: Cursor)
  {
    if s == {} then c == End else c.At? && c.key in s && forall x :: x in s ==> c.key <= x
  }

  lemma LeastUnique(s: set<int>, c: Cursor, d: Cursor)
    requires IsLeast(s, c) && IsLeast(s, d)
    ensures c == d
  {
  }

  /** Adding a key below the least element makes it the least one. */
  lemma LeastAfterAddition(s: set<int>, key: int, first: Cursor)
    requires IsLeast(s, first) && s != {} && key !in s
    ensures IsLeast(s + {key}, if key < first.key then At(key) else first)
  {
  }

  /** Removing the least element makes its successor the least one. */
  lemma LeastAfterRemoval(s: set<int>, k: int, next: Cursor, first: Cursor)
    requires IsLeast(s, first) && k in s && IsSuccessor(s, k, next)
    ensures IsLeast(s - {k}, if first == At(k) then next else first)
  {
    if first == At(k) {
      if next == End {
        forall x | x in s ensures x == k {}
        assert s - {k} == {};
      } else {
        assert next.key in s - {k};
      }
    } else {
      assert first.key in s - {k};
    }
  }


  /** Begin() of an ordered tree is its least key, or End when it is empty. */
  lemma FirstIsLeast(t: Tree)
    requires Ordered(t)
    ensures IsLeast(Keys(t), First(t))
  {
    if t.Node? {
      MinimumIsLeast(t);
    }
  }

  /** The leftmost node after an insertion of a new key: the new node when
      its key is below the old leftmost one, the old leftmost one otherwise. */
  lemma FirstAfterInsert(t: Tree, key: int)
    requires Balanced(t) && Ordered(t) && t.Node? && key !in Keys(t)
    ensures First(InsertNode(t, key).tree) == if key < Minimum(t) then At(key) else First(t)
  {
    InsertNodeKeys(t, key);
    var u := InsertNode(t, key).tree;
    FirstIsLeast(t);
    FirstIsLeast(u);
    LeastAfterAddition(Keys(t), key, First(t));
    LeastUnique(Keys(u), First(u), if key < Minimum(t) then At(key) else First(t));
  }

  /** The leftmost node after an erasure: the erased node's successor when
      the erased node was leftmost, the old leftmost one otherwise. */
  lemma FirstAfterErase(t: Tree, k: int, next: Cursor)
    requires Balanced(t) && Ordered(t) && k in Keys(t) && IsSuccessor(Keys(t), k, next)
    ensures First(EraseNode(t, k).tree) == if First(t) == At(k) then next else First(t)
  {
    EraseNodeKeys(t, k);
    var u := EraseNode(t, k).tree;
    FirstIsLeast(t);
    FirstIsLeast(u);
    LeastAfterRemoval(Keys(t), k, next, First(t));
    LeastUnique(Keys(u), First(u), if First(t) == At(k) then next else First(t));
  }

  /** Within an ordered subtree, the keys larger than its root's are those
      of its right subtree, the least of them its leftmost node. */
  lemma LargerInSubtree(t: Tree)
    requires t.Node? && Ordered(t)
    ensures t.right.Leaf? ==> forall x :: x in Keys(t) ==> x <= t.key
    ensures t.right.Node? ==> Minimum(t.right) in Keys(t) && t.key < Minimum(t.right)
    ensures t.right.Node? ==> forall x :: x in Keys(t) && t.key < x ==> Minimum(t.right) <= x
  {
    if t.right.Node? {
      MinimumIsLeast(t.right);
    }
  }

  /** The mirror image of LargerInSubtree. */
  lemma SmallerInSubtree(t: Tree)
    requires t.Node? && Ordered(t)
    ensures t.left.Leaf? ==> forall x :: x in Keys(t) ==> t.key <= x
    ensures t.left.Node? ==> Maximum(t.left) in Keys(t) && Maximum(t.left) < t.key
    ensures t.left.Node? ==> forall x :: x in Keys(t) && x < t.key ==> x <= Maximum(t.left)
  {
    if t.left.Node? {
      MaximumIsGreatest(t.left);
    }
  }

  /** The end of Next's descent: at the node holding the key, the successor
      is the leftmost node of its right subtree, or else the nearest
      ancestor the node lies left of (End when there is none). */
  lemma SuccessorFromDescent(s: set<int>, node: Tree, ancestor: Cursor)
    requires node.Node? && Ordered(node) && Keys(node) <= s
    requires ancestor == End || ancestor.At?
    requires ancestor.At? ==> ancestor.key in s && node.key < ancestor.key
    requires ancestor.At? ==> forall x :: x in Keys(node) ==> x < ancestor.key
    requires forall x :: x in s && node.key < x && x !in Keys(node) ==> ancestor.At? && ancestor.key <= x
    ensures IsSuccessor(s, node.key, if node.right.Node? then At(Minimum(node.right)) else ancestor)
  {
    LargerInSubtree(node);
  }

  /** The end of Prev's descent, the mirror image of SuccessorFromDescent
      (nullptr when there is no smaller key). */
  lemma PredecessorFromDescent(s: set<int>, node: Tree, ancestor: Cursor)
    requires node.Node? && Ordered(node) && Keys(node) <= s
    requires ancestor == Null || ancestor.At?
    requires ancestor.At? ==> ancestor.key in s && ancestor.key < node.key
    requires ancestor.At? ==> forall x :: x in Keys(node) ==> ancestor.key < x
    requires forall x :: x in s && x < node.key && x !in Keys(node) ==> ancestor.At? && x <= ancestor.key
    ensures IsPredecessor(s, node.key, if node.left.Node? then At(Maximum(node.left)) else ancestor)
  {
    SmallerInSubtree(node);
  }

  /** The successor walk of Next from the node holding k: descend from the
      root to that node, remembering the last node at which the descent
      turned left; the answer is the leftmost node of the right subtree, or
      else that ancestor, or End. */
  method Successor(t: Tree, k: int) returns (n: Cursor)
    requires Ordered(t) && k in Keys(t)
    ensures IsSuccessor(Keys(t), k, n)
  {
    var ancestor := End;
    var node := t;
    while node.key != k
      invariant node.Node? && Ordered(node) && k in Keys(node) && Keys(node) <= Keys(t)
      invariant ancestor == End || ancestor.At?
      invariant ancestor.At? ==> ancestor.key in Keys(t) && k < ancestor.key
      invariant ancestor.At? ==> forall x :: x in Keys(node) ==> x < ancestor.key
      invariant forall x :: x in Keys(t) && k < x && x !in Keys(node) ==> ancestor.At? && ancestor.key <= x
      decreases node
    {
      if k < node.key {
        ancestor := At(node.key);
        node := node.left;
      } else {
        node := node.right;
      }
    }
    SuccessorFromDescent(Keys(t), node, ancestor);
    if node.right.Node? {
      var least := Min(node.right);
      return At(least);
    }
    return ancestor;
  }

  /** The predecessor walk of Prev, the mirror image of Successor, with
      nullptr where Successor has End. */
  method Predecessor(t: Tree, k: int) returns (p: Cursor)
    requires Ordered(t) && k in Keys(t)
    ensures IsPredecessor(Keys(t), k, p)
  {
    var ancestor := Null;
    var node := t;
    while node.key != k
      invariant node.Node? && Ordered(node) && k in Keys(node) && Keys(node) <= Keys(t)
      invariant ancestor.At? ==> ancestor.key in Keys(t) && ancestor.key < k
      invariant ancestor.At? ==> forall x :: x in Keys(node) ==> ancestor.key < x
      invariant ancestor == Null || ancestor.At?
      invariant forall x :: x in Keys(t) && x < k && x !in Keys(node) ==> ancestor.At? && x <= ancestor.key
      decreases node
    {
      if node.key < k {
        ancestor := At(node.key);
        node := node.right;
      } else {
        node := node.left;
      }
    }
    PredecessorFromDescent(Keys(t), node, ancestor);
    if node.left.Node? {
      var greatest := Max(node.left);
      return At(greatest);
    }
    return ancestor;
  }

  /** The node Insert hangs under the sentinel of an empty tree. */
  lemma SingleNode(key: int)
    ensures var t := Node(Leaf, key, Leaf, 0);
      Ordered(t) && Balanced(t) && Keys(t) == {key} && |Keys(t)| == 1 && First(t) == At(key)
  {
    var t := Node(Leaf, key, Leaf, 0);
    assert Keys(t) == {key};
  }

  // ---------------------------------------------------------------------
  // The tree object.

  /** AVLTree: the subtree hanging left of the sentinel, the cached leftmost
      node (Begin) and the number of keys. */
  class AvlTree {
    var root: Tree
    var leftmost: Cursor
    var size: nat

    /** A search tree in AVL shape, size counting its keys, leftmost its
        first node. */
    ghost predicate Valid()
      reads this
    {
      Ordered(root) && Balanced(root) && size == |Keys(root)| && leftmost == First(root)
    }

    /** The keys the set holds. */
    ghost function Elements(): set<int>
      reads this
    {
      Keys(root)
    }

    /** AVLTree(): an empty tree; Begin is End. */
    constructor()
      ensures Valid() && Elements() == {} && leftmost == End
    {
      root := Leaf;
      leftmost := End;
      size := 0;
    }

    /** The copy constructor: a deep copy of the other tree's nodes, its
        leftmost node found again with Min, and its size. */
    constructor Copy(other: AvlTree)
      requires other.Valid()
      ensures Valid() && root == other.root && Elements() == other.Elements() && size == other.size
    {
      if other.root.Node? {
        var copied := DeepCopy(other.root);
        var least := Min(copied);
        root := copied;
        leftmost := At(least);
        size := other.size;
      } else {
        root := Leaf;
        leftmost := End;
        size := 0;
      }
    }

    /** Swap: exchanges the whole state with the other tree. */
    method Swap(other: AvlTree)
      modifies this, other
      ensures root == old(other.root) && leftmost == old(other.leftmost) && size == old(other.size)
      ensures other.root == old(root) && other.leftmost == old(leftmost) && other.size == old(size)
    {
      root, other.root := other.root, root;
      leftmost, other.leftmost := other.leftmost, leftmost;
      size, other.size := other.size, size;
    }

    /** operator=: copy the other tree into a temporary and swap with it. */
    method Assign(other: AvlTree)
      requires other.Valid()
      modifies this
      ensures Valid() && root == old(other.root) && Elements() == old(other.Elements())
    {
      var copy := new AvlTree.Copy(other);
      Swap(copy);
    }

    /** Find(key, find_lower_bound): descend from the root; the node with
        the key if there is one; otherwise, when asked for the lower bound,
        the last node at which the descent turned left (the least larger
        key), and End when there is none or when not asked. */
    method Find(key: int, findLowerBound: bool) returns (c: Cursor)
      requires Valid()
      ensures key in Elements() ==> c == At(key)
      ensures key !in Elements() && !findLowerBound ==> c == End
      ensures key !in Elements() && findLowerBound ==> IsSuccessor(Elements(), key, c)
    {
      if root.Leaf? {
        return End;
      }
      var lowerBound: Option<int> := None;
      var node := root;
      while node.Node?
        invariant Ordered(node) && Keys(node) <= Keys(root)
        invariant key in Keys(root) <==> key in Keys(node)
        invariant lowerBound.Some? ==> lowerBound.value in Keys(root) && key < lowerBound.value
        invariant lowerBound.Some? ==> forall x :: x in Keys(node) ==> x < lowerBound.value
        invariant forall x :: x in Keys(root) && key < x && x !in Keys(node) ==> lowerBound.Some? && lowerBound.value <= x
        decreases node
      {
        if key < node.key {
          if lowerBound.None? || node.key < lowerBound.value {
            lowerBound := Some(node.key);
          }
          node := node.left;
        } else if node.key < key {
          node := node.right;
        } else {
          return At(node.key);
        }
      }
      if findLowerBound && lowerBound.Some? {
        return At(lowerBound.value);
      }
      return End;
    }

    /** Next(node): the in-order successor. From End there is none (nullptr);
        from a node it is the leftmost node of its right subtree, or else the
        nearest ancestor it lies left of, which is the sentinel End for the
        largest key. The ancestors are collected on a descent from the root. */
    method Next(c: Cursor) returns (n: Cursor)
      requires Valid() && c != Null && (c.At? ==> c.key in Elements())
      ensures c == End ==> n == Null
      ensures c.At? ==> IsSuccessor(Elements(), c.key, n)
    {
      if c == End {
        return Null;
      }
      n := Successor(root, c.key);
    }

    /** Prev(node): the in-order predecessor. From End it is the largest key
        (nullptr in an empty tree); from a node it is the rightmost node of
        its left subtree, or else the nearest ancestor it lies right of, or
        nullptr for the smallest key. */
    method Prev(c: Cursor) returns (p: Cursor)
      requires Valid() && c != Null && (c.At? ==> c.key in Elements())
      ensures c == End ==> (p == Null <==> Elements() == {})
      ensures c == End && p.At? ==> p.key in Elements() && forall x :: x in Elements() ==> x <= p.key
      ensures c.At? ==> IsPredecessor(Elements(), c.key, p)
    {
      if c == End {
        if root.Leaf? {
          return Null;
        }
        var greatest := Max(root);
        MaximumIsGreatest(root);
        return At(greatest);
      }
      p := Predecessor(root, c.key);
    }

    /** Insert(key): hang a new node where the key belongs and rebalance; a
        key already present leaves the tree alone. Begin moves to the new
        node when it went left of the old leftmost one. Returns the node
        holding the key. */
    method Insert(key: int) returns (c: Cursor)
      requires Valid()
      modifies this
      ensures Valid() && c == At(key)
      ensures Elements() == old(Elements()) + {key}
      ensures size == old(size) + (if key in old(Elements()) then 0 else 1)
      ensures key in old(Elements()) ==> root == old(root)
    {
      if root.Leaf? {
        var single := Node(Leaf, key, Leaf, 0);
        SingleNode(key);
        root, leftmost, size := single, At(key), 1;
        return At(key);
      }
      InsertNodeKeys(root, key);
      var inserted := InsertNode(root, key);
      if !inserted.added {
        return At(key);
      }
      FirstAfterInsert(root, key);
      var first := if key < leftmost.key then At(key) else leftmost;
      ghost var keys := Keys(root);
      assert Ordered(inserted.tree) && Balanced(inserted.tree) && first == First(inserted.tree);
      assert Keys(inserted.tree) == keys + {key} && |Keys(inserted.tree)| == size + 1;
      root, leftmost, size := inserted.tree, first, size + 1;
      return At(key);
    }

    /** Erase(node): End is left alone; otherwise the node's successor is
        found first (it becomes Begin when the node was leftmost), the node
        is unlinked and the tree rebalanced. Returns the successor. */
    method EraseAt(c: Cursor) returns (next: Cursor)
      requires Valid() && c != Null && (c.At? ==> c.key in Elements())
      modifies this
      ensures Valid()
      ensures c == End ==> next == End && root == old(root) && size == old(size)
      ensures c.At? ==> Elements() == old(Elements()) - {c.key} && size == old(size) - 1
      ensures c.At? ==> IsSuccessor(old(Elements()), c.key, next)
    {
      if c == End {
        return End;
      }
      next := Next(c);
      FirstAfterErase(root, c.key, next);
      if c == leftmost {
        leftmost := next;
      }
      EraseNodeKeys(root, c.key);
      root := EraseNode(root, c.key).tree;
      size := size - 1;
    }

    /** Erase(key): Find the key; End when it is absent, otherwise erase its
        node and return the successor. */
    method Erase(key: int) returns (next: Cursor)
      requires Valid()
      modifies this
      ensures Valid() && Elements() == old(Elements()) - {key}
      ensures size == old(size) - (if key in old(Elements()) then 1 else 0)
      ensures key !in old(Elements()) ==> next == End && root == old(root)
      ensures key in old(Elements()) ==> IsSuccessor(old(Elements()), key, next)
    {
      var c := Find(key, false);
      if c == Null || c == End {
        return End;
      }
      next := EraseAt(c);
    }

    /** Size(): the number of keys. */
    method Size() returns (n: nat)
      requires Valid()
      ensures n == |Elements()|
    {
      n := size;
    }

    /** Begin(): the leftmost node, End in an empty tree. */
    method Begin() returns (c: Cursor)
      requires Valid()
      ensures IsLeast(Elements(), c)
    {
      FirstIsLeast(root);
      c := leftmost;
    }
  }

  /** The keys listed in a sequence. */
  ghost function KeySet(keys: seq<int>): set<int>
  {
    set x | x in keys
  }

  // ---------------------------------------------------------------------
  // The Set wrapper.

  /** Set: a handle on a tree of its own. Its iterators are cursors into
      that tree; ++ and -- are the tree's Next and Prev. */
  class Set {
    var tree: AvlTree

    ghost predicate Valid()
      reads this, tree
    {
      tree.Valid()
    }

    /** The keys the set holds. */
    ghost function Elements(): set<int>
      reads this, tree
    {
      tree.Elements()
    }

    /** Set(): an empty set. */
    constructor()
      ensures Valid() && Elements() == {} && fresh(tree)
    {
      tree := new AvlTree();
    }

    /** Set(first, last) and Set(initializer_list): insert the keys one
        after the other. */
    constructor OfSeq(keys: seq<int>)
      ensures Valid() && Elements() == KeySet(keys) && fresh(tree)
    {
      tree := new AvlTree();
      new;
      InsertAll(keys);
    }

    /** The loop of the range constructor. */
    method InsertAll(keys: seq<int>)
      requires Valid()
      modifies tree
      ensures Valid() && Elements() == old(Elements()) + KeySet(keys)
    {
      for i := 0 to |keys|
        invariant Valid() && Elements() == old(Elements()) + KeySet(keys[..i])
      {
        assert KeySet(keys[..i + 1]) == KeySet(keys[..i]) + {keys[i]} by {
          assert keys[..i + 1] == keys[..i] + [keys[i]];
        }
        var _ := tree.Insert(keys[i]);
      }
      assert keys[..|keys|] == keys;
    }

    /** The copy constructor: a tree of its own, copied from the other's. */
    constructor Copy(other: Set)
      requires other.Valid()
      ensures Valid() && Elements() == other.Elements() && fresh(tree)
    {
      tree := new AvlTree.Copy(other.tree);
    }

    /** operator=: copy the other set into a temporary and take its tree. */
    method Assign(other: Set)
      requires other.Valid()
      modifies this
      ensures Valid() && Elements() == old(other.Elements()) && fresh(tree)
    {
      var copy := new Set.Copy(other);
      tree, copy.tree := copy.tree, tree;
    }

    /** size(): the number of keys. */
    method Size() returns (n: nat)
      requires Valid()
      ensures n == |Elements()|
    {
      n := tree.Size();
    }

    /** empty(): whether there are no keys. */
    method Empty() returns (b: bool)
      requires Valid()
      ensures b <==> Elements() == {}
    {
      var n := tree.Size();
      b := n == 0;
    }

    /** insert(key): add the key; nothing changes when it is present. */
    method Insert(key: int)
      requires Valid()
      modifies tree
      ensures Valid() && Elements() == old(Elements()) + {key}
    {
      var _ := tree.Insert(key);
    }

    /** erase(key): remove the key; nothing changes when it is absent. */
    method Erase(key: int)
      requires Valid()
      modifies tree
      ensures Valid() && Elements() == old(Elements()) - {key}
    {
      var _ := tree.Erase(key);
    }

    /** begin(): the least key, or end() when the set is empty. */
    method Begin() returns (c: Cursor)
      requires Valid()
      ensures IsLeast(Elements(), c)
    {
      c := tree.Begin();
    }

    /** find(key): the key's position, or end() when it is absent. */
    method Find(key: int) returns (c: Cursor)
      requires Valid()
      ensures c == if key in Elements() then At(key) else End
    {
      c := tree.Find(key, false);
    }

    /** lower_bound(key): the position of the least key not below the given
        one, or end() when there is none. */
    method LowerBound(key: int) returns (c: Cursor)
      requires Valid()
      ensures key in Elements() ==> c == At(key)
      ensures key !in Elements() ==> IsSuccessor(Elements(), key, c)
    {
      c := tree.Find(key, true);
    }

    /** iterator++: the next position in key order; after the largest key,
        end(); from end(), a null iterator. */
    method Next(c: Cursor) returns (n: Cursor)
      requires Valid() && c != Null && (c.At? ==> c.key in Elements())
      ensures c.At? ==> IsSuccessor(Elements(), c.key, n)
      ensures c == End ==> n == Null
    {
      n := tree.Next(c);
    }

    /** iterator--: the previous position in key order; from end(), the
        largest key. */
    method Prev(c: Cursor) returns (p: Cursor)
      requires Valid() && c != Null && (c.At? ==> c.key in Elements())
      ensures c.At? ==> IsPredecessor(Elements(), c.key, p)
      ensures c == End ==> (p == Null <==> Elements() == {})
      ensures c == End && p.At? ==> p.key in Elements() && forall x :: x in Elements() ==> x <= p.key
    {
      p := tree.Prev(c);
    }
  }
}
