/**
 * The AVL tree engine of the sorted map. Every node exclusively owns its two
 * subtrees and every operation returns the new subtree root, so the pointer
 * rewiring of the source is modelled by functions that build new trees; the
 * two cursor loops (`find`, `findMin`) are methods.
 */
module AvlTree {
  import opened Listing

  /** A node: key, value, the stored height field, and the two owned subtrees. */
  datatype Tree<V> = Nil | Node(key: Key, value: V, height: int, left: Tree<V>, right: Tree<V>)

  // ---------------------------------------------------------------------------
  // What a tree stands for
  // ---------------------------------------------------------------------------

  /** The in-order listing: left subtree, the node, right subtree. */
  function Entries<V>(t: Tree<V>): seq<Entry<V>>
  {
    match t
    case Nil => []
    case Node(k, v, _, l, r) => Entries(l) + [Entry(k, v)] + Entries(r)
  }

  /** The map a tree holds (a right subtree's entry wins, as in the listing). */
  function Contents<V>(t: Tree<V>): map<Key, V>
  {
    match t
    case Nil => map[]
    case Node(k, v, _, l, r) => Contents(l) + map[k := v] + Contents(r)
  }

  function Keys<V>(t: Tree<V>): set<Key>
  {
    Contents(t).Keys
  }

  lemma KeysOfNode<V>(t: Tree<V>)
    requires t.Node?
    ensures Keys(t) == Keys(t.left) + {t.key} + Keys(t.right)
  {
  }

  /** Number of nodes. */
  function Size<V>(t: Tree<V>): nat
  {
    match t
    case Nil => 0
    case Node(_, _, _, l, r) => Size(l) + 1 + Size(r)
  }

  /** BST order: left keys below the node's key, right keys above it, at every node. */
  ghost predicate Bst<V>(t: Tree<V>)
  {
    match t
    case Nil => true
    case Node(k, _, _, l, r) =>
      && Bst(l) && Bst(r)
      && (forall x :: x in Keys(l) ==> x < k)
      && (forall x :: x in Keys(r) ==> k < x)
  }

  // ---------------------------------------------------------------------------
  // Heights
  // ---------------------------------------------------------------------------

  /** The stored height; an absent subtree has height 0. */
  function Height<V>(t: Tree<V>): int
  {
    if t.Nil? then 0 else t.height
  }

  /** Balance factor: height of the right subtree minus height of the left one. */
  function BFactor<V>(t: Tree<V>): (r: int)
    ensures t.Nil? ==> r == 0
    ensures t.Node? && HeightOk(t) ==> r == Depth(t.right) - Depth(t.left)
  {
    if t.Nil? then 0
    else
      HeightIsDepth(t.left);
      HeightIsDepth(t.right);
      Height(t.right) - Height(t.left)
  }

  function Max(a: int, b: int): int
  {
    if a > b then a else b
  }

  /** Every stored height is one more than the larger child height. */
  predicate HeightOk<V>(t: Tree<V>)
    ensures HeightOk(t) ==> Height(t) >= 0 && (Height(t) == 0 <==> t.Nil?)
  {
    t.Nil? || (HeightOk(t.left) && HeightOk(t.right) && t.height == 1 + Max(Height(t.left), Height(t.right)))
  }

  /** AVL balance: every balance factor lies in [-1, 1]. */
  predicate Balanced<V>(t: Tree<V>)
  {
    t.Nil? || (Balanced(t.left) && Balanced(t.right) && -1 <= BFactor(t) <= 1)
  }

  predicate Avl<V>(t: Tree<V>)
  {
    HeightOk(t) && Balanced(t)
  }

  /** The invariant every tree the container holds satisfies. */
  ghost predicate Valid<V>(t: Tree<V>)
  {
    Bst(t) && Avl(t)
  }

  /** Length of the longest root-to-leaf path, computed from the shape alone. */
  function Depth<V>(t: Tree<V>): nat
  {
    match t
    case Nil => 0
    case Node(_, _, _, l, r) => 1 + Max(Depth(l), Depth(r))
  }

  /** Consistent stored heights are the real heights. */
  lemma {:induction false} HeightIsDepth<V>(t: Tree<V>)
    ensures HeightOk(t) ==> Height(t) == Depth(t)
  {
    if t.Node? {
      HeightIsDepth(t.left);
      HeightIsDepth(t.right);
    }
  }

  /** Recompute a node's stored height from its children. */
  function FixHeight<V>(t: Tree<V>): (r: Tree<V>)
    ensures r.Nil? <==> t.Nil?
    ensures r.Node? ==> r.key == t.key && r.value == t.value && r.left == t.left && r.right == t.right
    ensures Entries(r) == Entries(t) && Contents(r) == Contents(t)
    ensures t.Node? && HeightOk(t.left) && HeightOk(t.right) ==> HeightOk(r)
  {
    if t.Nil? then t
    else if Height(t.left) > Height(t.right) then t.(height := 1 + Height(t.left))
    else t.(height := 1 + Height(t.right))
  }

  // ---------------------------------------------------------------------------
  // Listing, keys and contents agree
  // ---------------------------------------------------------------------------

  lemma {:induction false} ContentsAreEntries<V>(t: Tree<V>)
    ensures Contents(t) == MapOf(Entries(t))
  {
    if t.Node? {
      ContentsAreEntries(t.left);
      ContentsAreEntries(t.right);
      var l, e, r := Entries(t.left), [Entry(t.key, t.value)], Entries(t.right);
      assert MapOf(e) == map[t.key := t.value] by {
        assert e[1..] == [];
      }
      calc {
        MapOf(Entries(t));
        MapOf(l + e + r);
        { MapOfConcat(l + e, r); }
        MapOf(l + e) + MapOf(r);
        { MapOfConcat(l, e); }
        MapOf(l) + MapOf(e) + MapOf(r);
        Contents(t);
      }
    }
  }

  /** Two trees with the same listing hold the same map. */
  lemma SameEntriesSameContents<V>(t1: Tree<V>, t2: Tree<V>)
    requires Entries(t1) == Entries(t2)
    ensures Contents(t1) == Contents(t2) && Keys(t1) == Keys(t2)
  {
    ContentsAreEntries(t1);
    ContentsAreEntries(t2);
  }

  /** A key belongs to the tree exactly when it occurs in the listing. */
  lemma KeysInEntries<V>(t: Tree<V>)
    ensures forall i :: 0 <= i < |Entries(t)| ==> Entries(t)[i].key in Keys(t)
    ensures forall x :: x in Keys(t) ==> exists i :: 0 <= i < |Entries(t)| && Entries(t)[i].key == x
  {
    ContentsAreEntries(t);
    MapOfKeys(Entries(t));
  }

  /** BST order holds exactly when the in-order listing has strictly increasing keys. */
  lemma {:induction false} BstIffSorted<V>(t: Tree<V>)
    ensures Bst(t) <==> StrictlySorted(Entries(t))
  {
    if t.Node? {
      var l, r, e := Entries(t.left), Entries(t.right), Entry(t.key, t.value);
      BstIffSorted(t.left);
      BstIffSorted(t.right);
      KeysInEntries(t.left);
      KeysInEntries(t.right);
      SortedAround(l, e, r);
      if StrictlySorted(Entries(t)) {
        forall x | x in Keys(t.left) ensures x < t.key {
          var i :| 0 <= i < |l| && l[i].key == x;
        }
        forall x | x in Keys(t.right) ensures t.key < x {
          var i :| 0 <= i < |r| && r[i].key == x;
        }
      }
    }
  }

  /** In a BST the number of nodes is the number of keys. */
  lemma SizeIsCardinality<V>(t: Tree<V>)
    requires Bst(t)
    ensures Size(t) == |Contents(t)| == |Entries(t)|
  {
    SizeIsLength(t);
    BstIffSorted(t);
    ContentsAreEntries(t);
    MapOfSorted(Entries(t));
  }

  lemma {:induction false} SizeIsLength<V>(t: Tree<V>)
    ensures Size(t) == |Entries(t)|
  {
    if t.Node? {
      SizeIsLength(t.left);
      SizeIsLength(t.right);
    }
  }

  /** Two BSTs holding the same map list the same entries, whatever their shapes. */
  lemma EntriesDeterminedByContents<V>(t1: Tree<V>, t2: Tree<V>)
    requires Bst(t1) && Bst(t2) && Contents(t1) == Contents(t2)
    ensures Entries(t1) == Entries(t2)
  {
    BstIffSorted(t1);
    BstIffSorted(t2);
    ContentsAreEntries(t1);
    ContentsAreEntries(t2);
    SortedListingUnique(Entries(t1), Entries(t2));
  }

  // ---------------------------------------------------------------------------
  // Rotations and rebalancing
  // ---------------------------------------------------------------------------

  /** The right child `m` becomes the root; its left subtree moves under the old root. */
  function RotateLeft<V>(t: Tree<V>): (r: Tree<V>)
    requires t.Node? && t.right.Node?
    ensures r.Node?
    ensures Entries(r) == Entries(t)
    ensures HeightOk(t.left) && HeightOk(t.right) ==> HeightOk(r)
    ensures Bst(t) ==> Bst(r)
  {
    var m := t.right;
    var n := FixHeight(t.(right := m.left));
    var r := FixHeight(m.(left := n));
    BstIffSorted(t);
    BstIffSorted(r);
    r
  }

  /** The left child `m` becomes the root; its right subtree moves under the old root. */
  function RotateRight<V>(t: Tree<V>): (r: Tree<V>)
    requires t.Node? && t.left.Node?
    ensures r.Node?
    ensures Entries(r) == Entries(t)
    ensures HeightOk(t.left) && HeightOk(t.right) ==> HeightOk(r)
    ensures Bst(t) ==> Bst(r)
  {
    var m := t.left;
    var n := FixHeight(t.(left := m.right));
    var r := FixHeight(m.(right := n));
    BstIffSorted(t);
    BstIffSorted(r);
    r
  }

  /**
   * Refresh the height and, when the balance factor is +2 or -2, restore
   * balance with a single or a double rotation.
   */
  function Balance<V>(t: Tree<V>): (r: Tree<V>)
    requires t.Node? ==> HeightOk(t.left) && HeightOk(t.right)
    ensures Entries(r) == Entries(t) && Contents(r) == Contents(t) && Keys(r) == Keys(t)
    ensures HeightOk(r)
    ensures Bst(t) ==> Bst(r)
  {
    var n := FixHeight(t);
    var r :=
      if BFactor(n) == 2 then
        var m := n.right;
        RotateLeft(if BFactor(m) < 0 then n.(right := RotateRight(m)) else n)
      else if BFactor(n) == -2 then
        var m := n.left;
        RotateRight(if BFactor(m) > 0 then n.(left := RotateLeft(m)) else n)
      else
        n;
    SameEntriesSameContents(r, t);
    BstIffSorted(t);
    BstIffSorted(r);
    r
  }

  /**
   * Given AVL children whose heights differ by at most 2, Balance yields an AVL
   * tree whose height is the larger child height plus 0 or 1; with children
   * already within 1 of each other no rotation happens.
   */
  lemma BalanceRestoresAvl<V>(t: Tree<V>)
    requires t.Node? && Avl(t.left) && Avl(t.right)
    requires -2 <= Height(t.right) - Height(t.left) <= 2
    ensures Avl(Balance(t))
    ensures Max(Height(t.left), Height(t.right)) <= Height(Balance(t)) <= Max(Height(t.left), Height(t.right)) + 1
    ensures -1 <= Height(t.right) - Height(t.left) <= 1 ==>
              Balance(t) == FixHeight(t) && Height(Balance(t)) == 1 + Max(Height(t.left), Height(t.right))
  {
    var n := FixHeight(t);
    if BFactor(n) == 2 {
      if BFactor(n.right) < 0 {
        RightLeftRotationAvl(n);
      } else {
        LeftRotationAvl(n);
      }
    } else if BFactor(n) == -2 {
      if BFactor(n.left) > 0 {
        LeftRightRotationAvl(n);
      } else {
        RightRotationAvl(n);
      }
    }
  }

  /** Right subtree two higher and not leaning left: one left rotation rebalances. */
  lemma LeftRotationAvl<V>(n: Tree<V>)
    requires n.Node? && Avl(n.left) && Avl(n.right)
    requires Height(n.right) == Height(n.left) + 2 && BFactor(n.right) >= 0
    ensures n.right.Node? && Avl(RotateLeft(n))
    ensures Height(n.right) <= Height(RotateLeft(n)) <= Height(n.right) + 1
  {
    var a, m := Height(n.left), n.right;
    assert Height(m.right) == a + 1;
    assert a <= Height(m.left) <= a + 1;
    var n2 := FixHeight(n.(right := m.left));
    assert Avl(n2) && a + 1 <= Height(n2) <= a + 2;
    assert RotateLeft(n) == FixHeight(m.(left := n2));
  }

  /** Right subtree two higher and leaning left: a right then a left rotation rebalances. */
  lemma RightLeftRotationAvl<V>(n: Tree<V>)
    requires n.Node? && Avl(n.left) && Avl(n.right)
    requires Height(n.right) == Height(n.left) + 2 && BFactor(n.right) < 0
    ensures n.right.Node? && n.right.left.Node?
    ensures Avl(RotateLeft(n.(right := RotateRight(n.right))))
    ensures Height(RotateLeft(n.(right := RotateRight(n.right)))) == Height(n.right)
  {
    var a, m := Height(n.left), n.right;
    var ml := m.left;
    assert Height(ml) == a + 1 && Height(m.right) == a;
    assert HeightOk(ml) && Balanced(ml);
    assert a - 1 <= Height(ml.left) <= a && a - 1 <= Height(ml.right) <= a;
    var m2 := FixHeight(m.(left := ml.right));
    assert Avl(m2) && Height(m2) == a + 1;
    var n2 := FixHeight(n.(right := ml.left));
    assert Avl(n2) && Height(n2) == a + 1;
    assert RotateRight(m) == FixHeight(ml.(right := m2));
    assert RotateLeft(n.(right := RotateRight(m))) == FixHeight(ml.(left := n2, right := m2));
  }

  /** Left subtree two higher and not leaning right: one right rotation rebalances. */
  lemma RightRotationAvl<V>(n: Tree<V>)
    requires n.Node? && Avl(n.left) && Avl(n.right)
    requires Height(n.left) == Height(n.right) + 2 && BFactor(n.left) <= 0
    ensures n.left.Node? && Avl(RotateRight(n))
    ensures Height(n.left) <= Height(RotateRight(n)) <= Height(n.left) + 1
  {
    var b, m := Height(n.right), n.left;
    assert Height(m.left) == b + 1;
    assert b <= Height(m.right) <= b + 1;
    var n2 := FixHeight(n.(left := m.right));
    assert Avl(n2) && b + 1 <= Height(n2) <= b + 2;
    assert RotateRight(n) == FixHeight(m.(right := n2));
  }

  /** Left subtree two higher and leaning right: a left then a right rotation rebalances. */
  lemma LeftRightRotationAvl<V>(n: Tree<V>)
    requires n.Node? && Avl(n.left) && Avl(n.right)
    requires Height(n.left) == Height(n.right) + 2 && BFactor(n.left) > 0
    ensures n.left.Node? && n.left.right.Node?
    ensures Avl(RotateRight(n.(left := RotateLeft(n.left))))
    ensures Height(RotateRight(n.(left := RotateLeft(n.left)))) == Height(n.left)
  {
    var b, m := Height(n.right), n.left;
    var mr := m.right;
    assert Height(mr) == b + 1 && Height(m.left) == b;
    assert HeightOk(mr) && Balanced(mr);
    assert b - 1 <= Height(mr.left) <= b && b - 1 <= Height(mr.right) <= b;
    var m2 := FixHeight(m.(right := mr.left));
    assert Avl(m2) && Height(m2) == b + 1;
    var n2 := FixHeight(n.(left := mr.right));
    assert Avl(n2) && Height(n2) == b + 1;
    assert RotateLeft(m) == FixHeight(mr.(left := m2));
    assert RotateRight(n.(left := RotateLeft(m))) == FixHeight(mr.(left := m2, right := n2));
  }

  // ---------------------------------------------------------------------------
  // Insertion
  // ---------------------------------------------------------------------------

  /**
   * Insert `k` with value `v`, or overwrite the value when `k` is present;
   * every node on the way back up is rebalanced.
   */
  function Insert<V>(t: Tree<V>, k: Key, v: V): (r: Tree<V>)
    requires Valid(t)
    ensures Valid(r)
    ensures Contents(r) == Contents(t)[k := v]
    ensures Height(t) <= Height(r) <= Height(t) + 1
  {
    if t.Nil? then Node(k, v, 1, Nil, Nil)
    else if Compare(k, t.key) < 0 then
      var n := t.(left := Insert(t.left, k, v));
      InsertedLeft(t, n.left, k, v);
      BalanceRestoresAvl(n);
      Balance(n)
    else if Compare(k, t.key) > 0 then
      var n := t.(right := Insert(t.right, k, v));
      InsertedRight(t, n.right, k, v);
      BalanceRestoresAvl(n);
      Balance(n)
    else
      var n := t.(value := v);  // update value
      Overwritten(t, v);
      BalanceRestoresAvl(n);
      Balance(n)
  }

  /** One level of Insert: the left subtree absorbed `k -> v`. */
  lemma InsertedLeft<V>(t: Tree<V>, l2: Tree<V>, k: Key, v: V)
    requires t.Node? && Bst(t) && k < t.key
    requires Bst(l2) && Contents(l2) == Contents(t.left)[k := v]
    ensures Contents(t.(left := l2)) == Contents(t)[k := v]
    ensures Bst(t.(left := l2))
  {
    var a, c := Contents(t.left), Contents(t.right);
    assert k !in c by {
      assert forall x :: x in Keys(t.right) ==> t.key < x;
    }
    UpdateLeft(a, t.key, t.value, c, k, v);
    assert Contents(t.(left := l2)) == a[k := v] + map[t.key := t.value] + c;
    assert forall x :: x in Keys(l2) ==> x < t.key by {
      assert Keys(l2) == Keys(t.left) + {k};
    }
  }

  /** One level of Insert: the right subtree absorbed `k -> v`. */
  lemma InsertedRight<V>(t: Tree<V>, r2: Tree<V>, k: Key, v: V)
    requires t.Node? && Bst(t) && k > t.key
    requires Bst(r2) && Contents(r2) == Contents(t.right)[k := v]
    ensures Contents(t.(right := r2)) == Contents(t)[k := v]
    ensures Bst(t.(right := r2))
  {
    var a, c := Contents(t.left), Contents(t.right);
    UpdateRight(a, t.key, t.value, c, k, v);
    assert Contents(t.(right := r2)) == a + map[t.key := t.value] + c[k := v];
    assert forall x :: x in Keys(r2) ==> t.key < x by {
      assert Keys(r2) == Keys(t.right) + {k};
    }
  }

  /** One level of Insert: the key was found and only its value changes. */
  lemma Overwritten<V>(t: Tree<V>, v: V)
    requires t.Node? && Bst(t)
    ensures Contents(t.(value := v)) == Contents(t)[t.key := v]
    ensures Bst(t.(value := v))
  {
    var a, c := Contents(t.left), Contents(t.right);
    assert t.key !in c by {
      assert forall x :: x in Keys(t.right) ==> t.key < x;
    }
    UpdateMiddle(a, t.key, t.value, c, v);
  }

  // ---------------------------------------------------------------------------
  // Minimum extraction
  // ---------------------------------------------------------------------------

  /** The leftmost node of a non-empty tree: it carries the first entry of the listing. */
  function Leftmost<V>(t: Tree<V>): (m: Tree<V>)
    requires t.Node?
    ensures m.Node? && m.left.Nil?
    ensures Entries(t)[0] == Entry(m.key, m.value)
    ensures m.key in Keys(t)
    ensures Bst(t) ==> forall x :: x in Keys(t) ==> m.key <= x
  {
    KeysOfNode(t);
    if t.left.Nil? then t else Leftmost(t.left)
  }

  /** Walk left children down to the leftmost node. */
  method FindMin<V>(t: Tree<V>) returns (m: Tree<V>)
    requires t.Node?
    ensures m.Node? && m.left.Nil? && Entries(t)[0] == Entry(m.key, m.value)
    ensures m == Leftmost(t)
  {
    m := t;
    while m.left.Node?
      invariant m.Node? && Leftmost(m) == Leftmost(t)
      decreases m
    {
      m := m.left;
    }
  }

  /** A BST whose listing is another BST's listing without its first entry. */
  lemma DropFirst<V>(t: Tree<V>, r: Tree<V>)
    requires t.Node? && Bst(t) && Entries(r) == Entries(t)[1..]
    ensures Bst(r) && Contents(r) == Contents(t) - {Leftmost(t).key}
  {
    BstIffSorted(t);
    MapOfTail(Entries(t));
    BstIffSorted(r);
    ContentsAreEntries(t);
    ContentsAreEntries(r);
  }

  /** Replacing the left child by its listing without the first entry drops the first entry of the whole. */
  lemma DroppedLeft<V>(t: Tree<V>, n: Tree<V>)
    requires t.Node? && n.Node? && t.left.Node? && Bst(t)
    requires n.key == t.key && n.value == t.value && n.right == t.right
    requires Entries(n.left) == Entries(t.left)[1..]
    ensures Bst(n) && Entries(n) == Entries(t)[1..]
    ensures Contents(n) == Contents(t) - {Leftmost(t).key}
  {
    assert Entries(n) == Entries(t)[1..];
    DropFirst(t, n);
  }

  /** Detach the leftmost node, rebalancing every ancestor on the way back up. */
  function RemoveMin<V>(t: Tree<V>): (r: Tree<V>)
    requires t.Node? && Valid(t)
    ensures Valid(r)
    ensures Entries(r) == Entries(t)[1..]
    ensures Contents(r) == Contents(t) - {Leftmost(t).key}
    ensures Height(t) - 1 <= Height(r) <= Height(t)
  {
    if t.left.Node? then
      var n := t.(left := RemoveMin(t.left));
      BalanceRestoresAvl(n);
      DroppedLeft(t, n);
      Balance(n)
    else
      assert Entries(t.right) == Entries(t)[1..];
      DropFirst(t, t.right);
      t.right
  }

  // ---------------------------------------------------------------------------
  // Merge and split
  // ---------------------------------------------------------------------------

  /** Every key of `a` lies below every key of `b`. */
  ghost predicate KeysBelow<V>(a: Tree<V>, b: Tree<V>)
  {
    forall x, y :: x in Keys(a) && y in Keys(b) ==> x < y
  }

  /** Concatenating the listings of two ordered BSTs gives a BST holding both maps. */
  lemma OrderedConcat<V>(a: Tree<V>, b: Tree<V>, r: Tree<V>)
    requires Bst(a) && Bst(b) && KeysBelow(a, b)
    requires Entries(r) == Entries(a) + Entries(b)
    ensures Bst(r) && Contents(r) == Contents(a) + Contents(b)
  {
    var s, u := Entries(a), Entries(b);
    BstIffSorted(a);
    BstIffSorted(b);
    KeysInEntries(a);
    KeysInEntries(b);
    SortedConcat(s, u);
    BstIffSorted(r);
    ConcatContents(a, b, r);
  }

  /** A tree listing the entries of `a` then those of `b` holds both maps, `b` winning on shared keys. */
  lemma ConcatContents<V>(a: Tree<V>, b: Tree<V>, r: Tree<V>)
    requires Entries(r) == Entries(a) + Entries(b)
    ensures Contents(r) == Contents(a) + Contents(b)
  {
    ContentsAreEntries(a);
    ContentsAreEntries(b);
    ContentsAreEntries(r);
    MapOfConcat(Entries(a), Entries(b));
  }

  /**
   * Join two AVL trees, every key of `a` below every key of `b`. A higher side
   * absorbs the other by recursion into its inner subtree; sides of nearly equal
   * height are joined under the minimum node of `b`.
   */
  function Merge<V>(a: Tree<V>, b: Tree<V>): (r: Tree<V>)
    requires Valid(a) && Valid(b) && KeysBelow(a, b)
    ensures Valid(r)
    ensures Entries(r) == Entries(a) + Entries(b)
    ensures Contents(r) == Contents(a) + Contents(b)
    ensures Max(Height(a), Height(b)) <= Height(r) <= Max(Height(a), Height(b)) + 1
    decreases Size(a) + Size(b)
  {
    if a.Nil? then
      assert Entries(a) + Entries(b) == Entries(b);
      b
    else if b.Nil? then
      assert Entries(a) + Entries(b) == Entries(a);
      a
    else if a.height > b.height then
      KeysBelowChildren(a, b);
      var mr := Merge(a.right, b);
      var r := Balance(a.(right := mr));
      JoinedIntoLeft(a, mr, Height(b));
      NewRightEntries(a, mr, b);
      OrderedConcat(a, b, r);
      r
    else if a.height + 1 < b.height then
      KeysBelowChildren(a, b);
      var ml := Merge(a, b.left);
      var r := Balance(b.(left := ml));
      JoinedIntoRight(b, ml, Height(a));
      NewLeftEntries(a, ml, b);
      OrderedConcat(a, b, r);
      r
    else
      Glue(a, b)
  }

  /**
   * Merging two non-empty trees of nearly equal height: the least node of `b`
   * becomes the root over `a` and the rest of `b`.
   */
  function Glue<V>(a: Tree<V>, b: Tree<V>): (r: Tree<V>)
    requires Valid(a) && Valid(b) && KeysBelow(a, b)
    requires a.Node? && b.Node? && b.height - 1 <= a.height <= b.height
    ensures Valid(r)
    ensures Entries(r) == Entries(a) + Entries(b)
    ensures Contents(r) == Contents(a) + Contents(b)
    ensures Height(b) <= Height(r) <= Height(b) + 1
  {
    var m := Leftmost(b);
    var rest := RemoveMin(b);
    var n := m.(left := a, right := rest);
    JoinedUnderMin(m, a, rest, Height(b));
    GlueOrder(a, b, n);
    Balance(n)
  }

  /** Rooting the least entry of `b` over `a` and the rest of `b` keeps the keys in order. */
  lemma GlueOrder<V>(a: Tree<V>, b: Tree<V>, n: Tree<V>)
    requires n.Node? && Bst(a) && Bst(b) && KeysBelow(a, b) && n.left == a
    requires Entries(b) != [] && Entries(b)[0] == Entry(n.key, n.value) && Entries(n.right) == Entries(b)[1..]
    ensures Bst(n) && Entries(n) == Entries(a) + Entries(b)
    ensures Contents(n) == Contents(a) + Contents(b)
  {
    RootedAtMin(a, b, n);
    OrderedConcat(a, b, n);
  }

  /** A node holding the first entry of `b`, over `a` and the rest of `b`, lists `a` then `b`. */
  lemma RootedAtMin<V>(a: Tree<V>, b: Tree<V>, n: Tree<V>)
    requires n.Node? && n.left == a
    requires Entries(b) != [] && Entries(b)[0] == Entry(n.key, n.value) && Entries(n.right) == Entries(b)[1..]
    ensures Entries(n) == Entries(a) + Entries(b)
  {
    assert Entries(b) == [Entries(b)[0]] + Entries(b)[1..];
    assert Entries(a) + [Entry(n.key, n.value)] + Entries(n.right) == Entries(a) + ([Entry(n.key, n.value)] + Entries(n.right));
  }

  /** Replacing the right child of `a` by a tree listing it followed by `b`. */
  lemma NewRightEntries<V>(a: Tree<V>, mr: Tree<V>, b: Tree<V>)
    requires a.Node? && Entries(mr) == Entries(a.right) + Entries(b)
    ensures Entries(a.(right := mr)) == Entries(a) + Entries(b)
  {
    var x, e, y, z := Entries(a.left), [Entry(a.key, a.value)], Entries(a.right), Entries(b);
    calc {
      Entries(a.(right := mr));
      x + e + (y + z);
      x + e + y + z;
      Entries(a) + Entries(b);
    }
  }

  /** Replacing the left child of `b` by a tree listing `a` followed by it. */
  lemma NewLeftEntries<V>(a: Tree<V>, ml: Tree<V>, b: Tree<V>)
    requires b.Node? && Entries(ml) == Entries(a) + Entries(b.left)
    ensures Entries(b.(left := ml)) == Entries(a) + Entries(b)
  {
    var x, y, e, z := Entries(a), Entries(b.left), [Entry(b.key, b.value)], Entries(b.right);
    calc {
      Entries(b.(left := ml));
      (x + y) + e + z;
      x + (y + e + z);
      Entries(a) + Entries(b);
    }
  }

  /** Heights when `b` was merged into the right spine of the higher tree `a`, giving `mr`. */
  lemma JoinedIntoLeft<V>(a: Tree<V>, mr: Tree<V>, hb: int)
    requires a.Node? && Avl(a) && Avl(mr) && 0 <= hb < a.height
    requires Max(Height(a.right), hb) <= Height(mr) <= Max(Height(a.right), hb) + 1
    ensures Avl(Balance(a.(right := mr)))
    ensures Height(a) <= Height(Balance(a.(right := mr))) <= Height(a) + 1
  {
    BalanceRestoresAvl(a.(right := mr));
  }

  /** Heights when `a` was merged into the left spine of the tree `b`, higher by two or more, giving `ml`. */
  lemma JoinedIntoRight<V>(b: Tree<V>, ml: Tree<V>, ha: int)
    requires b.Node? && Avl(b) && Avl(ml) && 0 <= ha && ha + 1 < b.height
    requires Max(ha, Height(b.left)) <= Height(ml) <= Max(ha, Height(b.left)) + 1
    ensures Avl(Balance(b.(left := ml)))
    ensures Height(b) <= Height(Balance(b.(left := ml))) <= Height(b) + 1
  {
    BalanceRestoresAvl(b.(left := ml));
  }

  /** Heights when the minimum node of `b` becomes the root over `a` and the rest `rest` of `b`. */
  lemma JoinedUnderMin<V>(m: Tree<V>, a: Tree<V>, rest: Tree<V>, hb: int)
    requires m.Node? && Avl(a) && Avl(rest)
    requires hb - 1 <= Height(a) <= hb && hb - 1 <= Height(rest) <= hb
    ensures Avl(Balance(m.(left := a, right := rest)))
    ensures hb <= Height(Balance(m.(left := a, right := rest))) <= hb + 1
  {
    BalanceRestoresAvl(m.(left := a, right := rest));
  }

  lemma KeysBelowChildren<V>(a: Tree<V>, b: Tree<V>)
    requires a.Node? && b.Node? && KeysBelow(a, b)
    ensures KeysBelow(a.right, b) && KeysBelow(a, b.left)
  {
    KeysOfNode(a);
    KeysOfNode(b);
  }

  /** Keys below `k` go left, keys above `k` go right; the key `k` itself is dropped unless `keep`. */
  function Split<V>(t: Tree<V>, k: Key, keep: bool): (p: (Tree<V>, Tree<V>))
    requires Valid(t)
    ensures Valid(p.0) && Valid(p.1)
    ensures Contents(p.0) == Below(Contents(t), k)
    ensures Contents(p.1) == Upper(Contents(t), k, keep)
  {
    if t.Nil? then
      assert Below(Contents(t), k) == map[] == Upper(Contents(t), k, keep);
      (Nil, Nil)
    else if Compare(t.key, k) < 0 then
      var (l1, l2) := Split(t.right, k, keep);
      SplitRightStep(t, k, keep, l1, l2);
      var m := Merge(t.left, l1);
      var t1 := Insert(m, t.key, t.value);
      (t1, l2)
    else
      var (r1, r2) := Split(t.left, k, keep);
      SplitLeftStep(t, k, keep, r1, r2);
      var m := Merge(r2, t.right);
      var t2 := if t.key != k || keep then Insert(m, t.key, t.value) else m;
      (r1, t2)
  }

  /** One level of Split when the node's key lies below `k`. */
  lemma SplitRightStep<V>(t: Tree<V>, k: Key, keep: bool, l1: Tree<V>, l2: Tree<V>)
    requires t.Node? && Bst(t) && t.key < k
    requires Contents(l1) == Below(Contents(t.right), k)
    requires Contents(l2) == Upper(Contents(t.right), k, keep)
    ensures KeysBelow(t.left, l1)
    ensures (Contents(t.left) + Contents(l1))[t.key := t.value] == Below(Contents(t), k)
    ensures Contents(l2) == Upper(Contents(t), k, keep)
  {
    assert forall x :: x in Keys(t.left) ==> x < t.key;
    assert forall x :: x in Keys(t.right) ==> t.key < x;
    SplitAbove(Contents(t.left), t.key, t.value, Contents(t.right), k, keep);
  }

  /** One level of Split when the node's key lies at or above `k`. */
  lemma SplitLeftStep<V>(t: Tree<V>, k: Key, keep: bool, r1: Tree<V>, r2: Tree<V>)
    requires t.Node? && Bst(t) && t.key >= k
    requires Contents(r1) == Below(Contents(t.left), k)
    requires Contents(r2) == Upper(Contents(t.left), k, keep)
    ensures KeysBelow(r2, t.right)
    ensures Contents(r1) == Below(Contents(t), k)
    ensures t.key != k || keep ==> (Contents(r2) + Contents(t.right))[t.key := t.value] == Upper(Contents(t), k, keep)
    ensures t.key == k && !keep ==> Contents(r2) + Contents(t.right) == Upper(Contents(t), k, keep)
  {
    assert forall x :: x in Keys(t.left) ==> x < t.key;
    assert forall x :: x in Keys(t.right) ==> t.key < x;
    SplitAtOrBelow(Contents(t.left), t.key, t.value, Contents(t.right), k, keep);
  }

  /** Delete `k` by splitting around it and merging the two halves back. */
  function Remove<V>(t: Tree<V>, k: Key): (r: Tree<V>)
    requires Valid(t)
    ensures Valid(r)
    ensures Contents(r) == Contents(t) - {k}
  {
    if t.Nil? then
      assert Contents(t) - {k} == map[];
      t
    else
      var (t1, t2) := Split(t, k, false);
      SplitHalves(Contents(t), k);
      Merge(t1, t2)
  }

  /** Removing an absent key rebuilds the tree but leaves its listing unchanged. */
  lemma RemoveAbsentKeepsEntries<V>(t: Tree<V>, k: Key)
    requires Valid(t) && k !in Keys(t)
    ensures Entries(Remove(t, k)) == Entries(t)
  {
    assert Contents(t) - {k} == Contents(t);
    EntriesDeterminedByContents(Remove(t, k), t);
  }

  // ---------------------------------------------------------------------------
  // Lookup and listing
  // ---------------------------------------------------------------------------

  /** At a node of a search tree, a key below the node's is found on the left, one above on the right. */
  lemma SearchStep<V>(n: Tree<V>, k: Key)
    requires n.Node? && Bst(n)
    ensures Bst(n.left) && Bst(n.right)
    ensures k < n.key ==> Lookup(Contents(n), k) == Lookup(Contents(n.left), k)
    ensures k > n.key ==> Lookup(Contents(n), k) == Lookup(Contents(n.right), k)
    ensures k == n.key ==> Lookup(Contents(n), k) == Some(n.value)
  {
    var a, c := Contents(n.left), Contents(n.right);
    assert Contents(n) == a + map[n.key := n.value] + c;
    assert k <= n.key ==> k !in c by {
      assert forall x :: x in Keys(n.right) ==> n.key < x;
    }
    assert k >= n.key ==> k !in a by {
      assert forall x :: x in Keys(n.left) ==> x < n.key;
    }
    if k < n.key {
      LookupLeft(a, n.key, n.value, c, k);
    } else if k > n.key {
      LookupRight(a, n.key, n.value, c, k);
    } else {
      LookupMiddle(a, n.key, n.value, c);
    }
  }

  /** Descend from the root by comparison until `k` is found or the path ends. */
  method Find<V>(t: Tree<V>, k: Key) returns (r: Option<V>)
    requires Bst(t)
    ensures r == Lookup(Contents(t), k)
  {
    var n := t;
    while n.Node?
      invariant Bst(n)
      invariant Lookup(Contents(n), k) == Lookup(Contents(t), k)
      decreases n
    {
      SearchStep(n, k);
      if Compare(k, n.key) < 0 {
        n := n.left;
      } else if Compare(k, n.key) > 0 {
        n := n.right;
      } else {
        return Some(n.value);
      }
    }
    return None;
  }

  /** Append the in-order listing of `t` to `res`. */
  function InOrderSlice<V>(t: Tree<V>, res: seq<Entry<V>>): (r: seq<Entry<V>>)
    ensures r == res + Entries(t)
  {
    if t.Nil? then res
    else
      var res := InOrderSlice(t.left, res);
      var res := res + [Entry(t.key, t.value)];
      InOrderSlice(t.right, res)
  }

  /** The slice built from an empty one is the in-order listing: sorted, and describing the tree's map. */
  lemma SliceOfBst<V>(t: Tree<V>)
    requires Bst(t)
    ensures InOrderSlice(t, []) == Entries(t)
    ensures StrictlySorted(InOrderSlice(t, [])) && MapOf(InOrderSlice(t, [])) == Contents(t)
  {
    assert [] + Entries(t) == Entries(t);
    BstIffSorted(t);
    ContentsAreEntries(t);
  }
}
