/** The region tree of `vmm_avl.c` as values: every function rebuilds what the C code updates. */
module AvlTree {

  /** A node's payload is its address, size and use flag; `height` is stored, not computed. */
  datatype Tree = Leaf | Node(start: nat, size: nat, used: bool, height: nat, left: Tree, right: Tree)

  function Height(t: Tree): nat { if t.Leaf? then 0 else t.height }

  function Max(a: nat, b: nat): nat { if a > b then a else b }

  function Balance(t: Tree): int {
    if t.Leaf? then 0 else Height(t.left) - Height(t.right)
  }

  /** Stores the height that the children's stored heights give. */
  function Refresh(t: Tree): (r: Tree)
    requires t.Node?
    ensures r.Node?
  {
    t.(height := 1 + Max(Height(t.left), Height(t.right)))
  }

  function MinNode(t: Tree): (m: Tree)
    requires t.Node?
    ensures m.Node?
  {
    if t.left.Leaf? then t else MinNode(t.left)
  }

  function RotateRight(t: Tree): (r: Tree)
    requires t.Node? && t.left.Node?
    ensures r.Node?
  {
    Refresh(t.left.(right := Refresh(t.(left := t.left.right))))
  }

  function RotateLeft(t: Tree): (r: Tree)
    requires t.Node? && t.right.Node?
    ensures r.Node?
  {
    Refresh(t.right.(left := Refresh(t.(right := t.right.left))))
  }

  /** Both rotations of each side need the grandchild that they lift. */
  predicate Rotatable(t: Tree) {
    t.Node? &&
    (Balance(t) > 1 ==> t.left.Node? && (Balance(t.left) < 0 ==> t.left.right.Node?)) &&
    (Balance(t) < -1 ==> t.right.Node? && (Balance(t.right) > 0 ==> t.right.left.Node?))
  }

  /** The tail of `vmm_avl_delete`, after the height has been stored. */
  function Rebalance(t: Tree): (r: Tree)
    requires Rotatable(t)
  {
    if Balance(t) > 1 && Balance(t.left) >= 0 then RotateRight(t)
    else if Balance(t) > 1 then RotateRight(t.(left := RotateLeft(t.left)))
    else if Balance(t) < -1 && Balance(t.right) <= 0 then RotateLeft(t)
    else if Balance(t) < -1 then RotateLeft(t.(right := RotateRight(t.right)))
    else t
  }

  // ---------- what a sound tree is ----------

  datatype Entry = Entry(start: nat, size: nat, used: bool)

  function EntryOf(t: Tree): Entry
    requires t.Node?
  {
    Entry(t.start, t.size, t.used)
  }

  /** The entries from left to right. */
  function InOrder(t: Tree): seq<Entry> {
    if t.Leaf? then [] else InOrder(t.left) + [EntryOf(t)] + InOrder(t.right)
  }

  /** A search tree is one whose entries come out in strictly increasing order. */
  predicate Sorted(s: seq<Entry>) {
    forall i, j | 0 <= i < j < |s| :: s[i].start < s[j].start
  }

  predicate Ordered(t: Tree) { Sorted(InOrder(t)) }

  predicate HeightStored(t: Tree) {
    t.Node? && t.height == 1 + Max(Height(t.left), Height(t.right))
  }

  /** Every stored height is right and no two sibling heights differ by more than one. */
  predicate Balanced(t: Tree) {
    t.Leaf? || (Balanced(t.left) && Balanced(t.right) && HeightStored(t) && -1 <= Balance(t) <= 1)
  }

  predicate Avl(t: Tree) { Ordered(t) && Balanced(t) }

  /** The number of levels, whatever the stored heights say. */
  function Depth(t: Tree): nat {
    if t.Leaf? then 0 else 1 + Max(Depth(t.left), Depth(t.right))
  }

  lemma {:induction false} StoredHeightIsDepth(t: Tree)
    requires Balanced(t)
    ensures Height(t) == Depth(t)
  {
    if t.Node? {
      StoredHeightIsDepth(t.left);
      StoredHeightIsDepth(t.right);
    }
  }

  // ---------- rotations and rebalancing ----------

  lemma Regroup(a: seq<Entry>, x: seq<Entry>, b: seq<Entry>, y: seq<Entry>, c: seq<Entry>)
    ensures a + x + (b + y + c) == (a + x + b) + y + c
  {
  }

  lemma RotateRightKeeps(t: Tree)
    requires t.Node? && t.left.Node?
    ensures InOrder(RotateRight(t)) == InOrder(t)
  {
    var l, down := t.left, Refresh(t.(left := t.left.right));
    assert InOrder(down) == InOrder(l.right) + [EntryOf(t)] + InOrder(t.right);
    assert InOrder(l) == InOrder(l.left) + [EntryOf(l)] + InOrder(l.right);
    Regroup(InOrder(l.left), [EntryOf(l)], InOrder(l.right), [EntryOf(t)], InOrder(t.right));
  }

  lemma RotateLeftKeeps(t: Tree)
    requires t.Node? && t.right.Node?
    ensures InOrder(RotateLeft(t)) == InOrder(t)
  {
    var r, down := t.right, Refresh(t.(right := t.right.left));
    assert InOrder(down) == InOrder(t.left) + [EntryOf(t)] + InOrder(r.left);
    assert InOrder(r) == InOrder(r.left) + [EntryOf(r)] + InOrder(r.right);
    Regroup(InOrder(t.left), [EntryOf(t)], InOrder(r.left), [EntryOf(r)], InOrder(r.right));
  }

  lemma RebalanceKeeps(t: Tree)
    requires Rotatable(t)
    ensures InOrder(Rebalance(t)) == InOrder(t)
  {
    if Balance(t) > 1 && Balance(t.left) >= 0 {
      RotateRightKeeps(t);
    } else if Balance(t) > 1 {
      RotateLeftKeeps(t.left);
      RotateRightKeeps(t.(left := RotateLeft(t.left)));
    } else if Balance(t) < -1 && Balance(t.right) <= 0 {
      RotateLeftKeeps(t);
    } else if Balance(t) < -1 {
      RotateRightKeeps(t.right);
      RotateLeftKeeps(t.(right := RotateRight(t.right)));
    }
  }

  /** A node between balanced subtrees, with its height stored anew. */
  lemma RefreshBalances(t: Tree)
    requires t.Node? && Balanced(t.left) && Balanced(t.right) && -1 <= Balance(t) <= 1
    ensures Balanced(Refresh(t)) && Height(Refresh(t)) == 1 + Max(Height(t.left), Height(t.right))
  {
  }

  lemma BalancedParts(t: Tree)
    requires t.Node? && Balanced(t)
    ensures Balanced(t.left) && Balanced(t.right) && HeightStored(t) && -1 <= Balance(t) <= 1
  {
  }

  lemma RightRotationBalances(t: Tree)
    requires HeightStored(t) && Balanced(t.left) && Balanced(t.right) && Balance(t) == 2 && Balance(t.left) >= 0
    ensures Balanced(RotateRight(t)) && Height(t) - 1 <= Height(RotateRight(t)) <= Height(t)
  {
    RefreshBalances(t.(left := t.left.right));
    RefreshBalances(t.left.(right := Refresh(t.(left := t.left.right))));
  }

  lemma LeftRotationBalances(t: Tree)
    requires HeightStored(t) && Balanced(t.left) && Balanced(t.right) && Balance(t) == -2 && Balance(t.right) <= 0
    ensures Balanced(RotateLeft(t)) && Height(t) - 1 <= Height(RotateLeft(t)) <= Height(t)
  {
    RefreshBalances(t.(right := t.right.left));
    RefreshBalances(t.right.(left := Refresh(t.(right := t.right.left))));
  }

  lemma LeftRightRotationBalances(t: Tree)
    requires HeightStored(t) && Balanced(t.left) && Balanced(t.right) && Balance(t) == 2 && Balance(t.left) < 0
    ensures t.left.right.Node?
    ensures var r := RotateRight(t.(left := RotateLeft(t.left))); Balanced(r) && Height(r) == Height(t) - 1
  {
    var l, m := t.left, t.left.right;
    assert Balanced(l) && m.Node?;
    RefreshBalances(l.(right := m.left));
    RefreshBalances(t.(left := m.right));
    var lifted := Refresh(m.(left := Refresh(l.(right := m.left))));
    RefreshBalances(lifted.(right := Refresh(t.(left := m.right))));
  }

  lemma RightLeftRotationBalances(t: Tree)
    requires HeightStored(t) && Balanced(t.left) && Balanced(t.right) && Balance(t) == -2 && Balance(t.right) > 0
    ensures t.right.left.Node?
    ensures var r := RotateLeft(t.(right := RotateRight(t.right))); Balanced(r) && Height(r) == Height(t) - 1
  {
    var r, m := t.right, t.right.left;
    assert Balanced(r) && m.Node?;
    RefreshBalances(r.(left := m.right));
    RefreshBalances(t.(right := m.left));
    var lifted := Refresh(m.(right := Refresh(r.(left := m.right))));
    RefreshBalances(lifted.(left := Refresh(t.(right := m.left))));
  }

  /** All four cases: a node over balanced children that differ by at most two becomes balanced,
      and loses at most one level. */
  lemma RebalanceBalances(t: Tree)
    requires HeightStored(t) && Balanced(t.left) && Balanced(t.right) && -2 <= Balance(t) <= 2
    ensures Rotatable(t) && Balanced(Rebalance(t))
    ensures Height(t) - 1 <= Height(Rebalance(t)) <= Height(t)
    ensures -1 <= Balance(t) <= 1 ==> Rebalance(t) == t
  {
    if Balance(t) == 2 && Balance(t.left) >= 0 {
      RightRotationBalances(t);
    } else if Balance(t) == 2 {
      LeftRightRotationBalances(t);
    } else if Balance(t) == -2 && Balance(t.right) <= 0 {
      LeftRotationBalances(t);
    } else if Balance(t) == -2 {
      RightLeftRotationBalances(t);
    }
  }

  /** Stores the height and rebalances: the tail of `vmm_avl_delete`. */
  function Settle(t: Tree): (r: Tree)
    requires t.Node? && Balanced(t.left) && Balanced(t.right) && -2 <= Balance(t) <= 2
    ensures Balanced(r)
    ensures Max(Height(t.left), Height(t.right)) <= Height(r) <= 1 + Max(Height(t.left), Height(t.right))
    ensures -1 <= Balance(t) <= 1 ==> Height(r) == 1 + Max(Height(t.left), Height(t.right))
  {
    RebalanceBalances(Refresh(t));
    Rebalance(Refresh(t))
  }

  lemma SettleKeeps(t: Tree)
    requires t.Node? && Balanced(t.left) && Balanced(t.right) && -2 <= Balance(t) <= 2
    ensures InOrder(Settle(t)) == InOrder(t)
  {
    RebalanceBalances(Refresh(t));
    RebalanceKeeps(Refresh(t));
  }

  // ---------- deletion ----------

  /** `vmm_avl_delete`.  The tree stays balanced and loses at most one level. */
  function Delete(t: Tree, k: nat): (r: Tree)
    requires Balanced(t)
    ensures Balanced(r) && Height(t) - 1 <= Height(r) <= Height(t)
    decreases t
  {
    if t.Leaf? then t
    else if k < t.start then Settle(t.(left := Delete(t.left, k)))
    else if k > t.start then Settle(t.(right := Delete(t.right, k)))
    else if t.left.Leaf? && t.right.Leaf? then Leaf
    else if t.left.Leaf? then
      BalancedParts(t.right); Settle(t.right)
    else if t.right.Leaf? then
      BalancedParts(t.left); Settle(t.left)
    else
      var m := MinNode(t.right);
      Settle(Node(m.start, m.size, m.used, t.height, t.left, Delete(t.right, m.start)))
  }

  /** `s` without the entry that starts at `k`. */
  function Without(s: seq<Entry>, k: nat): seq<Entry> {
    if s == [] then [] else (if s[0].start == k then [] else [s[0]]) + Without(s[1..], k)
  }

  lemma WithoutFirst(x: Entry, s: seq<Entry>, k: nat)
    ensures Without([x] + s, k) == (if x.start == k then [] else [x]) + Without(s, k)
    ensures Without([], k) == []
  {
    assert ([x] + s)[1..] == s;
  }

  lemma {:induction false} WithoutConcat(a: seq<Entry>, b: seq<Entry>, k: nat)
    ensures Without(a + b, k) == Without(a, k) + Without(b, k)
  {
    hide Without;
    if a == [] {
      assert a + b == b;
      assert Without([], k) == [] by { WithoutFirst(Entry(0, 0, false), [], k); }
    } else {
      var x, c := a[0], a[1..];
      WithoutConcat(c, b, k);
      WithoutFirst(x, c + b, k);
      WithoutFirst(x, c, k);
      assert a == [x] + c && a + b == [x] + (c + b);
      var first := if x.start == k then [] else [x];
      assert first + (Without(c, k) + Without(b, k)) == (first + Without(c, k)) + Without(b, k);
    }
  }

  lemma {:induction false} WithoutAbsent(s: seq<Entry>, k: nat)
    requires forall e <- s :: e.start != k
    ensures Without(s, k) == s
  {
    if s != [] { WithoutAbsent(s[1..], k); }
  }

  lemma {:induction false} MinIsFirst(t: Tree)
    requires t.Node?
    ensures InOrder(t) != [] && InOrder(t)[0] == EntryOf(MinNode(t))
  {
    if t.left.Node? { MinIsFirst(t.left); }
  }

  lemma SortedConcat(a: seq<Entry>, e: Entry, b: seq<Entry>)
    ensures Sorted(a + [e] + b) <==>
            Sorted(a) && Sorted(b) && (forall x <- a :: x.start < e.start) && (forall x <- b :: x.start > e.start)
  {
    var s := a + [e] + b;
    if Sorted(s) {
      forall i | 0 <= i < |a| ensures a[i].start < e.start { assert s[i].start < s[|a|].start; }
      forall i | 0 <= i < |b| ensures b[i].start > e.start { assert s[|a|].start < s[|a| + 1 + i].start; }
      forall i, j | 0 <= i < j < |a| ensures a[i].start < a[j].start { assert s[i].start < s[j].start; }
      forall i, j | 0 <= i < j < |b| ensures b[i].start < b[j].start {
        assert s[|a| + 1 + i].start < s[|a| + 1 + j].start;
      }
    }
  }

  /** The parts of a sorted in-order list. */
  lemma SortedParts(t: Tree)
    requires t.Node? && Ordered(t)
    ensures Ordered(t.left) && Ordered(t.right)
    ensures forall e <- InOrder(t.left) :: e.start < t.start
    ensures forall e <- InOrder(t.right) :: e.start > t.start
  {
    hide Sorted;
    SortedConcat(InOrder(t.left), EntryOf(t), InOrder(t.right));
  }

  /** Taking a key out of a list in three parts, when it can be in one of them only. */
  lemma WithoutLeft(a: seq<Entry>, e: Entry, b: seq<Entry>, k: nat)
    requires e.start != k && forall x <- b :: x.start != k
    ensures Without(a + [e] + b, k) == Without(a, k) + [e] + b
  {
    hide Without;
    WithoutConcat(a + [e], b, k);
    WithoutConcat(a, [e], k);
    WithoutAbsent(b, k);
    WithoutAbsent([e], k);
  }

  lemma WithoutRight(a: seq<Entry>, e: Entry, b: seq<Entry>, k: nat)
    requires e.start != k && forall x <- a :: x.start != k
    ensures Without(a + [e] + b, k) == a + [e] + Without(b, k)
  {
    hide Without;
    WithoutConcat(a + [e], b, k);
    WithoutConcat(a, [e], k);
    WithoutAbsent(a, k);
    WithoutAbsent([e], k);
  }

  lemma WithoutMiddle(a: seq<Entry>, e: Entry, b: seq<Entry>)
    requires (forall x <- a :: x.start != e.start) && (forall x <- b :: x.start != e.start)
    ensures Without(a + [e] + b, e.start) == a + b
  {
    hide Without;
    WithoutConcat(a + [e], b, e.start);
    WithoutConcat(a, [e], e.start);
    WithoutAbsent(a, e.start);
    WithoutAbsent(b, e.start);
    WithoutSelf(e);
  }

  lemma WithoutSelf(e: Entry)
    ensures Without([e], e.start) == []
  {
  }

  /** Deletion takes exactly the entry at `k` out of the list, and moves nothing else. */
  lemma {:induction false} DeleteRemoves(t: Tree, k: nat)
    requires Avl(t)
    ensures InOrder(Delete(t, k)) == Without(InOrder(t), k)
    decreases t
  {
    if t.Node? {
      SortedParts(t);
      if k < t.start {
        DeleteRemoves(t.left, k);
        DeleteLeft(t, k);
      } else if k > t.start {
        DeleteRemoves(t.right, k);
        DeleteRight(t, k);
      } else {
        WithoutMiddle(InOrder(t.left), EntryOf(t), InOrder(t.right));
        if t.left.Node? && t.right.Node? { DeleteRemoves(t.right, MinNode(t.right).start); }
        DeleteRoot(t);
      }
    }
  }

  lemma DeleteLeft(t: Tree, k: nat)
    requires t.Node? && Avl(t) && k < t.start && InOrder(Delete(t.left, k)) == Without(InOrder(t.left), k)
    ensures InOrder(Delete(t, k)) == Without(InOrder(t), k)
  {
    SortedParts(t);
    SettleKeeps(t.(left := Delete(t.left, k)));
    WithoutLeft(InOrder(t.left), EntryOf(t), InOrder(t.right), k);
  }

  lemma DeleteRight(t: Tree, k: nat)
    requires t.Node? && Avl(t) && k > t.start && InOrder(Delete(t.right, k)) == Without(InOrder(t.right), k)
    ensures InOrder(Delete(t, k)) == Without(InOrder(t), k)
  {
    SortedParts(t);
    SettleKeeps(t.(right := Delete(t.right, k)));
    WithoutRight(InOrder(t.left), EntryOf(t), InOrder(t.right), k);
  }

  /** Deleting the root: nothing, the only child, or the successor's entry takes its place. */
  lemma DeleteRoot(t: Tree)
    requires t.Node? && Avl(t)
    requires t.left.Node? && t.right.Node? ==>
               InOrder(Delete(t.right, MinNode(t.right).start)) == Without(InOrder(t.right), MinNode(t.right).start)
    ensures InOrder(Delete(t, t.start)) == InOrder(t.left) + InOrder(t.right)
  {
    if t.left.Leaf? && t.right.Leaf? {
    } else if t.left.Leaf? {
      BalancedParts(t.right);
      SettleKeeps(t.right);
    } else if t.right.Leaf? {
      BalancedParts(t.left);
      SettleKeeps(t.left);
    } else {
      SuccessorReplaces(t);
    }
  }

  lemma SuccessorReplaces(t: Tree)
    requires t.Node? && Avl(t) && t.left.Node? && t.right.Node?
    requires InOrder(Delete(t.right, MinNode(t.right).start)) == Without(InOrder(t.right), MinNode(t.right).start)
    ensures InOrder(Delete(t, t.start)) == InOrder(t.left) + InOrder(t.right)
  {
    var m, b := MinNode(t.right), InOrder(t.right);
    SortedParts(t);
    hide Sorted, MinNode, Without;
    MinIsFirst(t.right);
    FirstRemoved(b);
    var moved := Node(m.start, m.size, m.used, t.height, t.left, Delete(t.right, m.start));
    SettleKeeps(moved);
    HeadRejoins(InOrder(t.left), b);
  }

  lemma HeadRejoins(a: seq<Entry>, b: seq<Entry>)
    requires b != []
    ensures a + [b[0]] + b[1..] == a + b
  {
  }

  lemma FirstRemoved(b: seq<Entry>)
    requires Sorted(b) && b != []
    ensures Without(b, b[0].start) == b[1..]
  {
    WithoutAbsent(b[1..], b[0].start);
  }

  lemma {:induction false} WithoutKeepsSorted(s: seq<Entry>, k: nat)
    requires Sorted(s)
    ensures Sorted(Without(s, k)) && forall e :: e in Without(s, k) <==> e in s && e.start != k
  {
    if s != [] {
      assert s == [s[0]] + s[1..];
      WithoutKeepsSorted(s[1..], k);
    }
  }

  /** `vmm_avl_delete` on a sound tree: sound again, exactly the old entries except the one at
      `k`, each with its payload, and lower by at most one level. */
  lemma DeleteIsSound(t: Tree, k: nat)
    requires Avl(t)
    ensures Avl(Delete(t, k))
    ensures forall e :: e in InOrder(Delete(t, k)) <==> e in InOrder(t) && e.start != k
    ensures Depth(t) - 1 <= Depth(Delete(t, k)) <= Depth(t)
  {
    DeleteRemoves(t, k);
    WithoutKeepsSorted(InOrder(t), k);
    StoredHeightIsDepth(t);
    StoredHeightIsDepth(Delete(t, k));
  }
}
