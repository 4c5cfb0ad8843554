/** Insertion into the region tree, with its right-heavy cases as written: the two conditions are
    exchanged, so one of them rotates once too few and the other lifts the wrong child.
  */
module AvlInsert {
  import opened AvlTree

  /** Insertion either returns a tree or follows a null pointer. */
  datatype Outcome = NullDeref | Done(tree: Tree)

  /** The four tests at the end of `vmm_avl_insert`, in their order. */
  function Fix(t: Tree, k: nat): Outcome
    requires t.Node?
  {
    if Balance(t) > 1 && k < t.left.start then Done(RotateRight(t))
    else if Balance(t) < -1 && k < t.right.start then Done(RotateLeft(t))
    else if Balance(t) > 1 && k > t.left.start then
      if t.left.right.Leaf? then NullDeref else Done(RotateRight(t.(left := RotateLeft(t.left))))
    else if Balance(t) < -1 && k > t.right.start then
      if t.right.left.Leaf? then NullDeref else Done(RotateLeft(t.(right := RotateRight(t.right))))
    else Done(t)
  }

  /** `vmm_avl_insert` */
  function Insert(t: Tree, e: Entry): Outcome {
    if t.Leaf? then Done(Node(e.start, e.size, e.used, 1, Leaf, Leaf))
    else if e.start < t.start then
      match Insert(t.left, e)
      case NullDeref => NullDeref
      case Done(l) => Fix(Refresh(t.(left := l)), e.start)
    else if e.start > t.start then
      match Insert(t.right, e)
      case NullDeref => NullDeref
      case Done(r) => Fix(Refresh(t.(right := r)), e.start)
    else Done(t)
  }

  // ---------- contents: right in every case ----------

  /** `s` with `e` in its place, unless its key is there already. */
  function With(s: seq<Entry>, e: Entry): seq<Entry> {
    if s == [] || e.start < s[0].start then [e] + s
    else if e.start == s[0].start then s
    else [s[0]] + With(s[1..], e)
  }

  lemma {:induction false} WithLeft(a: seq<Entry>, x: Entry, b: seq<Entry>, e: Entry)
    requires e.start < x.start
    ensures With(a + [x] + b, e) == With(a, e) + [x] + b
  {
    var s := a + [x] + b;
    if a == [] {
      assert s == [x] + b;
      assert [e] + s == [e] + [x] + b;
    } else if e.start < a[0].start {
      assert [e] + s == [e] + a + [x] + b;
    } else if e.start > a[0].start {
      WithLeft(a[1..], x, b, e);
      assert s[1..] == a[1..] + [x] + b;
      assert [a[0]] + (With(a[1..], e) + [x] + b) == [a[0]] + With(a[1..], e) + [x] + b;
    }
  }

  lemma {:induction false} WithRight(a: seq<Entry>, x: Entry, b: seq<Entry>, e: Entry)
    requires e.start > x.start && forall y <- a :: y.start < x.start
    ensures With(a + [x] + b, e) == a + [x] + With(b, e)
  {
    var s := a + [x] + b;
    if a == [] {
      assert s[1..] == b;
      assert [x] + With(b, e) == a + [x] + With(b, e);
    } else {
      WithRight(a[1..], x, b, e);
      assert s[1..] == a[1..] + [x] + b;
      assert [a[0]] + (a[1..] + [x] + With(b, e)) == a + [x] + With(b, e);
    }
  }

  lemma {:induction false} WithMiddle(a: seq<Entry>, x: Entry, b: seq<Entry>, e: Entry)
    requires e.start == x.start && forall y <- a :: y.start < x.start
    ensures With(a + [x] + b, e) == a + [x] + b
  {
    var s := a + [x] + b;
    if a != [] {
      WithMiddle(a[1..], x, b, e);
      assert s[1..] == a[1..] + [x] + b;
    }
  }

  lemma SortedFirst(x: Entry, s: seq<Entry>)
    ensures Sorted([x] + s) <==> Sorted(s) && forall y <- s :: x.start < y.start
  {
    var w := [x] + s;
    if Sorted(w) {
      forall y <- s ensures x.start < y.start {
        var j :| 0 <= j < |s| && s[j] == y;
        assert w[j + 1] == y && w[0] == x;
      }
      forall i, j | 0 <= i < j < |s| ensures s[i].start < s[j].start { assert w[i + 1] == s[i] && w[j + 1] == s[j]; }
    }
  }

  lemma {:induction false} WithKeepsSorted(s: seq<Entry>, e: Entry)
    requires Sorted(s)
    ensures Sorted(With(s, e))
    ensures forall x :: x in With(s, e) <==> x in s || (x == e && forall y <- s :: y.start != e.start)
  {
    hide Sorted;
    if s == [] {
      SortedFirst(e, []);
    } else {
      var rest := s[1..];
      assert s == [s[0]] + rest;
      SortedFirst(s[0], rest);
      SortedFirst(e, s);
      if e.start > s[0].start {
        WithKeepsSorted(rest, e);
        SortedFirst(s[0], With(rest, e));
      }
    }
  }

  lemma FixKeeps(t: Tree, k: nat)
    requires t.Node? && Fix(t, k).Done?
    ensures InOrder(Fix(t, k).tree) == InOrder(t) && Fix(t, k).tree.Node?
  {
    if Balance(t) > 1 && k < t.left.start {
      RotateRightKeeps(t);
    } else if Balance(t) < -1 && k < t.right.start {
      RotateLeftKeeps(t);
    } else if Balance(t) > 1 && k > t.left.start {
      RotateLeftKeeps(t.left);
      RotateRightKeeps(t.(left := RotateLeft(t.left)));
    } else if Balance(t) < -1 && k > t.right.start {
      RotateRightKeeps(t.right);
      RotateLeftKeeps(t.(right := RotateRight(t.right)));
    }
  }

  /** Whatever the shape, an insertion that returns has put the entry in its place. */
  lemma {:induction false} InsertPlaces(t: Tree, e: Entry)
    requires Ordered(t) && Insert(t, e).Done?
    ensures InOrder(Insert(t, e).tree) == With(InOrder(t), e) && Ordered(Insert(t, e).tree)
    ensures Insert(t, e).tree.Node?
  {
    WithKeepsSorted(InOrder(t), e);
    if t.Node? {
      SortedParts(t);
      hide Sorted, With;
      var a, x, b := InOrder(t.left), EntryOf(t), InOrder(t.right);
      if e.start < t.start {
        InsertPlaces(t.left, e);
        FixKeeps(Refresh(t.(left := Insert(t.left, e).tree)), e.start);
        WithLeft(a, x, b, e);
      } else if e.start > t.start {
        InsertPlaces(t.right, e);
        FixKeeps(Refresh(t.(right := Insert(t.right, e).tree)), e.start);
        WithRight(a, x, b, e);
      } else {
        WithMiddle(a, x, b, e);
      }
    }
  }

  // ---------- shape: exactly when the result is balanced ----------

  /** Whether inserting a new key `k` makes the balanced tree `t` one level higher. */
  predicate Deepens(t: Tree, k: nat) {
    t.Leaf? || (k != t.start && Balance(t) == 0 && Deepens(if k < t.start then t.left else t.right, k))
  }

  /** The key goes into the right subtree, which is the higher one already, and makes it higher
      still: the situation whose two tests are exchanged. */
  predicate HeavyRight(t: Tree, k: nat) {
    t.Node? && k > t.start && Balance(t) == -1 && Deepens(t.right, k)
  }

  /** By luck, the rotation at a left-leaning parent repairs the lower of the two wrong shapes. */
  predicate Mended(t: Tree, k: nat) {
    t.Node? && k < t.start && Balance(t) == 1 && HeavyRight(t.left, k) && t.left.right.Node? && k < t.left.right.start
  }

  /** What a caller can test before inserting: some node on the way to `k` is heavy on the right,
      and its parent does not mend it. */
  predicate Faulty(t: Tree, k: nat) {
    t.Node? &&
    if k < t.start then Faulty(t.left, k) && !Mended(t, k)
    else k > t.start && (HeavyRight(t, k) || Faulty(t.right, k))
  }

  /** A subtree that grew leans towards the new key. */
  predicate Leans(t: Tree, r: Tree, k: nat) {
    t.Node? ==> r.Node? && r.start == t.start && k != r.start && Balance(r) == if k < r.start then 1 else -1
  }

  /** Insertion below which no wrong case arises. */
  predicate GoodInsert(t: Tree, e: Entry) {
    var o := Insert(t, e);
    && o.Done? && o.tree.Node? && Balanced(o.tree)
    && Height(o.tree) == Height(t) + (if Deepens(t, e.start) then 1 else 0)
    && (Deepens(t, e.start) ==> Leans(t, o.tree, e.start))
  }

  lemma {:induction false} DeepensIsGood(t: Tree, e: Entry)
    requires Balanced(t) && Deepens(t, e.start)
    ensures GoodInsert(t, e)
  {
    if t.Node? {
      if e.start < t.start { DeepensIsGood(t.left, e); } else { DeepensIsGood(t.right, e); }
    }
  }

  /** The new key goes left and the left rotation cases are right. */
  lemma FixLeft(t: Tree, l: Tree, e: Entry)
    requires t.Node? && Balanced(t) && e.start < t.start && Insert(t.left, e) == Done(l) && GoodInsert(t.left, e)
    ensures GoodInsert(t, e)
  {
    BalancedParts(t);
    BalancedParts(l);
    var u := Refresh(t.(left := l));
    if Balance(u) == 2 {
      if e.start < l.start { RightRotationBalances(u); } else { LeftRightRotationBalances(u); }
    } else {
      RefreshBalances(t.(left := l));
    }
  }

  /** The new key goes right, and no rotation is needed. */
  lemma FixRight(t: Tree, r: Tree, e: Entry)
    requires t.Node? && Balanced(t) && e.start > t.start && Insert(t.right, e) == Done(r) && GoodInsert(t.right, e)
    requires !HeavyRight(t, e.start)
    ensures GoodInsert(t, e)
  {
    BalancedParts(t);
    RefreshBalances(t.(right := r));
  }

  /** The wrong single rotation: the right child comes up, two levels heavier on its left. */
  lemma HeavyRightLow(t: Tree, e: Entry)
    requires Balanced(t) && HeavyRight(t, e.start) && t.right.Node? && e.start < t.right.start
    ensures var o := Insert(t, e);
            && o.Done? && o.tree.Node? && o.tree.start == t.right.start && HeightStored(o.tree)
            && Balanced(o.tree.left) && Balanced(o.tree.right)
            && Balance(o.tree) == 2 && Height(o.tree) == Height(t) + 1
  {
    DeepensIsGood(t.right, e);
    BalancedParts(t);
    var r := Insert(t.right, e).tree;
    BalancedParts(r);
    RefreshBalances(t.(right := r.left));
  }

  lemma MendedIsGood(t: Tree, e: Entry)
    requires Balanced(t) && Mended(t, e.start)
    ensures GoodInsert(t, e)
  {
    BalancedParts(t);
    HeavyRightLow(t.left, e);
    var l := Insert(t.left, e).tree;
    RefreshBalances(t.(left := l.right));
    RefreshBalances(l.(right := Refresh(t.(left := l.right))));
  }

  lemma {:induction false} NotFaultyIsGood(t: Tree, e: Entry)
    requires Balanced(t) && !Faulty(t, e.start)
    ensures GoodInsert(t, e)
  {
    if t.Node? {
      BalancedParts(t);
      if e.start < t.start {
        if Mended(t, e.start) {
          MendedIsGood(t, e);
        } else {
          NotFaultyIsGood(t.left, e);
          FixLeft(t, Insert(t.left, e).tree, e);
        }
      } else if e.start > t.start {
        NotFaultyIsGood(t.right, e);
        FixRight(t, Insert(t.right, e).tree, e);
      }
    }
  }

  // ---------- the wrong shapes, and why no ancestor puts them right ----------

  /** Somewhere at least two levels down a subtree is unbalanced: no rotation above reaches it. */
  predicate DeepFlaw(r: Tree) {
    r.Node? &&
    ((r.left.Node? && !(Balanced(r.left.left) && Balanced(r.left.right))) ||
     (r.right.Node? && !(Balanced(r.right.left) && Balanced(r.right.right))))
  }

  predicate Lopsided(t: Tree) { HeightStored(t) && !(-1 <= Balance(t) <= 1) }

  /** The root itself is heavy on the left by two, fresh from the wrong single rotation, or by more. */
  predicate RootFlaw(r: Tree, t: Tree, k: nat) {
    && HeightStored(r) && Balance(r) >= 2 && k < r.start
    && (Balance(r) == 2 ==> HeavyRight(t, k) && t.right.Node? && k < t.right.start)
  }

  /** The child on the key's side is lopsided, and the root leans towards it. */
  predicate ChildFlaw(r: Tree, k: nat) {
    HeightStored(r) && k != r.start &&
    if k < r.start then Lopsided(r.left) && Balance(r) == 1 else Lopsided(r.right) && Balance(r) == -1
  }

  predicate Flawed(r: Tree, t: Tree, k: nat) {
    || DeepFlaw(r)
    || (Height(r) == Height(t) && !Balanced(r))
    || (Height(r) == Height(t) + 1 && (RootFlaw(r, t, k) || ChildFlaw(r, k)))
  }

  lemma FlawedIsUnbalanced(r: Tree, t: Tree, k: nat)
    requires Flawed(r, t, k)
    ensures !Balanced(r)
  {
  }

  predicate BadInsert(t: Tree, e: Entry) {
    match Insert(t, e)
    case NullDeref => true
    case Done(r) => r.Node? && Flawed(r, t, e.start)
  }

  /** Where it starts. */
  lemma HeavyRightIsBad(t: Tree, e: Entry)
    requires Avl(t) && HeavyRight(t, e.start)
    ensures BadInsert(t, e)
  {
    DeepensIsGood(t.right, e);
    BalancedParts(t);
    SortedParts(t);
    InsertPlaces(t.right, e);
    var r := Insert(t.right, e).tree;
    if e.start < r.start {
      HeavyRightLow(t, e);
    } else {
      HeavyRightHigh(t, r, e);
    }
  }

  /** The wrong double rotation: it needs a left grandchild, and lifts it over the heavy one. */
  lemma HeavyRightHigh(t: Tree, r: Tree, e: Entry)
    requires Balanced(t) && HeavyRight(t, e.start) && Insert(t.right, e) == Done(r) && GoodInsert(t.right, e)
    requires r.Node? && Ordered(r) && e.start >= r.start
    ensures BadInsert(t, e)
  {
    BalancedParts(t);
    BalancedParts(r);
    if r.left.Node? {
      assert r.left.start < r.start by {
        SortedParts(r);
        RootIsListed(r.left);
      }
      BalancedParts(r.left);
    }
  }

  lemma RootIsListed(t: Tree)
    requires t.Node?
    ensures EntryOf(t) in InOrder(t)
  {
  }

  lemma UnbalancedChild(t: Tree)
    requires t.Node? && !(Balanced(t.left) && Balanced(t.right))
    ensures !Balanced(t)
  {
  }

  /** The subtrees of `c` on the way to its deep flaw are unbalanced as well. */
  lemma DeepFlawUp(c: Tree)
    requires DeepFlaw(c)
    ensures !(Balanced(c.left) && Balanced(c.right))
    ensures c.left.Node? && !(Balanced(c.left.left) && Balanced(c.left.right)) ==> !Balanced(c.left)
    ensures c.right.Node? && !(Balanced(c.right.left) && Balanced(c.right.right)) ==> !Balanced(c.right)
    ensures !Balanced(c)
  {
    if c.left.Node? && !(Balanced(c.left.left) && Balanced(c.left.right)) { UnbalancedChild(c.left); }
    if c.right.Node? && !(Balanced(c.right.left) && Balanced(c.right.right)) { UnbalancedChild(c.right); }
    UnbalancedChild(c);
  }

  lemma DeepFlawStaysLeft(t: Tree, c: Tree, k: nat)
    requires t.Node? && c.Node? && DeepFlaw(c)
    ensures var o := Fix(Refresh(t.(left := c)), k); o.Done? ==> DeepFlaw(o.tree)
  {
    hide Balanced;
    DeepFlawUp(c);
  }

  lemma DeepFlawStaysRight(t: Tree, c: Tree, k: nat)
    requires t.Node? && c.Node? && DeepFlaw(c)
    ensures var o := Fix(Refresh(t.(right := c)), k); o.Done? ==> DeepFlaw(o.tree)
  {
    hide Balanced;
    DeepFlawUp(c);
  }

  /** A deep flaw stays deep, whichever rotation follows. */
  lemma DeepFlawStays(t: Tree, c: Tree, left: bool, k: nat)
    requires t.Node? && c.Node? && DeepFlaw(c)
    ensures var o := Fix(Refresh(if left then t.(left := c) else t.(right := c)), k);
            o.Done? ==> DeepFlaw(o.tree)
  {
    hide DeepFlaw, Fix;
    if left { DeepFlawStaysLeft(t, c, k); } else { DeepFlawStaysRight(t, c, k); }
  }

  lemma FlawUpLeft(t: Tree, l: Tree, e: Entry)
    requires t.Node? && Balanced(t) && e.start < t.start && !Mended(t, e.start)
    requires Insert(t.left, e) == Done(l) && l.Node? && Flawed(l, t.left, e.start)
    ensures BadInsert(t, e)
  {
    var k := e.start;
    BalancedParts(t);
    FlawedIsUnbalanced(l, t.left, k);
    if DeepFlaw(l) {
      DeepFlawStays(t, l, true, k);
    } else if Height(l) == Height(t.left) || Balance(t) <= 0 {
    } else if RootFlaw(l, t.left, k) {
      RootFlawUnderLeft(t, l, e);
    } else {
      ChildFlawUnderLeft(t, l, e);
    }
  }

  /** The right rotation at a left-leaning parent: only the mended case comes out balanced. */
  lemma RootFlawUnderLeft(t: Tree, l: Tree, e: Entry)
    requires t.Node? && Balanced(t) && e.start < t.start && !Mended(t, e.start) && Balance(t) == 1
    requires Insert(t.left, e) == Done(l) && Height(l) == Height(t.left) + 1 && RootFlaw(l, t.left, e.start)
    ensures BadInsert(t, e)
  {
    BalancedParts(t);
  }

  /** Either rotation at a left-leaning parent leaves the lopsided grandchild, or a lopsided piece
      of it, below the new root. */
  lemma ChildFlawUnderLeft(t: Tree, l: Tree, e: Entry)
    requires t.Node? && Balanced(t) && e.start < t.start && Balance(t) == 1
    requires Insert(t.left, e) == Done(l) && Height(l) == Height(t.left) + 1 && ChildFlaw(l, e.start)
    ensures BadInsert(t, e)
  {
    BalancedParts(t);
  }

  lemma FlawUpRight(t: Tree, r: Tree, e: Entry)
    requires t.Node? && Balanced(t) && e.start > t.start
    requires Insert(t.right, e) == Done(r) && r.Node? && Flawed(r, t.right, e.start)
    ensures BadInsert(t, e)
  {
    var k := e.start;
    BalancedParts(t);
    FlawedIsUnbalanced(r, t.right, k);
    if DeepFlaw(r) {
      DeepFlawStays(t, r, false, k);
    } else if Height(r) == Height(t.right) {
    } else if Balance(t) >= 0 {
    } else {
      FlawUnderRight(t, r, e);
    }
  }

  /** At a right-leaning parent no rotation helps. */
  lemma FlawUnderRight(t: Tree, r: Tree, e: Entry)
    requires t.Node? && Balanced(t) && e.start > t.start && Balance(t) == -1
    requires Insert(t.right, e) == Done(r) && r.Node? && Height(r) == Height(t.right) + 1
    requires RootFlaw(r, t.right, e.start) || ChildFlaw(r, e.start)
    ensures BadInsert(t, e)
  {
    BalancedParts(t);
    if RootFlaw(r, t.right, e.start) {
    } else {
    }
  }

  lemma {:induction false} FaultyIsBad(t: Tree, e: Entry)
    requires Avl(t) && Faulty(t, e.start)
    ensures BadInsert(t, e)
  {
    BalancedParts(t);
    SortedParts(t);
    if e.start < t.start {
      FaultyIsBad(t.left, e);
      if Insert(t.left, e).Done? { FlawUpLeft(t, Insert(t.left, e).tree, e); }
    } else if HeavyRight(t, e.start) {
      HeavyRightIsBad(t, e);
    } else {
      FaultyIsBad(t.right, e);
      if Insert(t.right, e).Done? { FlawUpRight(t, Insert(t.right, e).tree, e); }
    }
  }

  /** `vmm_avl_insert` on a sound tree returns a sound tree, with the entry added unless its
      address is present, exactly when the insertion is not faulty. */
  lemma InsertIsSoundUnlessFaulty(t: Tree, e: Entry)
    requires Avl(t)
    ensures Insert(t, e).Done? && Avl(Insert(t, e).tree) <==> !Faulty(t, e.start)
    ensures Insert(t, e).Done? ==>
              forall x :: x in InOrder(Insert(t, e).tree) <==>
                x in InOrder(t) || (x == e && forall y <- InOrder(t) :: y.start != e.start)
  {
    if Faulty(t, e.start) {
      FaultyIsBad(t, e);
      if Insert(t, e).Done? { FlawedIsUnbalanced(Insert(t, e).tree, t, e.start); }
    } else {
      NotFaultyIsGood(t, e);
    }
    if Insert(t, e).Done? {
      InsertPlaces(t, e);
      WithKeepsSorted(InOrder(t), e);
    }
  }

  function OneNode(k: nat): Tree { Node(k, 0, false, 1, Leaf, Leaf) }
  function TwoNodes(j: nat, k: nat): Tree { Node(j, 0, false, 2, Leaf, OneNode(k)) }

  lemma InsertIntoOne(j: nat, k: nat)
    requires j < k
    ensures Insert(OneNode(j), Entry(k, 0, false)) == Done(TwoNodes(j, k))
  {
    assert Insert(Leaf, Entry(k, 0, false)) == Done(OneNode(k));
  }

  lemma TwoNodesAreSound(j: nat, k: nat)
    requires j < k
    ensures Avl(TwoNodes(j, k))
  {
    assert InOrder(OneNode(k)) == [Entry(k, 0, false)];
    assert InOrder(TwoNodes(j, k)) == [Entry(j, 0, false), Entry(k, 0, false)];
  }

  /** Any three increasing keys: the third insertion follows a null pointer. */
  lemma IncreasingKeysFail(i: nat, j: nat, k: nat)
    requires i < j < k
    ensures Insert(Leaf, Entry(i, 0, false)) == Done(OneNode(i))
    ensures Insert(OneNode(i), Entry(j, 0, false)) == Done(TwoNodes(i, j)) && Avl(TwoNodes(i, j))
    ensures Faulty(TwoNodes(i, j), k) && Insert(TwoNodes(i, j), Entry(k, 0, false)) == NullDeref
  {
    InsertIntoOne(i, j);
    InsertIntoOne(j, k);
    TwoNodesAreSound(i, j);
    assert Deepens(OneNode(j), k) by { assert Deepens(Leaf, k); }
    assert HeavyRight(TwoNodes(i, j), k);
  }
}
