/** The region tree of `vmm_avl.c` in place: linked nodes whose fields the operations update. */
module AvlNodes {
  import opened AvlTree
  import opened AvlInsert

  class Region {
    var start: nat
    var size: nat
    var used: bool
    var height: nat
    var left: Region?
    var right: Region?
    ghost var tree: Tree          // the tree below this node
    ghost var Repr: set<Region>   // the nodes of that tree

    ghost predicate Valid()
      reads this, Repr
      ensures Valid() ==> this in Repr && tree.Node?
    {
      && this in Repr
      && (left != null ==> left in Repr && left.Repr <= Repr && this !in left.Repr && left.Valid())
      && (right != null ==> right in Repr && right.Repr <= Repr && this !in right.Repr && right.Valid())
      && (left != null && right != null ==> left.Repr !! right.Repr)
      && Repr == {this} + (if left == null then {} else left.Repr) + (if right == null then {} else right.Repr)
      && tree == Node(start, size, used, height, if left == null then Leaf else left.tree, if right == null then Leaf else right.tree)
    }

    /** `vmm_avl_new` */
    constructor (start: nat, size: nat, used: bool)
      ensures Valid() && Repr == {this} && tree == Node(start, size, used, 1, Leaf, Leaf)
    {
      this.start, this.size, this.used := start, size, used;
      height, left, right := 1, null, null;
      tree, Repr := Node(start, size, used, 1, Leaf, Leaf), {this};
    }
  }

  ghost predicate ValidTree(t: Region?)
    reads t, if t == null then {} else t.Repr
  {
    t == null || t.Valid()
  }

  ghost function ModelOf(t: Region?): Tree
    reads t
  {
    if t == null then Leaf else t.tree
  }

  ghost function Nodes(t: Region?): set<Region>
    reads t
  {
    if t == null then {} else t.Repr
  }

  method HeightOf(t: Region?) returns (h: nat)
    requires ValidTree(t)
    ensures h == Height(ModelOf(t))
  {
    h := if t == null then 0 else t.height;
  }

  method BalanceOf(t: Region?) returns (b: int)
    requires ValidTree(t)
    ensures b == Balance(ModelOf(t))
  {
    if t == null { return 0; }
    var l: int := HeightOf(t.left);
    var r: int := HeightOf(t.right);
    b := l - r;
  }

  /** The children of `t` are sound trees apart from each other and from `t`, whatever `t` itself
      records about them. */
  ghost predicate OverChildren(t: Region)
    reads t, t.left, t.right, Nodes(t.left), Nodes(t.right)
  {
    && ValidTree(t.left) && ValidTree(t.right)
    && t !in Nodes(t.left) && t !in Nodes(t.right) && Nodes(t.left) !! Nodes(t.right)
  }

  /** The tree that `t` should record. */
  ghost function Shape(t: Region): Tree
    reads t, t.left, t.right
  {
    Node(t.start, t.size, t.used, t.height, ModelOf(t.left), ModelOf(t.right))
  }

  /** What it is for a node to be sound, in terms of its children. */
  lemma ValidIs(t: Region)
    ensures t.Valid() <==> OverChildren(t) && t.Repr == {t} + Nodes(t.left) + Nodes(t.right) && t.tree == Shape(t)
  {
  }

  /** Stores the height of `t`, and brings its ghost view up to date with its children. */
  method RefreshNode(t: Region)
    requires OverChildren(t)
    modifies t
    ensures t.Valid() && t.Repr == {t} + Nodes(t.left) + Nodes(t.right)
    ensures t.left == old(t.left) && t.right == old(t.right)
    ensures t.tree == Refresh(old(Shape(t)))
  {
    hide Region.Valid, Height;
    var l := HeightOf(t.left);
    var r := HeightOf(t.right);
    t.height := 1 + Max(l, r);
    t.Repr := {t} + Nodes(t.left) + Nodes(t.right);
    t.tree := Shape(t);
    ValidIs(t);
  }

  method AttachRight(top: Region, t: Region)
    requires t.Valid() && ValidTree(top.left) && top !in t.Repr && top !in Nodes(top.left) && Nodes(top.left) !! t.Repr
    modifies top
    ensures top.Valid() && top.Repr == {top} + old(Nodes(top.left)) + t.Repr
    ensures top.tree == Refresh(Node(old(top.start), old(top.size), old(top.used), old(top.height), old(ModelOf(top.left)), t.tree))
  {
    top.right := t;
    RefreshNode(top);
  }

  method AttachLeft(top: Region, t: Region)
    requires t.Valid() && ValidTree(top.right) && top !in t.Repr && top !in Nodes(top.right) && Nodes(top.right) !! t.Repr
    modifies top
    ensures top.Valid() && top.Repr == {top} + t.Repr + old(Nodes(top.right))
    ensures top.tree == Refresh(Node(old(top.start), old(top.size), old(top.used), old(top.height), t.tree, old(ModelOf(top.right))))
  {
    top.left := t;
    RefreshNode(top);
  }

  method RotateRightAt(t: Region) returns (top: Region)
    requires t.Valid() && t.left != null
    modifies t, t.left
    ensures top.Valid() && top.Repr == old(t.Repr)
    ensures top.tree == RotateRight(old(t.tree))
  {
    hide Region.Valid, Refresh;
    top := t.left;
    ValidIs(t);
    ValidIs(top);
    t.left := top.right;
    RefreshNode(t);
    AttachRight(top, t);
  }

  method RotateLeftAt(t: Region) returns (top: Region)
    requires t.Valid() && t.right != null
    modifies t, t.right
    ensures top.Valid() && top.Repr == old(t.Repr)
    ensures top.tree == RotateLeft(old(t.tree))
  {
    hide Region.Valid, Refresh;
    top := t.right;
    ValidIs(t);
    ValidIs(top);
    t.right := top.left;
    RefreshNode(t);
    AttachLeft(top, t);
  }

  method RotateLeftRight(t: Region) returns (top: Region)
    requires t.Valid() && t.tree.left.Node? && t.tree.left.right.Node?
    modifies t.Repr
    ensures top.Valid() && top.Repr == old(t.Repr)
    ensures top.tree == RotateRight(old(t.tree).(left := RotateLeft(old(t.tree).left)))
  {
    hide Region.Valid, RotateLeft, RotateRight;
    ValidIs(t);
    ValidIs(t.left);
    var l := RotateLeftAt(t.left);
    t.left := l;
    t.tree := Shape(t);
    ValidIs(t);
    ValidIs(l);
    top := RotateRightAt(t);
  }

  method RotateRightLeft(t: Region) returns (top: Region)
    requires t.Valid() && t.tree.right.Node? && t.tree.right.left.Node?
    modifies t.Repr
    ensures top.Valid() && top.Repr == old(t.Repr)
    ensures top.tree == RotateLeft(old(t.tree).(right := RotateRight(old(t.tree).right)))
  {
    hide Region.Valid, RotateLeft, RotateRight;
    ValidIs(t);
    ValidIs(t.right);
    var r := RotateRightAt(t.right);
    t.right := r;
    t.tree := Shape(t);
    ValidIs(t);
    top := RotateLeftAt(t);
  }

  /** The four cases at the end of `vmm_avl_delete`. */
  method RebalanceNode(t: Region) returns (top: Region)
    requires t.Valid() && Rotatable(t.tree)
    modifies t.Repr
    ensures top.Valid() && top.Repr == old(t.Repr)
    ensures top.tree == Rebalance(old(t.tree))
  {
    var balance := BalanceOf(t);
    var leftBalance := BalanceOf(t.left);
    var rightBalance := BalanceOf(t.right);
    if balance > 1 && leftBalance >= 0 {
      top := RotateRightAt(t);
    } else if balance > 1 {
      top := RotateLeftRight(t);
    } else if balance < -1 && rightBalance <= 0 {
      top := RotateLeftAt(t);
    } else if balance < -1 {
      top := RotateRightLeft(t);
    } else {
      top := t;
    }
  }

  method SettleNode(t: Region) returns (top: Region)
    requires OverChildren(t)
    requires Balanced(ModelOf(t.left)) && Balanced(ModelOf(t.right)) && -2 <= Balance(Shape(t)) <= 2
    modifies t, Nodes(t.left), Nodes(t.right)
    ensures top.Valid() && top.Repr == {t} + old(Nodes(t.left)) + old(Nodes(t.right))
    ensures top.tree == Settle(old(Shape(t)))
  {
    RebalanceBalances(Refresh(Shape(t)));
    RefreshNode(t);
    top := RebalanceNode(t);
  }

  /** The node that a deletion gives back to the heap, if any. */
  ghost function Freed(freed: Region?): set<Region> { if freed == null then {} else {freed} }

  /** `vmm_avl_delete`.  The result's nodes are the old ones without the freed one, and hold the tree that
      `Delete` describes. */
  method DeleteAt(t: Region?, start: nat) returns (r: Region?, ghost freed: Region?)
    requires ValidTree(t) && Balanced(ModelOf(t))
    modifies Nodes(t)
    ensures ValidTree(r) && Nodes(r) !! Freed(freed) && Nodes(r) + Freed(freed) == old(Nodes(t))
    ensures ModelOf(r) == Delete(old(ModelOf(t)), start)
    decreases Nodes(t), 1
  {
    freed := null;
    if t == null {
      r := null;
    } else if start < t.start {
      r, freed := DeleteLeftOf(t, start);
    } else if start > t.start {
      r, freed := DeleteRightOf(t, start);
    } else if t.left == null && t.right == null {
      r, freed := null, t;
    } else if t.left == null {
      freed := t;
      r := PromoteChild(t.right);
    } else if t.right == null {
      freed := t;
      r := PromoteChild(t.left);
    } else {
      r, freed := ReplaceBySuccessor(t);
    }
  }

  /** An only child takes its parent's place. */
  method PromoteChild(c: Region) returns (r: Region)
    requires c.Valid() && Balanced(c.tree)
    modifies c.Repr
    ensures r.Valid() && r.Repr == old(c.Repr)
    ensures r.tree == Settle(BalancedParts(old(c.tree)); old(c.tree))
  {
    BalancedParts(c.tree);
    r := SettleNode(c);
  }

  /** The left subtree loses an entry, and the node is settled over the result. */
  method DeleteLeftOf(t: Region, start: nat) returns (r: Region, ghost freed: Region?)
    requires OverChildren(t) && Balanced(ModelOf(t.left)) && Balanced(ModelOf(t.right)) && -1 <= Balance(Shape(t)) <= 1
    modifies t, Nodes(t.left), Nodes(t.right)
    ensures r.Valid() && r.Repr !! Freed(freed) && r.Repr + Freed(freed) == {t} + old(Nodes(t.left)) + old(Nodes(t.right))
    ensures r.tree == Settle(old(Shape(t)).(left := Delete(old(ModelOf(t.left)), start)))
    decreases Nodes(t.left), 2
  {
    hide Delete, Settle, Balanced, Region.Valid;
    var l;
    l, freed := DeleteAt(t.left, start);
    t.left := l;
    r := SettleNode(t);
  }

  method DeleteRightOf(t: Region, start: nat) returns (r: Region, ghost freed: Region?)
    requires OverChildren(t) && Balanced(ModelOf(t.left)) && Balanced(ModelOf(t.right)) && -1 <= Balance(Shape(t)) <= 1
    modifies t, Nodes(t.left), Nodes(t.right)
    ensures r.Valid() && r.Repr !! Freed(freed) && r.Repr + Freed(freed) == {t} + old(Nodes(t.left)) + old(Nodes(t.right))
    ensures r.tree == Settle(old(Shape(t)).(right := Delete(old(ModelOf(t.right)), start)))
    decreases Nodes(t.right), 2
  {
    hide Delete, Settle, Balanced, Region.Valid;
    var u;
    u, freed := DeleteAt(t.right, start);
    t.right := u;
    r := SettleNode(t);
  }

  /** The node takes over its successor's entry, and the successor is deleted below. */
  method ReplaceBySuccessor(t: Region) returns (r: Region, ghost freed: Region?)
    requires t.Valid() && Balanced(t.tree) && t.left != null && t.right != null
    modifies t.Repr
    ensures r.Valid() && r.Repr !! Freed(freed) && r.Repr + Freed(freed) == old(t.Repr)
    ensures r.tree == Delete(old(t.tree), old(t.start))
    decreases t.Repr, 0
  {
    hide Region.Valid, Delete, Settle;
    ValidIs(t);
    DeleteUnfolds(t.tree, t.start);
    var tmp := GetMinNode(t.right);
    ValidIs(tmp);
    t.start, t.size, t.used := tmp.start, tmp.size, tmp.used;
    r, freed := DeleteRightOf(t, tmp.start);
  }

  /** The three recursive cases of `Delete`. */
  lemma DeleteUnfolds(t: Tree, k: nat)
    requires t.Node? && Balanced(t)
    ensures k < t.start ==> Delete(t, k) == Settle(t.(left := Delete(t.left, k)))
    ensures k > t.start ==> Delete(t, k) == Settle(t.(right := Delete(t.right, k)))
    ensures k == t.start && t.left.Node? && t.right.Node? ==>
              var m := MinNode(t.right);
              Delete(t, k) == Settle(Node(m.start, m.size, m.used, t.height, t.left, Delete(t.right, m.start)))
  {
  }

  /** `get_min_node` */
  method GetMinNode(t: Region) returns (current: Region)
    requires t.Valid()
    ensures current.Valid() && current in t.Repr && current.tree == MinNode(t.tree)
  {
    current := t;
    while current.left != null
      invariant current.Valid() && current.Repr <= t.Repr
      invariant MinNode(current.tree) == MinNode(t.tree)
      decreases current.Repr
    {
      current := current.left;
    }
  }

  /** The four tests at the end of `vmm_avl_insert`. */
  method FixNode(t: Region, start: nat) returns (top: Region)
    requires t.Valid() && Fix(t.tree, start).Done?
    modifies t.Repr
    ensures top.Valid() && top.Repr == old(t.Repr)
    ensures top.tree == Fix(old(t.tree), start).tree
  {
    var balance := BalanceOf(t);
    if balance > 1 && start < t.left.start {
      top := RotateRightAt(t);
    } else if balance < -1 && start < t.right.start {
      top := RotateLeftAt(t);
    } else if balance > 1 && start > t.left.start {
      top := RotateLeftRight(t);
    } else if balance < -1 && start > t.right.start {
      top := RotateRightLeft(t);
    } else {
      top := t;
    }
  }

  method RefreshAndFix(t: Region, start: nat) returns (r: Region)
    requires OverChildren(t) && Fix(Refresh(Shape(t)), start).Done?
    modifies t, Nodes(t.left), Nodes(t.right)
    ensures r.Valid() && r.Repr == {t} + old(Nodes(t.left)) + old(Nodes(t.right))
    ensures r.tree == Fix(Refresh(old(Shape(t))), start).tree
  {
    RefreshNode(t);
    r := FixNode(t, start);
  }

  /** `vmm_avl_insert`, on inputs for which it does not follow a null pointer.  The result's nodes
      are the old ones and new ones, and hold the tree that `Insert` describes. */
  method InsertAt(t: Region?, start: nat, size: nat, used: bool) returns (r: Region)
    requires ValidTree(t) && Insert(ModelOf(t), Entry(start, size, used)).Done?
    modifies Nodes(t)
    ensures r.Valid() && old(Nodes(t)) <= r.Repr && fresh(r.Repr - old(Nodes(t)))
    ensures r.tree == Insert(old(ModelOf(t)), Entry(start, size, used)).tree
    decreases Nodes(t)
  {
    hide Fix, Refresh, Height;
    if t == null {
      r := new Region(start, size, used);
    } else if start < t.start {
      var l := InsertAt(t.left, start, size, used);
      t.left := l;
      r := RefreshAndFix(t, start);
    } else if start > t.start {
      var u := InsertAt(t.right, start, size, used);
      t.right := u;
      r := RefreshAndFix(t, start);
    } else {
      r := t;
    }
  }
}
