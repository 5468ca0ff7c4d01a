/** The pointer AVL tree: parent links, stored heights, rotations through link pointers. */
module Avl {
  import opened AvlShape
  import opened AvlOrder

  /** A pointer to a node pointer: the root's, or a child pointer. */
  datatype Link = RootLink | LeftOf(owner: Node) | RightOf(owner: Node)

  class Tree {
    var root: Node?
    ghost var subs: Subs

    ghost function M(): Memory
      reads this`subs, subs.Keys
    {
      Mem(subs.Keys)
    }

    /** A search tree with parent links, whatever its heights. */
    ghost predicate Shaped()
      reads this, subs.Keys
    {
      Linked(subs, M(), root)
    }

    /** What the nodes around `n` are, in terms of the fields. */
    lemma Near(n: Node)
      requires Shaped() && n in subs
      ensures n.left != null ==> n.left in subs && n.left.parent == n && n.left != n && n.left != n.right
      ensures n.right != null ==> n.right in subs && n.right.parent == n && n.right != n
      ensures n.parent != null ==> n.parent in subs && n.parent != n && (n.parent.left == n || n.parent.right == n)
      ensures n.parent != null ==> n.parent != n.left && n.parent != n.right
      ensures n.parent == null <==> n == root
      ensures M()[n] == n.F()
    {
      var m := M();
      Around(subs, m, root, n);
      if n.left != null {
        Around(subs, m, root, n.left);
        assert m[n.left] == n.left.F();
      }
      if n.right != null {
        Around(subs, m, root, n.right);
        assert m[n.right] == n.right.F();
      }
      if n.parent != null {
        Around(subs, m, root, n.parent);
        assert m[n.parent] == n.parent.F();
        assert n in SubOf(subs, n);
      }
    }

    /** cuAvlTreeNodeGetLinkPointer */
    method GetLinkPointer(node: Node) returns (link: Link)
      requires Shaped() && node in subs
      ensures link == LinkOf(node)
    {
      hide Linked;
      Near(node);
      var parent := node.parent;
      if parent != null {
        if node == parent.left {
          return LeftOf(parent);
        }
        if node == parent.right {
          return RightOf(parent);
        }
        assert false;
      }
      return RootLink;
    }

    ghost function LinkOf(node: Node): Link
      reads node, if node.parent == null then {} else {node.parent}
    {
      if node.parent == null then RootLink
      else if node.parent.left == node then LeftOf(node.parent)
      else RightOf(node.parent)
    }

    /** `*link = c` */
    method Store(link: Link, c: Node?, ghost ns: set<Node>)
      requires link.RootLink? || link.owner in ns
      modifies this`root, ns`left, ns`right
      ensures root == if link.RootLink? then c else old(root)
      ensures forall n {:trigger n.left} :: n in ns ==>
        n.left == if link.LeftOf? && n == link.owner then c else old(n.left)
      ensures forall n {:trigger n.right} :: n in ns ==>
        n.right == if link.RightOf? && n == link.owner then c else old(n.right)
    {
      match link
      case RootLink => root := c;
      case LeftOf(o) => o.left := c;
      case RightOf(o) => o.right := c;
    }

    /** cuAvlTreeNodeGetHeight */
    static function GetHeight(node: Node?): int
      reads node
    {
      if node != null then node.height else 0
    }

    /** cuAvlTreeNodeRecalculateHeight */
    method RecalculateHeight(node: Node)
      modifies node`height
      ensures node.height == 1 + Max(old(GetHeight(node.left)), old(GetHeight(node.right)))
    {
      node.height := 1 + Max(GetHeight(node.left), GetHeight(node.right));
    }

    /** The heights that both rotations calculate at their end: the lower node's first. */
    method Reheight(node: Node, child: Node, ghost m: Memory)
      requires child != node && (child.left == node || child.right == node)
      requires forall z {:trigger z in m} :: z in m ==> z.height == m[z].height
      requires node.left != null ==> node.left in m && node.left != node
      requires node.right != null ==> node.right in m && node.right != node
      requires child.left != null ==> child.left in m && child.left != child
      requires child.right != null ==> child.right in m && child.right != child
      modifies node`height, child`height
      ensures node.height == 1 + Max(Hgt(m, node.left), Hgt(m, node.right))
      ensures child.height == 1 + Max(if child.left == node then node.height else Hgt(m, child.left),
        if child.right == node then node.height else Hgt(m, child.right))
    {
      RecalculateHeight(node);
      RecalculateHeight(child);
    }

    /** The pointer changes of cuAvlTreeNodeRotateLeft. */
    method TurnLeft(node: Node, child: Node, ghost ns: set<Node>)
      requires node in ns && node.right == child && child in ns && child != node
      requires child.left != null ==>
        child.left in ns && child.left != node && child.left != child && child.left != node.parent
      requires node.parent != null ==> node.parent in ns && node.parent != node && node.parent != child
      requires node.parent != null ==> node.parent.left == node || node.parent.right == node
      requires Shaped() && node in subs
      modifies this`root, ns`left, ns`right, ns`parent
      ensures root == if old(node.parent) == null then child else old(root)
      ensures forall n {:trigger n.left} :: n in ns ==>
        n.left == if n == child then node else if n == old(node.parent) && old(n.left) == node then child
          else old(n.left)
      ensures forall n {:trigger n.right} :: n in ns ==>
        n.right == if n == node then old(child.left) else if n == old(node.parent) && old(n.left) != node then child
          else old(n.right)
      ensures forall n {:trigger n.parent} :: n in ns ==>
        n.parent == if n == child then old(node.parent) else if n == node then child
          else if n == old(child.left) then node else old(n.parent)
    {
      hide Linked, Mem;
      var link := GetLinkPointer(node);
      Store(link, child, ns);
      child.parent := node.parent;
      node.right := child.left;
      if node.right != null {
        node.right.parent := node;
      }
      child.left := node;
      node.parent := child;
    }

    /** The pointer changes of cuAvlTreeNodeRotateRight. */
    method TurnRight(node: Node, child: Node, ghost ns: set<Node>)
      requires node in ns && node.left == child && child in ns && child != node
      requires child.right != null ==>
        child.right in ns && child.right != node && child.right != child && child.right != node.parent
      requires node.parent != null ==> node.parent in ns && node.parent != node && node.parent != child
      requires node.parent != null ==> node.parent.left == node || node.parent.right == node
      requires Shaped() && node in subs
      modifies this`root, ns`left, ns`right, ns`parent
      ensures root == if old(node.parent) == null then child else old(root)
      ensures forall n {:trigger n.left} :: n in ns ==>
        n.left == if n == node then old(child.right) else if n == old(node.parent) && old(n.left) == node then child
          else old(n.left)
      ensures forall n {:trigger n.right} :: n in ns ==>
        n.right == if n == child then node else if n == old(node.parent) && old(n.left) != node then child
          else old(n.right)
      ensures forall n {:trigger n.parent} :: n in ns ==>
        n.parent == if n == child then old(node.parent) else if n == node then child
          else if n == old(child.right) then node else old(n.parent)
    {
      hide Linked, Mem;
      var link := GetLinkPointer(node);
      Store(link, child, ns);
      child.parent := node.parent;
      node.left := child.right;
      if node.left != null {
        node.left.parent := node;
      }
      child.right := node;
      node.parent := child;
    }

    /** The fields after the rotation. */
    method SpinLeft(node: Node, child: Node)
      requires Shaped() && node in subs && node.right == child && child in subs
      modifies this`root, subs.Keys`left, subs.Keys`right, subs.Keys`parent, subs.Keys`height
      ensures CanRotate(old(M()), node, 0) && RotatedIn(old(M()), node, 0, M())
      ensures root == NewRoot(old(root), node, child)
    {
      hide Linked, Mem, RotatedIn, Shaped, Rotated, Hgt, CanRotate;
      ghost var m := M();
      MemIs(subs.Keys);
      BeforeTurn(node, 0);
      TurnLeft(node, child, subs.Keys);
      Reheight(node, child, m);
      forall z | z in subs
        ensures z.F() == Rotated(m, node, 0, z)
      {
        assert m[z] == old(z.F()) && m[node] == old(node.F()) && m[child] == old(child.F());
        assert m[node].parent != null ==> m[m[node].parent] == old(node.parent.F());
        InRotated(m, node, 0, z, z.F());
      }
      IsRotated(subs.Keys, m, node, 0);
    }

    /** cuAvlTreeNodeRotateLeft */
    method RotateLeft(node: Node) returns (child: Node)
      requires Shaped() && node in subs && node.right != null
      modifies this`root, this`subs, subs.Keys`left, subs.Keys`right, subs.Keys`parent, subs.Keys`height
      ensures child == old(node.right) && child in subs && subs.Keys == old(subs.Keys) && child in old(subs)
      ensures RotatedIn(old(M()), node, 0, M()) && subs == TurnedSubs(old(subs), old(M()), node, 0)
      ensures Shaped() && root == NewRoot(old(root), node, child)
    {
      hide Linked, Mem, RotatedIn, TurnedSubs, Rotated;
      ghost var s, m, r := subs, M(), root;
      child := node.right;
      BeforeTurn(node, 0);
      SpinLeft(node, child);
      RotateLinked(s, m, r, node, 0, M());
      TurnedKeys(s, m, node, 0);
      subs := TurnedSubs(s, m, node, 0);
    }

    /** The fields after the rotation. */
    method SpinRight(node: Node, child: Node)
      requires Shaped() && node in subs && node.left == child && child in subs
      modifies this`root, subs.Keys`left, subs.Keys`right, subs.Keys`parent, subs.Keys`height
      ensures CanRotate(old(M()), node, 1) && RotatedIn(old(M()), node, 1, M())
      ensures root == NewRoot(old(root), node, child)
    {
      hide Linked, Mem, RotatedIn, Shaped, Rotated, Hgt, CanRotate;
      ghost var m := M();
      MemIs(subs.Keys);
      BeforeTurn(node, 1);
      TurnRight(node, child, subs.Keys);
      Reheight(node, child, m);
      forall z | z in subs
        ensures z.F() == Rotated(m, node, 1, z)
      {
        assert m[z] == old(z.F()) && m[node] == old(node.F()) && m[child] == old(child.F());
        assert m[node].parent != null ==> m[m[node].parent] == old(node.parent.F());
        InRotated(m, node, 1, z, z.F());
      }
      IsRotated(subs.Keys, m, node, 1);
    }

    /** cuAvlTreeNodeRotateRight */
    method RotateRight(node: Node) returns (child: Node)
      requires Shaped() && node in subs && node.left != null
      modifies this`root, this`subs, subs.Keys`left, subs.Keys`right, subs.Keys`parent, subs.Keys`height
      ensures child == old(node.left) && child in subs && subs.Keys == old(subs.Keys) && child in old(subs)
      ensures RotatedIn(old(M()), node, 1, M()) && subs == TurnedSubs(old(subs), old(M()), node, 1)
      ensures Shaped() && root == NewRoot(old(root), node, child)
    {
      hide Linked, Mem, RotatedIn, TurnedSubs, Rotated;
      ghost var s, m, r := subs, M(), root;
      child := node.left;
      BeforeTurn(node, 1);
      SpinRight(node, child);
      RotateLinked(s, m, r, node, 1, M());
      TurnedKeys(s, m, node, 1);
      subs := TurnedSubs(s, m, node, 1);
    }

    static lemma MemIs(ns: set<Node>)
      ensures Mem(ns).Keys == ns && forall z {:trigger z in ns} :: z in ns ==> Mem(ns)[z] == z.F()
    {
    }

    static lemma IsRotated(ns: set<Node>, m: Memory, x: Node, i: Side)
      requires CanRotate(m, x, i) && m.Keys == ns && forall z {:trigger z.F()} :: z in ns ==>
        z.F() == Rotated(m, x, i, z)
      ensures RotatedIn(m, x, i, Mem(ns))
    {
    }

    /** The fields of a node after a rotation, one by one. */
    static lemma InRotated(m: Memory, x: Node, i: Side, z: Node, r: Fields)
      requires CanRotate(m, x, i) && z in m
      requires var f, y := m[x], m[x].kids[1 - i]; var b := m[y].kids[i];
        && y != x && b != x && b != y && (f.parent != null ==> f.parent != x && f.parent != y && f.parent != b)
        && (f.parent != null && f.parent in m ==> m[f.parent].kids[0] == x || m[f.parent].kids[1] == x)
      requires r.key == m[z].key
      requires var f, y := m[x], m[x].kids[1 - i]; var b := m[y].kids[i];
        && r.kids[i] == (if z == y then x else if z == f.parent && m[z].kids[0] == x && i == 0 then y
          else if z == f.parent && m[z].kids[0] != x && i == 1 then y else m[z].kids[i])
        && r.kids[1 - i] == (if z == x then b else if z == f.parent && m[z].kids[0] == x && i == 1 then y
          else if z == f.parent && m[z].kids[0] != x && i == 0 then y else m[z].kids[1 - i])
        && r.parent == (if z == y then f.parent else if z == x then y else if z == b then x else m[z].parent)
        && r.height == (if z == x then 1 + Max(Hgt(m, f.kids[i]), Hgt(m, b))
          else if z == y then 1 + Max(1 + Max(Hgt(m, f.kids[i]), Hgt(m, b)), Hgt(m, m[y].kids[1 - i])) else m[z].height)
      ensures r == Rotated(m, x, i, z)
    {
      assert r.kids == Rotated(m, x, i, z).kids;
    }

    /** The nodes of a rotation, in terms of the fields. */
    lemma BeforeTurn(node: Node, i: Side)
      requires Shaped() && node in subs && node.F().kids[1 - i] != null
      ensures var child := node.F().kids[1 - i];
        && child in subs && child != node && node in M() && child in M() && M()[node] == node.F()
          && M()[child] == child.F()
        && (child.F().kids[i] != null ==>
          child.F().kids[i] in subs && child.F().kids[i] != node && child.F().kids[i] != child
          && child.F().kids[i] != node.parent)
        && (child.F().kids[1 - i] != null ==>
          child.F().kids[1 - i] in subs && child.F().kids[1 - i] != node && child.F().kids[1 - i] != child)
        && (node.F().kids[i] != null ==>
          node.F().kids[i] in subs && node.F().kids[i] != node && node.F().kids[i] != child)
        && (node.parent != null ==> node.parent in subs && node.parent != node && node.parent != child)
        && (node.parent != null ==> node.parent.left == node || node.parent.right == node)
        && (node.parent == null <==> node == root)
        && CanRotate(M(), node, i)
    {
      var m := M();
      assert m[node] == node.F();
      var child := node.F().kids[1 - i];
      Around(subs, m, root, node);
      assert m[child] == child.F();
      Trio(subs, m, root, node, i);
      if node.parent != null {
        assert m[node.parent] == node.parent.F();
      }
    }

    // ---------- rebalancing ----------

    /** cuAvlTreeNodeGetBalance; its assertion is the precondition. */
    static method GetBalance(node: Node?) returns (balance: int)
      requires node != null ==> GetHeight(node.left) - GetHeight(node.right) <= 2
      ensures balance == if node == null then 0 else GetHeight(node.left) - GetHeight(node.right)
    {
      balance := 0;
      if node != null {
        balance := GetHeight(node.left) - GetHeight(node.right);
      }
    }

    /** Heights as the snapshot has them. */
    lemma HeightsAt(n: Node)
      requires Shaped() && n in subs
      ensures n in M() && M()[n] == n.F() && GetHeight(n.left) == Hgt(M(), n.left)
        && GetHeight(n.right) == Hgt(M(), n.right)
    {
      var m := M();
      MemIs(subs.Keys);
      Around(subs, m, root, n);
      assert m[n] == n.F();
      assert n.left != null ==> m[n.left] == n.left.F();
      assert n.right != null ==> m[n.right] == n.right.F();
    }

    /** A single rotation to the left, with its effect on the levels. */
    method SingleLeft(node: Node, isDelete: bool, ghost v: Levels) returns (top: Node, ghost v': Levels)
      requires Shaped() && Rising(v, subs, M(), node, isDelete) && node in subs && node in M() && M()[node] == node.F()
      requires Lv(v, node.right) >= Lv(v, node.left) + 2 && node.right != null && node.right in M()
      requires Lv(v, M()[node.right].kids[0]) <= Lv(v, M()[node.right].kids[1])
      modifies this`root, this`subs, subs.Keys`left, subs.Keys`right, subs.Keys`parent, subs.Keys`height
      ensures Shaped() && subs.Keys == old(subs.Keys) && top in subs && top.parent == old(node.parent)
      ensures Rising(v', subs, M(), top.parent, isDelete)
      ensures top.parent != null ==>
        top.parent in subs && top.parent in old(subs) && subs[top.parent] == old(subs)[top.parent]
      ensures top == old(node.right)
    {
      hide Linked, Mem, Rising, RotatedIn, TurnedSubs, Rotated, CanFix;
      ghost var s, m, r := subs, M(), root;
      top := RotateLeft(node);
      SingleMends(v, s, m, M(), r, node, 0, isDelete);
      RotatePair(s, m, r, node, 0, M());
      v' := v[node := M()[node].height][top := M()[top].height];
      MemIs(subs.Keys);
      if m[node].parent != null {
        var _ := RotateParent(s, m, r, node, 0, M());
        RotateRest(s, m, r, node, 0, M(), m[node].parent);
      }
    }

    /** The double rotation to the left. */
    method DoubleLeft(node: Node, isDelete: bool, ghost v: Levels) returns (top: Node, ghost v': Levels)
      requires Shaped() && Rising(v, subs, M(), node, isDelete) && node in subs && node in M() && M()[node] == node.F()
      requires Lv(v, node.right) >= Lv(v, node.left) + 2 && node.right != null && node.right in M()
        && M()[node.right] == node.right.F()
      requires Lv(v, M()[node.right].kids[0]) > Lv(v, M()[node.right].kids[1]) >= 0
      modifies this`root, this`subs, subs.Keys`left, subs.Keys`right, subs.Keys`parent, subs.Keys`height
      ensures Shaped() && subs.Keys == old(subs.Keys) && top in subs && top.parent == old(node.parent)
      ensures Rising(v', subs, M(), top.parent, isDelete)
      ensures top.parent != null ==>
        top.parent in subs && top.parent in old(subs) && subs[top.parent] == old(subs)[top.parent]
      ensures top == old(node.right.left)
    {
      hide Linked, Mem, Rising, RotatedIn, TurnedSubs, Rotated, CanFix, Doubled, CanRotate;
      ghost var s, m, r, y := subs, M(), root, node.right;
      Heavy(v, s, m, r, node, 0, isDelete);
      Inner(v, s, m, r, node, 0, isDelete);
      CanRotateIs(m, y, 1);
      var w := RotateRight(node.right);
      ghost var m1 := M();
      FirstTurned(s, m, r, node, 0, m1, y, w);
      MemIs(subs.Keys);
      top := RotateLeft(node);
      IsRotatable(m, y, 1, m1);
      IsRotatable(m1, node, 0, M());
      DoubleAll(v, s, m, r, node, 0, m1, M(), isDelete, y, w, subs);
      v' := Doubling(v, M(), node, y, w);
      MemIs(subs.Keys);
    }

    /** The branch of cuAvlTreeNodeRebalance for a right subtree that is too tall. */
    method MendRight(node: Node, isDelete: bool, ghost v: Levels) returns (top: Node, ghost v': Levels)
      requires Shaped() && Rising(v, subs, M(), node, isDelete) && node in subs && node in M() && M()[node] == node.F()
      requires Lv(v, node.right) >= Lv(v, node.left) + 2
      modifies this`root, this`subs, subs.Keys`left, subs.Keys`right, subs.Keys`parent, subs.Keys`height
      ensures Shaped() && subs.Keys == old(subs.Keys) && top in subs && top.parent == old(node.parent)
      ensures Rising(v', subs, M(), top.parent, isDelete)
      ensures top.parent != null ==>
        top.parent in subs && top.parent in old(subs) && subs[top.parent] == old(subs)[top.parent]
      ensures old(node.right) != null
        && top == old(if GetHeight(node.right.left) > GetHeight(node.right.right) then node.right.left else node.right)
    {
      hide Linked, Mem, Rising, RotatedIn, TurnedSubs, Rotated, CanFix;
      ghost var s, m, r := subs, M(), root;
      Heavy(v, s, m, r, node, 0, isDelete);
      HeightsAt(node.right);
      var rightBalance := GetBalance(node.right);
      if -1 == rightBalance {
        top, v' := SingleLeft(node, isDelete, v);
      } else if 0 == rightBalance && isDelete {
        top, v' := SingleLeft(node, isDelete, v);
      } else if 1 == rightBalance {
        top, v' := DoubleLeft(node, isDelete, v);
      } else {
        assert false;
      }
    }

    /** A single rotation to the right, with its effect on the levels. */
    method SingleRight(node: Node, isDelete: bool, ghost v: Levels) returns (top: Node, ghost v': Levels)
      requires Shaped() && Rising(v, subs, M(), node, isDelete) && node in subs && node in M() && M()[node] == node.F()
      requires Lv(v, node.left) >= Lv(v, node.right) + 2 && node.left != null && node.left in M()
      requires Lv(v, M()[node.left].kids[1]) <= Lv(v, M()[node.left].kids[0])
      modifies this`root, this`subs, subs.Keys`left, subs.Keys`right, subs.Keys`parent, subs.Keys`height
      ensures Shaped() && subs.Keys == old(subs.Keys) && top in subs && top.parent == old(node.parent)
      ensures Rising(v', subs, M(), top.parent, isDelete)
      ensures top.parent != null ==>
        top.parent in subs && top.parent in old(subs) && subs[top.parent] == old(subs)[top.parent]
      ensures top == old(node.left)
    {
      hide Linked, Mem, Rising, RotatedIn, TurnedSubs, Rotated, CanFix;
      ghost var s, m, r := subs, M(), root;
      top := RotateRight(node);
      SingleMends(v, s, m, M(), r, node, 1, isDelete);
      RotatePair(s, m, r, node, 1, M());
      v' := v[node := M()[node].height][top := M()[top].height];
      MemIs(subs.Keys);
      if m[node].parent != null {
        var _ := RotateParent(s, m, r, node, 1, M());
        RotateRest(s, m, r, node, 1, M(), m[node].parent);
      }
    }

    /** The double rotation to the right. */
    method DoubleRight(node: Node, isDelete: bool, ghost v: Levels) returns (top: Node, ghost v': Levels)
      requires Shaped() && Rising(v, subs, M(), node, isDelete) && node in subs && node in M() && M()[node] == node.F()
      requires Lv(v, node.left) >= Lv(v, node.right) + 2 && node.left != null && node.left in M()
        && M()[node.left] == node.left.F()
      requires Lv(v, M()[node.left].kids[1]) > Lv(v, M()[node.left].kids[0]) >= 0
      modifies this`root, this`subs, subs.Keys`left, subs.Keys`right, subs.Keys`parent, subs.Keys`height
      ensures Shaped() && subs.Keys == old(subs.Keys) && top in subs && top.parent == old(node.parent)
      ensures Rising(v', subs, M(), top.parent, isDelete)
      ensures top.parent != null ==>
        top.parent in subs && top.parent in old(subs) && subs[top.parent] == old(subs)[top.parent]
      ensures top == old(node.left.right)
    {
      hide Linked, Mem, Rising, RotatedIn, TurnedSubs, Rotated, CanFix, Doubled, CanRotate;
      ghost var s, m, r, y := subs, M(), root, node.left;
      Heavy(v, s, m, r, node, 1, isDelete);
      Inner(v, s, m, r, node, 1, isDelete);
      CanRotateIs(m, y, 0);
      var w := RotateLeft(node.left);
      ghost var m1 := M();
      FirstTurned(s, m, r, node, 1, m1, y, w);
      MemIs(subs.Keys);
      top := RotateRight(node);
      IsRotatable(m, y, 0, m1);
      IsRotatable(m1, node, 1, M());
      DoubleAll(v, s, m, r, node, 1, m1, M(), isDelete, y, w, subs);
      v' := Doubling(v, M(), node, y, w);
      MemIs(subs.Keys);
    }

    /** The branch of cuAvlTreeNodeRebalance for a left subtree that is too tall. */
    method MendLeft(node: Node, isDelete: bool, ghost v: Levels) returns (top: Node, ghost v': Levels)
      requires Shaped() && Rising(v, subs, M(), node, isDelete) && node in subs && node in M() && M()[node] == node.F()
      requires Lv(v, node.left) >= Lv(v, node.right) + 2
      modifies this`root, this`subs, subs.Keys`left, subs.Keys`right, subs.Keys`parent, subs.Keys`height
      ensures Shaped() && subs.Keys == old(subs.Keys) && top in subs && top.parent == old(node.parent)
      ensures Rising(v', subs, M(), top.parent, isDelete)
      ensures top.parent != null ==>
        top.parent in subs && top.parent in old(subs) && subs[top.parent] == old(subs)[top.parent]
      ensures old(node.left) != null
        && top == old(if GetHeight(node.left.right) > GetHeight(node.left.left) then node.left.right else node.left)
    {
      hide Linked, Mem, Rising, RotatedIn, TurnedSubs, Rotated, CanFix;
      ghost var s, m, r := subs, M(), root;
      Heavy(v, s, m, r, node, 1, isDelete);
      HeightsAt(node.left);
      var leftBalance := GetBalance(node.left);
      if 1 == leftBalance {
        top, v' := SingleRight(node, isDelete, v);
      } else if 0 == leftBalance && isDelete {
        top, v' := SingleRight(node, isDelete, v);
      } else if -1 == leftBalance {
        top, v' := DoubleRight(node, isDelete, v);
      } else {
        assert false;
      }
    }

    static lemma CanRotateIs(m: Memory, x: Node, i: Side)
      requires CanRotate(m, x, i)
      ensures x in m && m[x].kids[1 - i] != null && m[x].kids[1 - i] in m
    {
    }

    /** Everything about a double rotation at once. */
    static lemma DoubleAll(v: Levels, s: Subs, m: Memory, root: Node?, x: Node, i: Side, m1: Memory, m2: Memory,
        isDelete: bool, y: Node, w: Node, s2: Subs)
      requires IsTwice(s, m, m1, x, i, y, s2)
      requires Linked(s, m, root) && Rising(v, s, m, x, isDelete) && x in s && CanRotate(m, x, i)
        && y == m[x].kids[1 - i] && y in s && y in m
      requires w == m[y].kids[i] && RotatedIn(m, y, 1 - i, m1) && RotatedIn(m1, x, i, m2)
      requires Lv(v, m[x].kids[1 - i]) >= Lv(v, m[x].kids[i]) + 2 && Lv(v, m[y].kids[i]) > Lv(v, m[y].kids[1 - i])
      ensures x in m2 && y in m2 && w in m2 && m2[w].parent == m[x].parent
      ensures Rising(Doubling(v, m2, x, y, w), s2, m2, m[x].parent, isDelete)
      ensures m[x].parent != null ==> m[x].parent in s && m[x].parent in s2 && s2[m[x].parent] == s[m[x].parent]
    {
      hide Linked, Rising, RotatedIn, TurnedSubs, Rotated, CanFix, Doubled, CanRotate;
      DoDouble(s, m, root, x, i, m1, m2);
      FirstTurn(s, m, root, x, i, m1, m2);
      DoubleShape(s, m, root, x, i, m1, m2);
      IsDoubled(s, m, root, x, i, m1, m2);
      DoubleMends(v, s, m, root, x, i, m1, m2, isDelete, y, w, s2);
      if m[x].parent != null {
        DoubleParentApart(s, m, root, x, i, y, w);
        DoubleRest(s, m, root, x, i, m1, m2, m[x].parent);
      }
    }

    static lemma DoDouble(s: Subs, m: Memory, root: Node?, x: Node, i: Side, m1: Memory, m2: Memory)
      requires Linked(s, m, root) && x in s && CanRotate(m, x, i) && m[x].kids[1 - i] in s
      requires RotatedIn(m, m[x].kids[1 - i], 1 - i, m1) && RotatedIn(m1, x, i, m2)
      ensures Doubled(s, m, root, x, i, m1, m2)
    {
    }

    static lemma DoubleParentApart(s: Subs, m: Memory, root: Node?, x: Node, i: Side, y: Node, w: Node)
      requires Linked(s, m, root) && x in s && CanRotate(m, x, i) && y == m[x].kids[1 - i] && w == m[y].kids[i]
        && m[x].parent != null
      ensures m[x].parent in s && m[x].parent != x && m[x].parent != y && m[x].parent != w
    {
      hide Linked;
      Trio(s, m, root, x, i);
      Around(s, m, root, x);
    }

    /** Between the two rotations. */
    static lemma FirstTurned(s: Subs, m: Memory, root: Node?, x: Node, i: Side, m1: Memory, y: Node, w: Node)
      requires Linked(s, m, root) && x in s && CanRotate(m, x, i) && y == m[x].kids[1 - i] && y in s
        && RotatedIn(m, y, 1 - i, m1) && w == m[y].kids[i]
      ensures x in m1 && m1[x].kids[1 - i] == w && NewRoot(root, y, w) == root
    {
      hide Linked, RotatedIn;
      Around(s, m, root, x);
      IsRotatable(m, y, 1 - i, m1);
      var j := RotateParent(s, m, root, y, 1 - i, m1);
      Around(s, m, root, y);
      RotateRest(s, m, root, y, 1 - i, m1, x);
    }

    static lemma InRising(v: Levels, s: Subs, m: Memory, node: Node, isDelete: bool)
      requires Rising(v, s, m, node, isDelete)
      ensures node in s && node in m && node in v
    {
    }

    /** The end of the loop body where nothing was rotated: the height is made right. */
    method Plain(node: Node, isDelete: bool, ghost v: Levels) returns (ghost v': Levels)
      requires Shaped() && Rising(v, subs, M(), node, isDelete) && node in subs && node in M() && M()[node] == node.F()
      requires -1 <= Lv(v, node.left) - Lv(v, node.right) <= 1
      modifies node`height
      ensures Shaped() && Rising(v', subs, M(), node.parent, isDelete)
    {
      hide Linked, Mem, Rising;
      ghost var m := M();
      MemIs(subs.Keys);
      HeightsAt(node);
      KidHeights(v, subs, m, root, node, isDelete, 0);
      KidHeights(v, subs, m, root, node, isDelete, 1);
      RecalculateHeight(node);
      ghost var m' := m[node := m[node].(height := 1 + Max(Lv(v, m[node].kids[0]), Lv(v, m[node].kids[1])))];
      MemIs(subs.Keys);
      forall n | n in subs
        ensures n in m' && m'[n] == n.F()
      {
        assert m[n] == old(n.F());
      }
      assert m' == M();
      StepPlain(v, subs, m, m', root, node, isDelete);
      v' := v[node := m'[node].height];
    }

    /** The end of the loop body after a rotation: the height is right already. */
    method Touch(top: Node, isDelete: bool, ghost v: Levels)
      requires Shaped() && Rising(v, subs, M(), top.parent, isDelete) && top in subs
      modifies top`height
      ensures Shaped() && Rising(v, subs, M(), top.parent, isDelete)
    {
      hide Linked, Mem, Rising;
      ghost var m := M();
      MemIs(subs.Keys);
      HeightsAt(top);
      TopHeight(v, subs, m, root, top, isDelete);
      RecalculateHeight(top);
      MemIs(subs.Keys);
      forall n | n in subs
        ensures n in m && m[n] == n.F()
      {
        assert m[n] == old(n.F());
      }
      assert m == M();
    }

    static lemma TopHeight(v: Levels, s: Subs, m: Memory, root: Node?, x: Node, isDelete: bool)
      requires Linked(s, m, root) && x in s && x in m && Rising(v, s, m, m[x].parent, isDelete)
      ensures m[x].height == 1 + Max(Hgt(m, m[x].kids[0]), Hgt(m, m[x].kids[1]))
    {
      hide Linked;
      Around(s, m, root, x);
      var p := m[x].parent;
      if p != null {
        Around(s, m, root, p);
        assert p !in SubOf(s, x);
      }
      assert LevelOk(v, m, x);
      var l, r := m[x].kids[0], m[x].kids[1];
      assert l != null && p != null ==> p !in s[l];
      assert r != null && p != null ==> p !in s[r];
      assert m[x].height == v[x];
      assert l != null ==> m[l].height == v[l];
      assert r != null ==> m[r].height == v[r];
    }

    /** One round of cuAvlTreeNodeRebalance. */
    method Mend(node: Node, isDelete: bool, ghost v: Levels) returns (top: Node, ghost v': Levels)
      requires Shaped() && Rising(v, subs, M(), node, isDelete)
      modifies this`root, this`subs, subs.Keys`left, subs.Keys`right, subs.Keys`parent, subs.Keys`height
      ensures Shaped() && subs.Keys == old(subs.Keys) && top in subs && top.parent == old(node.parent)
      ensures Rising(v', subs, M(), top.parent, isDelete)
      ensures top.parent != null ==>
        top.parent in subs && top.parent in old(subs) && subs[top.parent] == old(subs)[top.parent]
      ensures old(node.right != null && GetHeight(node.right) == GetHeight(node.left) + 2) ==>
        top == old(if GetHeight(node.right.left) > GetHeight(node.right.right) then node.right.left else node.right)
      ensures old(node.left != null && GetHeight(node.left) == GetHeight(node.right) + 2) ==>
        top == old(if GetHeight(node.left.right) > GetHeight(node.left.left) then node.left.right else node.left)
      ensures old(-1 <= GetHeight(node.left) - GetHeight(node.right) <= 1) ==>
        top == node && root == old(root) && forall n {:trigger n in subs} :: n in subs ==>
          n.left == old(n.left) && n.right == old(n.right) && n.parent == old(n.parent)
    {
      hide Linked, Mem, Rising, CanFix;
      ghost var m := M();
      InRising(v, subs, m, node, isDelete);
      HeightsAt(node);
      KidHeights(v, subs, m, root, node, isDelete, 0);
      KidHeights(v, subs, m, root, node, isDelete, 1);
      WithinTwo(v, subs, m, node, isDelete);
      Parented(subs, m, root, node);
      var balance := GetBalance(node);
      top := node;
      if -2 == balance {
        top, v' := MendRight(node, isDelete, v);
        Touch(top, isDelete, v');
      } else if 2 == balance {
        top, v' := MendLeft(node, isDelete, v);
        Touch(top, isDelete, v');
      } else {
        v' := Plain(node, isDelete, v);
      }
    }

    static lemma WithinTwo(v: Levels, s: Subs, m: Memory, node: Node, isDelete: bool)
      requires Rising(v, s, m, node, isDelete)
      ensures node in m && -2 <= Lv(v, m[node].kids[0]) - Lv(v, m[node].kids[1]) <= 2
    {
    }

    static lemma Parented(s: Subs, m: Memory, root: Node?, n: Node)
      requires Linked(s, m, root) && n in s
      ensures n in m && n in s[n]
      ensures m[n].parent != null ==>
        m[n].parent in s && m[n].parent !in s[n] && s[n] <= s[m[n].parent] && m[n].parent in s[m[n].parent]
    {
      hide Linked;
      Around(s, m, root, n);
      if m[n].parent != null {
        Around(s, m, root, m[n].parent);
        assert m[n].parent !in SubOf(s, n);
        assert n in SubOf(s, n);
        assert SubOf(s, n) == s[n];
      }
    }

    /** cuAvlTreeNodeRebalance */
    method Rebalance(start: Node?, isDelete: bool, ghost v0: Levels)
      requires Shaped() && Rising(v0, subs, M(), start, isDelete)
      modifies this`root, this`subs, subs.Keys`left, subs.Keys`right, subs.Keys`parent, subs.Keys`height
      ensures Shaped() && subs.Keys == old(subs.Keys) && exists v :: Rising(v, subs, M(), null, isDelete)
    {
      hide Linked, Mem, Rising, CanFix;
      var node := start;
      ghost var v := v0;
      ghost var ns := subs.Keys;
      if node != null {
        InRising(v, subs, M(), node, isDelete);
      }
      while node != null
        invariant Shaped() && Rising(v, subs, M(), node, isDelete) && subs.Keys == ns && (node != null ==> node in subs)
        decreases node != null, if node != null && node in subs then ns - subs[node] else {}
        modifies this`root, this`subs, ns`left, ns`right, ns`parent, ns`height
      {
        InRising(v, subs, M(), node, isDelete);
        HeightsAt(node);
        Parented(subs, M(), root, node);
        ghost var before := subs;
        ghost var x, p := node, node.parent;
        var top;
        top, v := Mend(node, isDelete, v);
        node := top.parent;
        assert p != null ==> subs[p] == before[p] && p in ns && p in before[p];
      }
    }

    // ---------- the tree ----------

    ghost predicate Valid()
      reads this, subs.Keys
    {
      Shaped() && Rising(HeightsOf(M()), subs, M(), null, true)
    }

    static ghost function HeightsOf(m: Memory): Levels {
      map n | n in m :: m[n].height
    }

    /** With nothing on its way up, heights are levels. */
    static lemma Leveled(v: Levels, s: Subs, m: Memory, root: Node?, isDelete: bool)
      requires Linked(s, m, root) && Rising(v, s, m, null, isDelete)
      ensures Rising(HeightsOf(m), s, m, null, true)
    {
      hide Linked;
      forall n | n in s
        ensures n in m && LevelOk(HeightsOf(m), m, n)
      {
        Around(s, m, root, n);
        assert LevelOk(v, m, n);
        assert m[n].height == v[n];
        var l, r := m[n].kids[0], m[n].kids[1];
        assert l != null ==> m[l].height == v[l];
        assert r != null ==> m[r].height == v[r];
      }
    }

    /** cuAvlTreeInitialize */
    constructor ()
      ensures Valid() && subs == map[]
    {
      root, subs := null, map[];
    }

    /** The comparison of keys: a total order. */
    static function Compare(a: int, b: int): int {
      if a < b then -1 else if a == b then 0 else 1
    }

    ghost function HeightOf(n: Node?): int
      reads n
    {
      if n == null then 0 else n.height
    }

    /** Stored heights are exact, the two subtrees of a node differ by at most one, and heights go down
        from a node to its children. */
    lemma Lower(n: Node)
      requires Valid() && n in subs
      ensures n.height == 1 + Max(HeightOf(n.left), HeightOf(n.right))
        && -1 <= HeightOf(n.left) - HeightOf(n.right) <= 1
      ensures 0 <= HeightOf(n.left) < n.height && 0 <= HeightOf(n.right) < n.height
    {
      hide Linked, Mem;
      MemIs(subs.Keys);
      Near(n);
      assert LevelOk(HeightsOf(M()), M(), n);
    }

    /** A path no longer than the root's height is short for the number of nodes. */
    lemma ShortPath(steps: nat)
      requires Valid() && steps <= HeightOf(root)
      ensures Fib(steps + 2) <= |subs| + 1
    {
      hide Linked, Rising, Mem;
      FibOne();
      if root != null {
        MemIs(subs.Keys);
        RootSub(subs, M(), root);
        Sides(root);
        assert subs[root] == subs.Keys;
        FibBound(HeightsOf(M()), subs, M(), root, root, true);
        FibGrows(steps + 2, root.height + 2);
      }
    }

    /** The child on the side of a key. */
    static ghost function Toward(n: Node, key: int): Node?
      reads n
    {
      if key < n.key then n.left else n.right
    }

    static lemma IsToward(n: Node, key: int)
      ensures Toward(n, key) == if key < n.key then n.left else n.right
    {
    }

    /** The way from the root towards a key, from child to child, until the key is met or no child is left. */
    ghost predicate SearchPath(path: seq<Node>, key: int)
      reads this`root, path
    {
      && (path == [] <==> root == null) && (path != [] ==> path[0] == root)
      && (forall i :: 0 <= i < |path| - 1 ==> path[i].key != key && path[i + 1] == Toward(path[i], key))
      && (path != [] ==> path[|path| - 1].key == key || Toward(path[|path| - 1], key) == null)
    }

    /** The first part of such a way, and the node it goes on to. */
    ghost predicate Heading(path: seq<Node>, key: int, node: Node?)
      reads this`root, path
    {
      && (path == [] ==> node == root)
      && (path != [] ==> path[0] == root && path[|path| - 1].key != key && node == Toward(path[|path| - 1], key))
      && (forall i :: 0 <= i < |path| - 1 ==> path[i].key != key && path[i + 1] == Toward(path[i], key))
    }

    lemma HeadingStart(key: int)
      ensures Heading([], key, root)
    {
    }

    lemma HeadingOn(path: seq<Node>, key: int, node: Node)
      requires Heading(path, key, node)
      ensures if node.key == key then SearchPath(path + [node], key)
        else Heading(path + [node], key, Toward(node, key))
    {
    }

    lemma HeadingEnd(path: seq<Node>, key: int)
      requires Heading(path, key, null)
      ensures SearchPath(path, key)
    {
    }

    /** cuAvlTreeNodeFind */
    method Find(key: int) returns (r: Node?, ghost path: seq<Node>)
      requires Valid()
      ensures r != null ==> r in subs && r.key == key
      ensures r == null ==> forall n :: n in subs ==> n.key != key
      ensures SearchPath(path, key) && Fib(|path| + 2) <= |subs| + 1
    {
      hide Linked, Mem, Rising, SearchPath, Heading, Toward;
      var node := root;
      MemIs(subs.Keys);
      if root != null {
        LeadsRoot(subs, M(), root, key);
      }
      NoRoot(subs, M(), root);
      path := [];
      HeadingStart(key);
      if root != null {
        Lower(root);
      }
      while node != null
        invariant Heading(path, key, node) && |path| + HeightOf(node) <= HeightOf(root)
        invariant node != null ==> node in subs && LeadsTo(subs, M(), node, key)
        invariant node == null ==> forall n :: n in subs ==> n.key != key
        decreases node != null, if node != null && node in subs then subs[node] else {}
      {
        Lower(node);
        HeadingOn(path, key, node);
        path := path + [node];
        var compare := Compare(key, node.key);
        if 0 == compare {
          ShortPath(|path|);
          return node, path;
        }
        LeadsDown(subs, M(), root, node, key, if compare < 0 then 0 else 1);
        IsToward(node, key);
        node := if 0 > compare then node.left else node.right;
      }
      HeadingEnd(path, key);
      ShortPath(|path|);
      return null, path;
    }

    static lemma NoRoot(s: Subs, m: Memory, root: Node?)
      requires Linked(s, m, root)
      ensures root == null ==> forall n {:trigger n in s} :: n !in s
    {
    }

    // ---------- insertion ----------

    /** Where a new key belongs, or the node that has it already. */
    method Descend(key: int) returns (existing: Node?, parent: Node?, childLink: Link)
      requires Valid()
      ensures existing != null ==> existing in subs && existing.key == key
      ensures existing == null ==> forall n :: n in subs ==> n.key != key
      ensures existing == null && parent == null ==> root == null && childLink == RootLink
      ensures existing == null && parent != null ==>
        parent in subs && BelongsBelow(subs, M(), parent, key) && childLink != RootLink
      ensures existing == null && parent != null ==>
        childLink.owner == parent && if childLink.LeftOf? then parent.left == null && key < parent.key
        else parent.right == null && parent.key < key
    {
      hide Linked, Mem, Rising;
      parent, childLink := root, RootLink;
      MemIs(subs.Keys);
      if root != null {
        LeadsRoot(subs, M(), root, key);
      }
      NoRoot(subs, M(), root);
      while parent != null
        invariant parent == null ==> root == null && childLink == RootLink
        invariant parent != null ==> parent in subs && LeadsTo(subs, M(), parent, key)
        decreases if parent != null && parent in subs then subs[parent] else {}
      {
        var compare := Compare(key, parent.key);
        if 0 == compare {
          return parent, parent, childLink;
        }
        LeadsDown(subs, M(), root, parent, key, if compare < 0 then 0 else 1);
        childLink := if 0 > compare then LeftOf(parent) else RightOf(parent);
        var next := if 0 > compare then parent.left else parent.right;
        if next == null {
          break;
        }
        parent := next;
      }
      existing := null;
    }

    /** The two pointers between the new node and its parent. */
    method Hang(node: Node, parent: Node, childLink: Link, ghost i: Side, ghost ns: set<Node>)
      requires parent in ns && node !in ns && childLink != RootLink && childLink.owner == parent
        && i == if childLink.LeftOf? then 0 else 1
      modifies this`root, node`parent, ns`left, ns`right
      ensures root == old(root)
      ensures node.F() == old(node.F()).(parent := parent)
      ensures parent.F() == old(parent.F()).(kids := old(parent.F()).kids[i := node])
      ensures forall n {:trigger n in ns} :: n in ns && n != parent ==> n.F() == old(n.F())
    {
      Store(childLink, node, ns);
      node.parent := parent;
    }

    /** The new node is linked below its parent. */
    method Attach(node: Node, parent: Node, childLink: Link) returns (ghost v: Levels)
      requires Valid() && node !in subs && parent in subs && BelongsBelow(subs, M(), parent, node.key)
      requires node.left == null && node.right == null && node.height == 1
      requires childLink != RootLink && childLink.owner == parent
      requires if childLink.LeftOf? then parent.left == null && node.key < parent.key
        else parent.right == null && parent.key < node.key
      modifies this`root, this`subs, node`parent, subs.Keys`left, subs.Keys`right
      ensures Shaped() && Rising(v, subs, M(), parent, false) && subs.Keys == old(subs.Keys) + {node}
    {
      hide Linked, Mem, Rising, BelongsBelow, GrownMem, GrownSubs, Fixable, CanFix;
      ghost var m, s := M(), subs;
      MemIs(s.Keys);
      ghost var i: Side := if childLink.LeftOf? then 0 else 1;
      RisingNull(HeightsOf(m), s, m);
      GrownKeys(s, m, parent, i, node, node.key);
      GrowLinked(s, m, root, parent, i, node, node.key);
      GrowRising(HeightsOf(m), s, m, root, parent, i, node, node.key);
      Hang(node, parent, childLink, i, s.Keys);
      subs := GrownSubs(s, parent, node);
      IsGrown(m, parent, i, node, subs.Keys);
      v := HeightsOf(m)[node := 1];
    }

    /** These fields are those of the memory with the new node. */
    static lemma IsGrown(m: Memory, p: Node, i: Side, n: Node, ns: set<Node>)
      requires p in m && n !in m && ns == m.Keys + {n} && p != n
      requires n.F().kids[0] == null && n.F().kids[1] == null && n.F().parent == p && n.F().height == 1
      requires p.F() == m[p].(kids := m[p].kids[i := n])
      requires forall z {:trigger z in m} :: z in m && z != p ==> z.F() == m[z]
      ensures Mem(ns) == GrownMem(m, p, i, n, n.key)
    {
      hide Mem, GrownMem;
      MemIs(ns);
      GrownKeys(map[], m, p, i, n, n.key);
      forall z | z in ns
        ensures z.F() == GrownMem(m, p, i, n, n.key)[z]
      {
        GrownAt(m, p, i, n, n.key, z, z.F());
      }
    }

    static lemma GrownKeys(s: Subs, m: Memory, p: Node, i: Side, n: Node, key: int)
      requires p in m
      ensures GrownSubs(s, p, n).Keys == s.Keys + {n} && GrownMem(m, p, i, n, key).Keys == m.Keys + {n}
    {
    }

    static lemma GrownAt(m: Memory, p: Node, i: Side, n: Node, key: int, z: Node, f: Fields)
      requires p in m && n !in m && (z in m || z == n) && p != n
      requires z == n ==> f.kids[0] == null && f.kids[1] == null && f.parent == p && f.height == 1 && f.key == key
      requires z == p ==> f == m[p].(kids := m[p].kids[i := n])
      requires z != p && z != n ==> f == m[z]
      ensures f == GrownMem(m, p, i, n, key)[z]
    {
      if z == n {
        assert f.kids == NoKids();
      }
    }

    static lemma RisingNull(v: Levels, s: Subs, m: Memory)
      requires Rising(v, s, m, null, true)
      ensures Rising(v, s, m, null, false)
    {
    }

    /** A tree of one node. */
    lemma Alone(node: Node)
      requires root == node && subs == map[node := {node}] && node.left == null && node.right == null
        && node.parent == null && node.height == 1
      ensures Valid()
    {
      var m := M();
      MemIs(subs.Keys);
      assert m[node] == node.F();
    }

    /** cuAvlTreeNodeInsertOrReturnExisting */
    method InsertOrReturnExisting(node: Node, key: int, value: int) returns (existing: Node?)
      requires Valid() && node !in subs
      modifies this`root, this`subs, node, subs.Keys`left, subs.Keys`right, subs.Keys`parent, subs.Keys`height
      ensures Valid()
      ensures existing != null ==>
        existing in old(subs) && old(existing.key) == key && subs == old(subs) && root == old(root)
      ensures existing != null ==> forall n :: n in subs ==> n.F() == old(n.F())
      ensures existing == null ==>
        (forall n :: n in old(subs) ==> old(n.key) != key) && subs.Keys == old(subs.Keys) + {node}
      ensures node.key == key && node.value == value
    {
      hide Linked, Mem, Rising;
      node.left, node.right, node.parent := null, null, null;
      node.key := key;
      node.value := value;
      node.height := 1;
      var parent, childLink;
      existing, parent, childLink := Descend(key);
      if existing != null {
        return;
      }
      ghost var m, s := M(), subs;
      if parent == null {
        NoRoot(subs, M(), root);
        assert subs.Keys == {};
        root := node;
        subs := map[node := {node}];
        Alone(node);
      } else {
        ghost var v := Attach(node, parent, childLink);
        Rebalance(parent, false, v);
        v :| Rising(v, subs, M(), null, false);
        Leveled(v, subs, M(), root, false);
      }
    }

    /** cuAvlTreeNodeInsert: whether the key was new. */
    method Insert(node: Node, key: int, value: int) returns (success: bool)
      requires Valid() && node !in subs
      modifies this`root, this`subs, node, subs.Keys`left, subs.Keys`right, subs.Keys`parent, subs.Keys`height
      ensures Valid()
      ensures success <==> forall n :: n in old(subs) ==> old(n.key) != key
      ensures subs.Keys == old(subs.Keys) + if success then {node} else {}
      ensures !success ==> root == old(root) && forall n :: n in subs ==> n.F() == old(n.F())
      ensures node.key == key && node.value == value
    {
      hide Linked, Mem, Rising, Valid;
      var existing := InsertOrReturnExisting(node, key, value);
      success := existing == null;
    }

    // ---------- neighbours in the order of keys ----------

    /** cuAvlTreeNodeFindGEQ */
    method FindGeq(key: int) returns (best: Node?, ghost path: seq<Node>)
      requires Valid()
      ensures best == null ==> forall n :: n in subs ==> n.key < key
      ensures best != null ==> best in subs && key <= best.key && forall n :: n in subs && key <= n.key ==>
        best.key <= n.key
      ensures SearchPath(path, key) && Fib(|path| + 2) <= |subs| + 1
    {
      hide Linked, Mem, Rising, SearchPath, Heading, Toward;
      var node := root;
      best := null;
      MemIs(subs.Keys);
      if root != null {
        RootSub(subs, M(), root);
      }
      NoRoot(subs, M(), root);
      path := [];
      HeadingStart(key);
      if root != null {
        Lower(root);
      }
      while node != null
        invariant Heading(path, key, node) && |path| + HeightOf(node) <= HeightOf(root)
        invariant node != null ==> node in subs
        invariant best != null ==>
          best in subs && key <= best.key
          && (node != null ==> forall n {:trigger n in subs[node]} :: n in subs[node] ==> n.key < best.key)
        invariant forall n {:trigger n in subs} :: n in subs && key <= n.key ==>
          (best != null && best.key <= n.key) || (node != null && n in subs[node])
        decreases node != null, if node != null && node in subs then subs[node] else {}
      {
        Sides(node);
        Lower(node);
        HeadingOn(path, key, node);
        path := path + [node];
        var compare := Compare(key, node.key);
        if 0 >= compare {
          best := node;
        }
        if 0 == compare {
          ShortPath(|path|);
          return node, path;
        }
        IsToward(node, key);
        node := if 0 > compare then node.left else node.right;
      }
      HeadingEnd(path, key);
      ShortPath(|path|);
    }

    /** The nodes below a node, by sides. */
    static lemma Parts(s: Subs, m: Memory, root: Node?, n: Node)
      requires Linked(s, m, root) && n in s
      ensures n in m && n in s[n]
      ensures forall i: Side {:trigger m[n].kids[i]} :: m[n].kids[i] != null ==>
        m[n].kids[i] in s && m[n].kids[i] in m && s[m[n].kids[i]] < s[n]
      ensures forall z {:trigger z in s[n]} :: z in s[n] ==>
        && z in m && z in s
        && (m[z].key < m[n].key ==> m[n].kids[0] != null && z in s[m[n].kids[0]])
        && (m[n].key < m[z].key ==> m[n].kids[1] != null && z in s[m[n].kids[1]])
        && (m[z].key == m[n].key ==> z == n)
    {
      hide Linked;
      Around(s, m, root, n);
      var l, r := m[n].kids[0], m[n].kids[1];
      assert l != null ==> SubOf(s, l) == s[l] && n !in s[l];
      assert r != null ==> SubOf(s, r) == s[r] && n !in s[r];
      forall z | z in s[n]
        ensures z in m && z in s
      {
        OnlyNodes(s, m, root, z);
      }
    }

    /** The same in terms of the fields. */
    lemma Sides(n: Node)
      requires Shaped() && n in subs
      ensures n in subs[n]
      ensures n.left != null ==>
        n.left in subs && n.left in subs[n.left] && n.left.parent == n && subs[n.left] < subs[n]
        && forall z {:trigger z in subs[n.left]} :: z in subs[n.left] ==> z in subs && z.key < n.key
      ensures n.right != null ==>
        n.right in subs && n.right in subs[n.right] && n.right.parent == n && subs[n.right] < subs[n]
        && forall z {:trigger z in subs[n.right]} :: z in subs[n.right] ==> z in subs && n.key < z.key
      ensures forall z {:trigger z in subs[n]} :: z in subs[n] ==>
        && z in subs
        && (z.key < n.key ==> n.left != null && z in subs[n.left])
        && (n.key < z.key ==> n.right != null && z in subs[n.right])
        && (z.key == n.key ==> z == n)
    {
      hide Linked, Mem;
      var m := M();
      MemIs(subs.Keys);
      Parts(subs, m, root, n);
      Around(subs, m, root, n);
      assert m[n].kids[0] == n.left && m[n].kids[1] == n.right;
      forall z | z in subs[n]
        ensures z in subs && m[z].key == z.key
      {
      }
      assert n.left != null ==> SubOf(subs, n.left) == subs[n.left];
      assert n.right != null ==> SubOf(subs, n.right) == subs[n.right];
    }

    /** cuAvlTreeNodeFindLEQ */
    method FindLeq(key: int) returns (best: Node?, ghost path: seq<Node>)
      requires Valid()
      ensures best == null ==> forall n :: n in subs ==> key < n.key
      ensures best != null ==> best in subs && best.key <= key && forall n :: n in subs && n.key <= key ==>
        n.key <= best.key
      ensures SearchPath(path, key) && Fib(|path| + 2) <= |subs| + 1
    {
      hide Linked, Mem, Rising, SearchPath, Heading, Toward;
      var node := root;
      best := null;
      MemIs(subs.Keys);
      if root != null {
        RootSub(subs, M(), root);
      }
      NoRoot(subs, M(), root);
      path := [];
      HeadingStart(key);
      if root != null {
        Lower(root);
      }
      while node != null
        invariant Heading(path, key, node) && |path| + HeightOf(node) <= HeightOf(root)
        invariant node != null ==> node in subs
        invariant best != null ==>
          best in subs && best.key <= key
          && (node != null ==> forall n {:trigger n in subs[node]} :: n in subs[node] ==> best.key < n.key)
        invariant forall n {:trigger n in subs} :: n in subs && n.key <= key ==>
          (best != null && n.key <= best.key) || (node != null && n in subs[node])
        decreases node != null, if node != null && node in subs then subs[node] else {}
      {
        Sides(node);
        Lower(node);
        HeadingOn(path, key, node);
        path := path + [node];
        var compare := Compare(key, node.key);
        if 0 <= compare {
          best := node;
        }
        if 0 == compare {
          ShortPath(|path|);
          return node, path;
        }
        IsToward(node, key);
        node := if 0 > compare then node.left else node.right;
      }
      HeadingEnd(path, key);
      ShortPath(|path|);
    }

    /** `r` is the next node after `node` in the order of keys, or null if `node` is the last. */
    ghost predicate IsNext(node: Node, r: Node?)
      reads this`subs, node, r, subs.Keys
    {
      if r == null then forall n :: n in subs ==> n.key <= node.key
      else r in subs && node.key < r.key && forall n :: n in subs && node.key < n.key ==> r.key <= n.key
    }

    /** `r` is the node before. */
    ghost predicate IsPrevious(node: Node, r: Node?)
      reads this`subs, node, r, subs.Keys
    {
      if r == null then forall n :: n in subs ==> node.key <= n.key
      else r in subs && r.key < node.key && forall n :: n in subs && n.key < node.key ==> n.key <= r.key
    }

    /** The left-most node below a node. */
    method LeftMost(from: Node) returns (r: Node)
      requires Shaped() && from in subs
      ensures r in subs && r in subs[from] && r.left == null
        && forall n {:trigger n in subs[from]} :: n in subs[from] ==> n in subs && r.key <= n.key
    {
      hide Linked, Mem;
      MemIs(subs.Keys);
      r := from;
      Sides(from);
      while r.left != null
        invariant r in subs && r in subs[from] && forall n {:trigger n in subs[from]} :: n in subs[from] ==>
          n in subs && (n in subs[r] || r.key < n.key)
        decreases subs[r]
      {
        Sides(r);
        Nested(subs, M(), root, from, r, r.left);
        r := r.left;
      }
      Sides(r);
    }

    /** The right-most node below a node. */
    method RightMost(from: Node) returns (r: Node)
      requires Shaped() && from in subs
      ensures r in subs && r in subs[from] && r.right == null
        && forall n {:trigger n in subs[from]} :: n in subs[from] ==> n in subs && n.key <= r.key
    {
      hide Linked, Mem;
      MemIs(subs.Keys);
      r := from;
      Sides(from);
      while r.right != null
        invariant r in subs && r in subs[from] && forall n {:trigger n in subs[from]} :: n in subs[from] ==>
          n in subs && (n in subs[r] || n.key < r.key)
        decreases subs[r]
      {
        Sides(r);
        Nested(subs, M(), root, from, r, r.right);
        r := r.right;
      }
      Sides(r);
    }

    /** What is not below a node is before or after all that is. */
    lemma Apart(x: Node)
      requires Shaped() && x in subs
      ensures forall n {:trigger n in subs} :: n in subs && n !in subs[x] ==>
        (forall z {:trigger z in subs[x]} :: z in subs[x] ==> z.key < n.key)
          || (forall z {:trigger z in subs[x]} :: z in subs[x] ==> n.key < z.key)
    {
      hide Linked, Mem;
      MemIs(subs.Keys);
      Sides(x);
      forall n | n in subs && n !in subs[x]
        ensures (forall z {:trigger z in subs[x]} :: z in subs[x] ==> z.key < n.key)
          || (forall z {:trigger z in subs[x]} :: z in subs[x] ==> n.key < z.key)
      {
        Convex(subs, M(), root, x, n);
        assert M()[n] == n.F();
        assert forall z :: z in subs[x] ==> z in subs && M()[z] == z.F();
      }
    }

    /** cuAvlTreeNodeInOrderSuccessor */
    method InOrderSuccessor(node: Node) returns (r: Node?)
      requires Valid() && node in subs
      ensures IsNext(node, r)
    {
      hide Linked, Mem, Rising;
      Sides(node);
      if node.right != null {
        var found := LeftMost(node.right);
        Apart(node);
        return found;
      } else if node.parent != null {
        var successor: Node? := node;
        while successor != null
          invariant successor != null ==> successor in subs && node in subs[successor]
          invariant successor != null ==> forall n {:trigger n in subs[successor]} :: n in subs[successor] ==>
            n in subs && n.key <= node.key
          invariant successor == null ==> forall n :: n in subs ==> n.key <= node.key
          decreases successor != null, if successor != null && successor in subs then subs.Keys - subs[successor]
            else {}
        {
          Near(successor);
          Parented(subs, M(), root, successor);
          MemIs(subs.Keys);
          if successor.parent != null {
            Sides(successor.parent);
            if successor.parent.left == successor {
              Apart(successor.parent);
              return successor.parent;
            }
          } else {
            RootSub(subs, M(), successor);
          }
          successor := successor.parent;
        }
        return null;
      }
      Near(node);
      RootSub(subs, M(), node);
      return null;
    }

    /** cuAvlTreeNodeInOrderPredecessor */
    method InOrderPredecessor(node: Node) returns (r: Node?)
      requires Valid() && node in subs
      ensures IsPrevious(node, r)
    {
      hide Linked, Mem, Rising;
      Sides(node);
      if node.left != null {
        var found := RightMost(node.left);
        Apart(node);
        return found;
      } else if node.parent != null {
        var predecessor: Node? := node;
        while predecessor != null
          invariant predecessor != null ==> predecessor in subs && node in subs[predecessor]
          invariant predecessor != null ==> forall n {:trigger n in subs[predecessor]} :: n in subs[predecessor] ==>
            n in subs && node.key <= n.key
          invariant predecessor == null ==> forall n :: n in subs ==> node.key <= n.key
          decreases predecessor != null, if predecessor != null && predecessor in subs
            then subs.Keys - subs[predecessor] else {}
        {
          Near(predecessor);
          Parented(subs, M(), root, predecessor);
          MemIs(subs.Keys);
          if predecessor.parent != null {
            Sides(predecessor.parent);
            if predecessor.parent.right == predecessor {
              Apart(predecessor.parent);
              return predecessor.parent;
            }
          } else {
            RootSub(subs, M(), predecessor);
          }
          predecessor := predecessor.parent;
        }
        return null;
      }
      Near(node);
      RootSub(subs, M(), node);
      return null;
    }

    // ---------- removal ----------

    /** The pointer changes that take a node with at most one child out of its place. */
    method Bypass(v: Node, link: Link, c: Node?, ghost m: Memory, ghost ns: set<Node>)
      requires Shaped() && v in subs && link == LinkOf(v) && CanSplice(M(), v, c) && ns == subs.Keys && m == Mem(ns)
      modifies this`root, ns`left, ns`right, ns`parent
      ensures m.Keys == ns && root == if m[v].parent == null then c else old(root)
      ensures forall z {:trigger z.left} :: z in ns ==>
        z.left == if z == m[v].parent && m[z].kids[0] == v then c else m[z].kids[0]
      ensures forall z {:trigger z.right} :: z in ns ==>
        z.right == if z == m[v].parent && m[z].kids[0] != v then c else m[z].kids[1]
      ensures forall z {:trigger z.parent} :: z in ns ==> z.parent == if z == c then m[v].parent else m[z].parent
      ensures forall z {:trigger m[z]} :: z in ns ==> m[z].key == z.key && m[z].height == z.height
    {
      hide Linked, Mem, CanSplice;
      MemIs(ns);
      Near(v);
      OneChild(subs, m, root, v, c);
      assert v.parent != null ==> m[v.parent] == v.parent.F();
      Store(link, c, ns);
      if c != null {
        c.parent := v.parent;
      }
    }

    /** The pointer to a node with at most one child leads to the child instead. */
    method TakeOut(v: Node, link: Link, c: Node?)
      requires Shaped() && v in subs && link == LinkOf(v) && CanSplice(M(), v, c)
      modifies this`root, this`subs, subs.Keys`left, subs.Keys`right, subs.Keys`parent
      ensures Shaped() && subs == SplicedSubs(old(subs), v) && v in old(M()) && M() == SplicedMem(old(M()), v, c)
      ensures root == NewRoot(old(root), v, c)
      ensures v.F() == old(v.F())
    {
      hide Linked, Mem, SplicedMem, SplicedSubs, CanSplice;
      ghost var m, s, r := M(), subs, root;
      MemIs(s.Keys);
      OneChild(s, m, r, v, c);
      Around(s, m, r, v);
      SpliceLinked(s, m, r, v, c);
      Bypass(v, link, c, m, s.Keys);
      subs := SplicedSubs(s, v);
      SplicedKeys(s, m, v, c);
      IsSpliced(m, v, c, subs.Keys);
    }

    /** These fields are those of the memory without the node. */
    static lemma IsSpliced(m: Memory, v: Node, c: Node?, ns: set<Node>)
      requires v in m && ns == m.Keys - {v}
      requires m[v].parent != null ==>
        && m[v].parent in m && m[v].parent != c && m[v].parent != v
        && (m[m[v].parent].kids[0] == v || m[m[v].parent].kids[1] == v)
      requires forall z {:trigger z.left} :: z in ns ==>
        z.left == if z == m[v].parent && m[z].kids[0] == v then c else m[z].kids[0]
      requires forall z {:trigger z.right} :: z in ns ==>
        z.right == if z == m[v].parent && m[z].kids[0] != v then c else m[z].kids[1]
      requires forall z {:trigger z.parent} :: z in ns ==> z.parent == if z == c then m[v].parent else m[z].parent
      requires forall z {:trigger m[z]} :: z in ns ==> m[z].key == z.key && m[z].height == z.height
      ensures Mem(ns) == SplicedMem(m, v, c)
    {
      hide Mem, SplicedMem;
      MemIs(ns);
      SplicedKeys(map[], m, v, c);
      forall z | z in ns
        ensures z.F() == SplicedMem(m, v, c)[z]
      {
        SplicedAt(m, v, c, z, z.F());
      }
    }

    static lemma SplicedKeys(s: Subs, m: Memory, v: Node, c: Node?)
      requires v in m
      ensures SplicedSubs(s, v).Keys == s.Keys - {v} && SplicedMem(m, v, c).Keys == m.Keys - {v}
    {
    }

    static lemma SplicedAt(m: Memory, v: Node, c: Node?, z: Node, f: Fields)
      requires v in m && z in m && z != v && f.key == m[z].key && f.height == m[z].height
      requires m[v].parent != null ==> m[v].parent != c && m[v].parent != v
      requires f.parent == if z == c then m[v].parent else m[z].parent
      requires f.kids[0] == if z == m[v].parent && m[z].kids[0] == v then c else m[z].kids[0]
      requires f.kids[1] == if z == m[v].parent && m[z].kids[0] != v then c else m[z].kids[1]
      requires z == m[v].parent ==> m[z].kids[0] == v || m[z].kids[1] == v
      ensures f == SplicedMem(m, v, c)[z]
    {
      assert f.kids == Spliced(m, v, c, z).kids;
    }

    /** The pointer changes that give a node the place and the children of another one. */
    method PutPointers(n: Node, r: Node, link: Link, ghost ns: set<Node>)
      requires n in ns && r !in ns && n.left != null && n.left in ns && n.right != n.left
      requires n.right != null ==> n.right in ns
      requires if n.parent == null then link == RootLink
        else link == if n.parent.left == n then LeftOf(n.parent) else RightOf(n.parent)
      requires n.parent != null ==> n.parent in ns && n.parent != n
      modifies this`root, ns`left, ns`right, ns`parent, r`left, r`right, r`parent
      ensures root == if old(n.parent) == null then r else old(root)
      ensures r.left == old(n.left) && r.right == old(n.right) && r.parent == old(n.parent)
      ensures forall z {:trigger z.left} :: z in ns ==>
        z.left == if z == old(n.parent) && old(z.left) == n then r else old(z.left)
      ensures forall z {:trigger z.right} :: z in ns ==>
        z.right == if z == old(n.parent) && old(z.left) != n then r else old(z.right)
      ensures forall z {:trigger z.parent} :: z in ns ==>
        z.parent == if z == old(n.left) || z == old(n.right) then r else old(z.parent)
    {
      Store(link, r, ns);
      r.parent := n.parent;
      r.left := n.left;
      r.left.parent := r;
      r.right := n.right;
      if r.right != null {
        r.right.parent := r;
      }
    }

    /** The same in terms of the memory before. */
    method PutFields(n: Node, r: Node, link: Link, ghost m: Memory, ghost ns: set<Node>)
      requires Shaped() && n in subs && r !in subs && ns == subs.Keys && m == Mem(ns) && link == LinkOf(n)
        && n.left != null
      modifies this`root, ns`left, ns`right, ns`parent, r`left, r`right, r`parent
      ensures m.Keys == ns && root == if m[n].parent == null then r else old(root)
      ensures r.left == m[n].kids[0] && r.right == m[n].kids[1] && r.parent == m[n].parent
      ensures forall z {:trigger z.left} :: z in ns ==>
        z.left == if z == m[n].parent && m[z].kids[0] == n then r else m[z].kids[0]
      ensures forall z {:trigger z.right} :: z in ns ==>
        z.right == if z == m[n].parent && m[z].kids[0] != n then r else m[z].kids[1]
      ensures forall z {:trigger z.parent} :: z in ns ==>
        z.parent == if z == m[n].kids[0] || z == m[n].kids[1] then r else m[z].parent
      ensures forall z {:trigger m[z]} :: z in ns ==> m[z].key == z.key && m[z].height == z.height
    {
      hide Linked, Mem;
      MemIs(ns);
      Near(n);
      PutPointers(n, r, link, ns);
    }

    /** A node gets the place and the children of another one. */
    method PutInPlace(n: Node, r: Node, link: Link)
      requires Shaped() && n in subs && r !in subs && link == LinkOf(n) && n in M() && Takes(subs, M(), n, r.key)
        && n.left != null
      modifies this`root, this`subs, subs.Keys`left, subs.Keys`right, subs.Keys`parent, r`left, r`right, r`parent
      ensures Shaped() && subs == PutSubs(old(subs), n, r) && n in old(M())
        && M() == PutMem(old(M()), n, r, r.key, r.height)
      ensures root == NewRoot(old(root), n, r)
    {
      hide Linked, Mem, PutMem, PutSubs, Takes;
      ghost var m, s, rt := M(), subs, root;
      MemIs(s.Keys);
      Around(s, m, rt, n);
      OnlyNodes(s, m, rt, r);
      PutLinked(s, m, rt, n, r, r.key, r.height);
      PutFields(n, r, link, m, s.Keys);
      subs := PutSubs(s, n, r);
      PutKeys(s, m, n, r, r.key, r.height);
      IsPut(m, n, r, subs.Keys);
    }

    /** These fields are those of the memory with the one node in the place of the other. */
    static lemma IsPut(m: Memory, n: Node, r: Node, ns: set<Node>)
      requires n in m && r !in m && ns == m.Keys - {n} + {r}
      requires m[n].parent != null ==>
        && m[n].parent in m && m[n].parent != m[n].kids[0] && m[n].parent != m[n].kids[1] && m[n].parent != n
        && (m[m[n].parent].kids[0] == n || m[m[n].parent].kids[1] == n)
      requires r.left == m[n].kids[0] && r.right == m[n].kids[1] && r.parent == m[n].parent
      requires forall z {:trigger z.left} :: z in m && z != n ==>
        z.left == if z == m[n].parent && m[z].kids[0] == n then r else m[z].kids[0]
      requires forall z {:trigger z.right} :: z in m && z != n ==>
        z.right == if z == m[n].parent && m[z].kids[0] != n then r else m[z].kids[1]
      requires forall z {:trigger z.parent} :: z in m && z != n ==>
        z.parent == if z == m[n].kids[0] || z == m[n].kids[1] then r else m[z].parent
      requires forall z {:trigger m[z]} :: z in m && z != n ==> m[z].key == z.key && m[z].height == z.height
      ensures Mem(ns) == PutMem(m, n, r, r.key, r.height)
    {
      hide Mem, PutMem;
      MemIs(ns);
      PutKeys(map[n := {}], m, n, r, r.key, r.height);
      forall z | z in ns
        ensures z.F() == PutMem(m, n, r, r.key, r.height)[z]
      {
        PutAt(m, n, r, r.key, r.height, z, z.F());
      }
    }

    static lemma PutKeys(s: Subs, m: Memory, n: Node, r: Node, key: int, h: int)
      requires n in m && n in s && n != r
      ensures PutSubs(s, n, r).Keys == s.Keys - {n} + {r} && PutMem(m, n, r, key, h).Keys == m.Keys - {n} + {r}
    {
    }

    static lemma PutAt(m: Memory, n: Node, r: Node, key: int, h: int, z: Node, f: Fields)
      requires n in m && (z == r || z in m) && z != n && r !in m
      requires m[n].parent != null ==> m[n].parent != m[n].kids[0] && m[n].parent != m[n].kids[1] && m[n].parent != n
      requires z == r ==>
        f.key == key && f.height == h && f.parent == m[n].parent && f.kids[0] == m[n].kids[0]
        && f.kids[1] == m[n].kids[1]
      requires z != r ==> (
        && f.key == m[z].key && f.height == m[z].height
        && f.parent == (if z == m[n].kids[0] || z == m[n].kids[1] then r else m[z].parent)
        && f.kids[0] == (if z == m[n].parent && m[z].kids[0] == n then r else m[z].kids[0])
        && f.kids[1] == (if z == m[n].parent && m[z].kids[0] != n then r else m[z].kids[1])
        && (z == m[n].parent ==> m[z].kids[0] == n || m[z].kids[1] == n))
      ensures f == PutMem(m, n, r, key, h)[z]
    {
      assert f.kids == Put(m, n, r, key, h, z).kids;
    }

    /** The successor of a node with two children is taken out of its place. */
    method TakeSuccessor(node: Node, link: Link) returns (successor: Node, above: Node, ghost v: Levels)
      requires Valid() && node in subs && node.left != null && node.right != null && link == LinkOf(node)
      modifies this`root, this`subs, subs.Keys`left, subs.Keys`right, subs.Keys`parent
      ensures Shaped() && successor in old(subs) && successor != node && subs.Keys == old(subs.Keys) - {successor}
      ensures node in subs && successor !in subs && node in M() && Takes(subs, M(), node, successor.key)
        && node.left != null && link == LinkOf(node)
      ensures Rising(v, subs, M(), above, true) && above in subs[node] && node in v && above == successor.parent
    {
      hide Linked, Mem, Rising, CanSplice, SplicedMem, SplicedSubs, Takes;
      ghost var m, s, r := M(), subs, root;
      MemIs(s.Keys);
      Sides(node);
      successor := LeftMost(node.right);
      Follows(node, successor);
      LinkIs(node);
      var successorLink := GetLinkPointer(successor);
      ghost var c := successor.right;
      OnlyRight(successor);
      SpliceRisingUp(HeightsOf(m), s, m, r, successor, c);
      TakeOut(successor, successorLink, successor.right);
      above := successor.parent;
      v := HeightsOf(m) - {successor};
      StillThere(s, m, r, node, successor, c);
      StillTakes(s, m, r, node, successor, c);
      LinkStays(s, m, r, node, successor, c);
      GoneKeys(s, successor);
      MemIs(subs.Keys);
      assert M()[node] == node.F();
    }

    /** The successor of a node with two children is taken out and put in its place. */
    method MoveSuccessor(node: Node, link: Link) returns (rebalance: Node, ghost v: Levels)
      requires Valid() && node in subs && node.left != null && node.right != null && link == LinkOf(node)
      modifies this`root, this`subs, subs.Keys`left, subs.Keys`right, subs.Keys`parent
      ensures Shaped() && subs.Keys == old(subs.Keys) - {node} && Rising(v, subs, M(), rebalance, true)
    {
      hide Linked, Mem, Rising, PutMem, PutSubs, Takes;
      var successor, above;
      successor, above, v := TakeSuccessor(node, link);
      if node != successor.parent {
        rebalance := above;
      } else {
        rebalance := successor;
      }
      ghost var m1, s1 := M(), subs;
      PutRising(v, s1, m1, root, node, successor, successor.key, successor.height, above);
      PutInPlace(node, successor, link);
      PutSubsKeys(s1, node, successor);
      v := Renamed(v, node, successor);
    }

    static ghost function Renamed(v: Levels, n: Node, r: Node): Levels
      requires n in v
    {
      (v - {n})[r := v[n]]
    }

    static lemma PutSubsKeys(s: Subs, n: Node, r: Node)
      requires n in s && n != r
      ensures PutSubs(s, n, r).Keys == s.Keys - {n} + {r}
    {
    }

    /** The least node of the right subtree comes next. */
    lemma Follows(node: Node, r: Node)
      requires Shaped() && node in subs && node.right != null && node.right in subs && r in subs[node.right]
      requires forall n {:trigger n in subs[node.right]} :: n in subs[node.right] ==> n in subs && r.key <= n.key
      ensures IsNext(node, r) && r in subs && r in subs[node] && r != node && r.parent != null
    {
      hide Linked, Mem;
      Sides(node);
      Apart(node);
      MemIs(subs.Keys);
      ParentBelow(subs, M(), root, r, node);
    }

    lemma OnlyRight(n: Node)
      requires Shaped() && n in subs && n.left == null
      ensures CanSplice(M(), n, n.right)
    {
      hide Linked, Mem;
      MemIs(subs.Keys);
    }

    /** After its successor is taken out, a node is there as before. */
    static lemma StillThere(s: Subs, m: Memory, root: Node?, n: Node, r: Node, c: Node?)
      requires Linked(s, m, root) && r in s && CanSplice(m, r, c) && n in s && r in s[n] && r != n
        && m[n].kids[0] != null && m[n].kids[0] != r
      ensures var s', m' := SplicedSubs(s, r), SplicedMem(m, r, c);
        && n in s' && n in m' && r !in s' && m[r].parent != null && m[r].parent in s'[n] && m'[n].kids[0] != null
        && m'[n].key == m[n].key && m'[n].height == m[n].height && m'[n].parent == m[n].parent
    {
      hide Linked;
      Around(s, m, root, n);
      Around(s, m, root, r);
      OneChild(s, m, root, r, c);
      ParentBelow(s, m, root, r, n);
    }

    /** No two nodes have the same key. */
    static lemma UniqueKeys(s: Subs, m: Memory, root: Node?, x: Node, y: Node)
      requires Linked(s, m, root) && x in s && y in s && x in m && y in m && m[x].key == m[y].key
      ensures x == y
    {
      hide Linked;
      Parts(s, m, root, x);
      if y !in s[x] {
        Convex(s, m, root, x, y);
      }
    }

    /** The successor's key lies between the same keys as the node's. */
    static lemma StillTakes(s: Subs, m: Memory, root: Node?, n: Node, r: Node, c: Node?)
      requires Linked(s, m, root) && r in s && CanSplice(m, r, c) && n in s && n in m && r in m && n != r
        && m[n].key < m[r].key
      requires forall z {:trigger z in s} :: z in s && z in m && m[n].key < m[z].key ==> m[r].key <= m[z].key
      ensures n in SplicedMem(m, r, c) && Takes(SplicedSubs(s, r), SplicedMem(m, r, c), n, m[r].key)
    {
      hide Linked;
      var s', m' := SplicedSubs(s, r), SplicedMem(m, r, c);
      forall z | z in s' && z in m' && z != n
        ensures m'[z].key != m[r].key && (m'[z].key < m'[n].key <==> m'[z].key < m[r].key)
          && (m'[n].key < m'[z].key <==> m[r].key < m'[z].key)
      {
        assert z in s && z in m && m'[z].key == m[z].key;
        if m[z].key == m[r].key {
          UniqueKeys(s, m, root, z, r);
        }
        if m[z].key == m[n].key {
          UniqueKeys(s, m, root, z, n);
        }
      }
    }

    static ghost function LinkIn(m: Memory, n: Node): Link
      requires n in m
    {
      if m[n].parent == null then RootLink
      else if m[n].parent in m && m[m[n].parent].kids[0] == n then LeftOf(m[n].parent)
      else RightOf(m[n].parent)
    }

    lemma LinkIs(n: Node)
      requires Shaped() && n in subs
      ensures n in M() && LinkOf(n) == LinkIn(M(), n)
    {
      hide Linked;
      Near(n);
      Around(subs, M(), root, n);
      assert n.parent != null ==> M()[n.parent] == n.parent.F();
    }

    /** The pointer to a node above is not touched. */
    lemma LinkStays(s: Subs, m: Memory, r0: Node?, n: Node, r: Node, c: Node?)
      requires Linked(s, m, r0) && r in s && r in m && CanSplice(m, r, c) && n in s && n in m && r in s[n] && r != n
      requires Shaped() && n in subs && M() == SplicedMem(m, r, c)
      ensures LinkOf(n) == LinkIn(m, n)
    {
      hide Linked;
      LinkIs(n);
      Around(s, m, r0, n);
      Around(s, m, r0, r);
      OneChild(s, m, r0, r, c);
      ParentBelow(s, m, r0, r, n);
    }

    /** A node with at most one child is replaced by it. */
    method TakeOutSingle(node: Node, link: Link, c: Node?) returns (ghost v: Levels)
      requires Valid() && node in subs && link == LinkOf(node)
        && ((node.left == null && c == node.right) || (node.right == null && c == node.left))
      modifies this`root, this`subs, subs.Keys`left, subs.Keys`right, subs.Keys`parent
      ensures Shaped() && subs.Keys == old(subs.Keys) - {node}
        && Rising(v, subs, M(), if c == null then old(node.parent) else c, true)
    {
      hide Linked, Mem, Rising, CanSplice, SplicedMem, SplicedSubs;
      ghost var m, s := M(), subs;
      ghost var v0: Levels := HeightsOf(m);
      Leftover(node, c);
      v := v0 - {node};
      if c == null {
        SpliceRisingUp(v0, s, m, root, node, null);
      } else {
        SpliceRisingAt(v0, s, m, root, node, c);
        v := v[c := v0[node]];
      }
      TakeOut(node, link, c);
      GoneKeys(s, node);
    }

    /** cuAvlTreeNodeRemove */
    method Remove(node: Node)
      requires Valid() && node in subs
      modifies this`root, this`subs, subs.Keys`left, subs.Keys`right, subs.Keys`parent, subs.Keys`height
      ensures Valid() && subs.Keys == old(subs.Keys) - {node}
      ensures node.left == null && node.right == null && node.parent == null
    {
      hide Linked, Mem, Rising;
      ghost var v: Levels;
      var rebalance: Node? := node.parent;
      var link := GetLinkPointer(node);
      if node.left != null && node.right != null {
        rebalance, v := MoveSuccessor(node, link);
      } else if node.left != null {
        rebalance := node.left;
        v := TakeOutSingle(node, link, node.left);
      } else if node.right != null {
        rebalance := node.right;
        v := TakeOutSingle(node, link, node.right);
      } else {
        v := TakeOutSingle(node, link, null);
      }
      Settle(node, rebalance, v);
    }

    /** The end of cuAvlTreeNodeRemove: the node's pointers are cleared, and the climb begins. */
    method Settle(node: Node, rebalance: Node?, ghost v: Levels)
      requires node !in subs && Shaped() && Rising(v, subs, M(), rebalance, true)
      modifies this`root, this`subs, node`left, node`right, node`parent
      modifies subs.Keys`left, subs.Keys`right, subs.Keys`parent, subs.Keys`height
      ensures Valid() && subs.Keys == old(subs.Keys)
      ensures node.left == null && node.right == null && node.parent == null
    {
      hide Linked, Mem, Rising;
      node.parent := null;
      node.left := null;
      node.right := null;
      Rebalance(rebalance, true, v);
      ghost var v' :| Rising(v', subs, M(), null, true);
      Leveled(v', subs, M(), root, true);
    }

    static lemma GoneKeys(s: Subs, n: Node)
      ensures SplicedSubs(s, n).Keys == s.Keys - {n}
    {
    }

    lemma Leftover(n: Node, c: Node?)
      requires Shaped() && n in subs && ((n.left == null && c == n.right) || (n.right == null && c == n.left))
      ensures CanSplice(M(), n, c) && M()[n] == n.F() && n in HeightsOf(M()) && (c != null ==> c in HeightsOf(M()))
    {
      hide Linked, Mem;
      MemIs(subs.Keys);
      Near(n);
    }
  }
}
