/** The AVL tree as values: a node's fields, the nodes below each node, and the levels of the nodes. Here
    are the facts about single pointer changes that the methods of module Avl put together. */
module AvlShape {
  type Side = b: nat | b < 2
  type Pair = s: seq<Node?> | |s| == 2 witness [null, null]

  /** What a node's fields hold; `kids` are the left and the right pointer. */
  datatype Fields = Fields(key: int, kids: Pair, parent: Node?, height: int)

  type Memory = map<Node, Fields>

  /** The nodes below each node, itself included. */
  type Subs = map<Node, set<Node>>

  class Node {
    var left: Node?
    var right: Node?
    var parent: Node?
    var height: int
    var key: int
    var value: int

    constructor ()
    {
      left, right, parent := null, null, null;
      height, key, value := 0, 0, 0;
    }

    ghost function F(): Fields
      reads this`left, this`right, this`parent, this`height, this`key
    {
      var kids: seq<Node?> := [left, right];
      assert |kids| == 2;
      Fields(key, kids, parent, height)
    }
  }

  ghost function Mem(ns: set<Node>): Memory
    reads ns
  {
    map n | n in ns :: n.F()
  }

  function Max(a: int, b: int): int {
    if a < b then b else a
  }

  // ---------- structure ----------

  ghost function SubOf(s: Subs, c: Node?): set<Node> {
    if c != null && c in s then s[c] else {}
  }

  /** `a` is on side `i` of `b`. */
  predicate Before(i: Side, a: int, b: int) {
    if i == 0 then a < b else b < a
  }

  /** The child on side `i`, which points back, and all keys below it are on that side. */
  ghost predicate KidOk(s: Subs, m: Memory, n: Node, i: Side)
    requires n in m
  {
    var c := m[n].kids[i];
    && (c != null ==> c in s && c in m && m[c].parent == n)
    && forall z {:trigger z in SubOf(s, c)} :: z in SubOf(s, c) ==> z in m && Before(i, m[z].key, m[n].key)
  }

  ghost predicate ParentOk(s: Subs, m: Memory, n: Node)
    requires n in m
  {
    var p := m[n].parent;
    p != null ==> p in s && p in m && (m[p].kids[0] == n || m[p].kids[1] == n)
  }

  ghost predicate SubOk(s: Subs, m: Memory, n: Node)
    requires n in m
  {
    && n in s && n in s[n]
    && (forall z {:trigger z in s[n]} :: z in s[n] ==>
      z == n || z in SubOf(s, m[n].kids[0]) || z in SubOf(s, m[n].kids[1]))
    && (forall z {:trigger z in SubOf(s, m[n].kids[0])} :: z in SubOf(s, m[n].kids[0]) ==> z in s[n])
    && (forall z {:trigger z in SubOf(s, m[n].kids[1])} :: z in SubOf(s, m[n].kids[1]) ==> z in s[n])
  }

  ghost predicate NodeOk(s: Subs, m: Memory, n: Node) {
    n in m && KidOk(s, m, n, 0) && KidOk(s, m, n, 1) && ParentOk(s, m, n) && SubOk(s, m, n)
  }

  ghost predicate RootOk(s: Subs, m: Memory, root: Node?) {
    && (root != null ==> root in s && root in m && m[root].parent == null)
    && (forall n {:trigger n in s} :: n in s ==> root != null && root in s && n in s[root])
    && (forall n {:trigger m[n].parent} :: n in m && m[n].parent == null ==> n == root)
  }

  /** A search tree with parent links. */
  ghost predicate Linked(s: Subs, m: Memory, root: Node?) {
    && (forall n {:trigger n in s} :: n in s ==> n in m)
    && (forall n {:trigger n in m} :: n in m ==> n in s)
    && (forall n {:trigger NodeOk(s, m, n)} :: n in s ==> NodeOk(s, m, n))
    && RootOk(s, m, root)
  }

  /** The neighbours of a node. */
  lemma Around(s: Subs, m: Memory, root: Node?, n: Node)
    requires Linked(s, m, root) && n in s
    ensures NodeOk(s, m, n) && n in m && n in s[n]
    ensures forall i: Side {:trigger m[n].kids[i]} :: m[n].kids[i] != null ==>
      && m[n].kids[i] in s && m[n].kids[i] in m && NodeOk(s, m, m[n].kids[i]) && m[m[n].kids[i]].parent == n
        && m[n].kids[i] != n && n !in SubOf(s, m[n].kids[i])
      && m[n].kids[i] in SubOf(s, m[n].kids[i])
    ensures m[n].kids[0] != null ==> m[n].kids[0] != m[n].kids[1]
    ensures m[n].parent != null ==>
      m[n].parent in s && m[n].parent in m && NodeOk(s, m, m[n].parent) && m[n].parent != n
    ensures m[n].parent != null ==> m[n].parent !in s[n] && m[n].parent != m[n].kids[0] && m[n].parent != m[n].kids[1]
    ensures m[n].parent == null <==> n == root
  {
    assert NodeOk(s, m, n);
    var l, r := m[n].kids[0], m[n].kids[1];
    assert n !in SubOf(s, l) && n !in SubOf(s, r);
    if l != null {
      assert NodeOk(s, m, l);
      assert l in SubOf(s, l);
    }
    if r != null {
      assert NodeOk(s, m, r);
      assert r in SubOf(s, r);
    }
    assert l != null && l == r ==> l in SubOf(s, l) && l in SubOf(s, r);
    if m[n].parent != null {
      assert NodeOk(s, m, m[n].parent);
      assert m[n].parent !in SubOf(s, n);
    }
  }

  // ---------- rotation ----------

  ghost function Hgt(m: Memory, c: Node?): int {
    if c != null && c in m then m[c].height else 0
  }

  /** `x` has a child on the side opposite to `i`, which can take its place. */
  ghost predicate CanRotate(m: Memory, x: Node, i: Side) {
    x in m && m[x].kids[1 - i] != null && m[x].kids[1 - i] in m
  }

  /** The fields of `z` after a rotation that takes `x` down to side `i`. */
  ghost function Rotated(m: Memory, x: Node, i: Side, z: Node): Fields
    requires CanRotate(m, x, i) && z in m
  {
    var f, y := m[x], m[x].kids[1 - i];
    var b := m[y].kids[i];
    var hx := 1 + Max(Hgt(m, f.kids[i]), Hgt(m, b));
    if z == x then Fields(f.key, f.kids[1 - i := b], y, hx)
    else if z == y then Fields(m[y].key, m[y].kids[i := x], f.parent, 1 + Max(hx, Hgt(m, m[y].kids[1 - i])))
    else if z == b then m[z].(parent := x)
    else if z == f.parent then m[z].(kids := Swapped(m[z].kids, x, y))
    else m[z]
  }

  /** The link to `a` becomes a link to `b`. */
  ghost function Swapped(kids: Pair, a: Node, b: Node?): Pair {
    if kids[0] == a then kids[0 := b] else if kids[1] == a then kids[1 := b] else kids
  }

  ghost predicate RotatedIn(m: Memory, x: Node, i: Side, m': Memory) {
    && CanRotate(m, x, i)
    && (forall z {:trigger z in m'} :: z in m' ==> z in m && m'[z] == Rotated(m, x, i, z))
    && (forall z {:trigger z in m} :: z in m ==> z in m')
  }

  ghost function TurnedSubs(s: Subs, m: Memory, x: Node, i: Side): Subs
    requires CanRotate(m, x, i) && x in s
  {
    var y := m[x].kids[1 - i];
    var c := SubOf(s, m[y].kids[1 - i]);
    s[y := s[x]][x := set z | z in s[x] && z != y && z !in c]
  }

  ghost function NewRoot(root: Node?, x: Node, y: Node?): Node? {
    if root == x then y else root
  }

  /** The three subtrees of a rotation, from side `i` on, and the keys between them. */
  lemma Trio(s: Subs, m: Memory, root: Node?, x: Node, i: Side)
    requires Linked(s, m, root) && x in s && CanRotate(m, x, i)
    ensures var y := m[x].kids[1 - i];
      && y in s && y in m && y != x && x in s[x] && y in s[x] && Before(i, m[x].key, m[y].key)
      && (m[x].parent != null ==> m[x].parent in m && m[x].parent !in s[x])
    ensures var y := m[x].kids[1 - i]; var a, b, c := m[x].kids[i], m[y].kids[i], m[y].kids[1 - i];
      && (forall z {:trigger z in s[x]} :: z in s[x] ==>
        z == x || z == y || z in SubOf(s, a) || z in SubOf(s, b) || z in SubOf(s, c))
      && (forall z {:trigger z in SubOf(s, a)} :: z in SubOf(s, a) ==>
        z in s[x] && z != x && z != y && z in m && z !in SubOf(s, c) && Before(i, m[z].key, m[x].key))
      && (forall z {:trigger z in SubOf(s, b)} :: z in SubOf(s, b) ==>
        z in s[x] && z != x && z != y && z in m && z !in SubOf(s, c) && Before(i, m[x].key, m[z].key)
          && Before(i, m[z].key, m[y].key))
      && (forall z {:trigger z in SubOf(s, c)} :: z in SubOf(s, c) ==>
        z in s[x] && z != x && z != y && z in m && Before(i, m[y].key, m[z].key))
      && (a != null ==> a in s && a in m && m[a].parent == x && a in SubOf(s, a))
      && (b != null ==> b in s && b in m && m[b].parent == y && b in SubOf(s, b))
      && (c != null ==> c in s && c in m && m[c].parent == y && c in SubOf(s, c))
  {
    hide Linked;
    var y := m[x].kids[1 - i];
    Around(s, m, root, x);
    Around(s, m, root, y);
    assert y in SubOf(s, y);
    assert forall z :: z in SubOf(s, y) <==> z in s[y];
    if m[x].parent != null {
      Around(s, m, root, m[x].parent);
    }
  }

  /** The lower node of a rotation. */
  lemma TurnedLower(s: Subs, m: Memory, root: Node?, x: Node, i: Side, m': Memory)
    requires Linked(s, m, root) && x in s && RotatedIn(m, x, i, m')
    ensures NodeOk(TurnedSubs(s, m, x, i), m', x)
  {
    hide Linked;
    var y := m[x].kids[1 - i];
    Trio(s, m, root, x, i);
    var a, b := m[x].kids[i], m[y].kids[i];
    var s' := TurnedSubs(s, m, x, i);
    assert x in m' && y in m' && (b != null ==> b in m') && (a != null ==> a in m');
    assert SubOf(s', a) == SubOf(s, a) && SubOf(s', b) == SubOf(s, b);
  }

  /** The upper node of a rotation. */
  lemma TurnedUpper(s: Subs, m: Memory, root: Node?, x: Node, i: Side, m': Memory)
    requires Linked(s, m, root) && x in s && RotatedIn(m, x, i, m')
    ensures NodeOk(TurnedSubs(s, m, x, i), m', m[x].kids[1 - i])
  {
    hide Linked, KidOk, SubOk;
    TurnedUpperBelow(s, m, root, x, i, m');
    Trio(s, m, root, x, i);
    assert m[x].kids[1 - i] in m';
    if m[x].parent != null {
      Around(s, m, root, x);
      assert m[x].parent in m' && m[x].parent != m[m[x].kids[1 - i]].kids[i];
    }
  }

  lemma TurnedUpperBelow(s: Subs, m: Memory, root: Node?, x: Node, i: Side, m': Memory)
    requires Linked(s, m, root) && x in s && RotatedIn(m, x, i, m')
    ensures var y, s' := m[x].kids[1 - i], TurnedSubs(s, m, x, i);
      y in m' && KidOk(s', m', y, 0) && KidOk(s', m', y, 1) && SubOk(s', m', y)
  {
    hide Linked, KidOk, RotatedIn;
    IsRotatable(m, x, i, m');
    TurnedFar(s, m, root, x, i, m');
    TurnedNear(s, m, root, x, i, m');
    RotatePair(s, m, root, x, i, m');
    Trio(s, m, root, x, i);
  }

  /** The upper node's child on the far side, which it keeps. */
  lemma TurnedFar(s: Subs, m: Memory, root: Node?, x: Node, i: Side, m': Memory)
    requires Linked(s, m, root) && x in s && RotatedIn(m, x, i, m')
    ensures var y, s' := m[x].kids[1 - i], TurnedSubs(s, m, x, i);
      y in m' && KidOk(s', m', y, 1 - i) && SubOf(s', m[y].kids[1 - i]) == SubOf(s, m[y].kids[1 - i])
  {
    hide Linked;
    var y := m[x].kids[1 - i];
    Trio(s, m, root, x, i);
    var c := m[y].kids[1 - i];
    assert x in m' && y in m' && (c != null ==> c in m');
    assert SubOf(TurnedSubs(s, m, x, i), c) == SubOf(s, c);
  }

  /** The lower node, below the upper one. */
  lemma TurnedNear(s: Subs, m: Memory, root: Node?, x: Node, i: Side, m': Memory)
    requires Linked(s, m, root) && x in s && RotatedIn(m, x, i, m')
    ensures var y, s' := m[x].kids[1 - i], TurnedSubs(s, m, x, i); y in m' && KidOk(s', m', y, i)
  {
    hide Linked;
    Trio(s, m, root, x, i);
    assert x in m' && m[x].kids[1 - i] in m';
  }

  lemma TurnedOther(s: Subs, m: Memory, root: Node?, x: Node, i: Side, m': Memory, z: Node)
    requires Linked(s, m, root) && x in s && RotatedIn(m, x, i, m')
    requires z in s && z != x && z != m[x].kids[1 - i]
    ensures NodeOk(TurnedSubs(s, m, x, i), m', z)
  {
    hide Linked, SubOk, TurnedSubs;
    var y := m[x].kids[1 - i];
    TurnedKid(s, m, root, x, i, m', z, 0);
    TurnedKid(s, m, root, x, i, m', z, 1);
    TurnedParent(s, m, root, x, i, m', z);
    TurnedSub(s, m, root, x, i, m', z);
  }

  lemma TurnedKid(s: Subs, m: Memory, root: Node?, x: Node, i: Side, m': Memory, z: Node, j: Side)
    requires Linked(s, m, root) && x in s && RotatedIn(m, x, i, m')
    requires z in s && z != x && z != m[x].kids[1 - i]
    ensures z in m' && KidOk(TurnedSubs(s, m, x, i), m', z, j)
    ensures SubOf(TurnedSubs(s, m, x, i), m'[z].kids[j]) == SubOf(s, m[z].kids[j])
  {
    hide Linked, SubOk, ParentOk, TurnedSubs;
    TurnedLink(s, m, root, x, i, m', z, j);
    Around(s, m, root, z);
    assert z in m';
    var c := m[z].kids[j];
    assert forall w :: w in SubOf(s, c) && w in m ==> w in m' && m'[w].key == m[w].key;
    KidStill(s, m, TurnedSubs(s, m, x, i), m', z, j);
  }

  lemma TurnedLink(s: Subs, m: Memory, root: Node?, x: Node, i: Side, m': Memory, z: Node, j: Side)
    requires Linked(s, m, root) && x in s && RotatedIn(m, x, i, m')
    requires z in s && z != x && z != m[x].kids[1 - i]
    ensures z in m' && m'[z].key == m[z].key && SubOf(TurnedSubs(s, m, x, i), m'[z].kids[j]) == SubOf(s, m[z].kids[j])
    ensures var c := m'[z].kids[j]; c != null ==> c in TurnedSubs(s, m, x, i) && c in m' && m'[c].parent == z
  {
    hide Linked, SubOk, KidOk;
    Around(s, m, root, z);
    Around(s, m, root, x);
    Trio(s, m, root, x, i);
    var y := m[x].kids[1 - i];
    var c := m[z].kids[j];
    assert z in m' && y in m' && (c != null ==> c in m');
    var s' := TurnedSubs(s, m, x, i);
    if c == x {
      assert m[x].parent == z && m'[z].kids[j] == y;
      assert SubOf(s', y) == SubOf(s, x);
    } else {
      assert m'[z].kids[j] == c;
      assert c != null ==> c != y && m[c].parent == z && m'[c].parent == z;
      assert SubOf(s', c) == SubOf(s, c);
    }
  }

  /** A child pointer that leads to the same nodes as before. */
  lemma KidStill(s: Subs, m: Memory, s': Subs, m': Memory, z: Node, j: Side)
    requires z in m && z in m' && m'[z].key == m[z].key && KidOk(s, m, z, j)
    requires SubOf(s', m'[z].kids[j]) == SubOf(s, m[z].kids[j])
    requires m'[z].kids[j] != null ==> m'[z].kids[j] in s' && m'[z].kids[j] in m' && m'[m'[z].kids[j]].parent == z
    requires forall w :: w in SubOf(s, m[z].kids[j]) && w in m ==> w in m' && m'[w].key == m[w].key
    ensures KidOk(s', m', z, j)
  {
  }

  lemma TurnedParent(s: Subs, m: Memory, root: Node?, x: Node, i: Side, m': Memory, z: Node)
    requires Linked(s, m, root) && x in s && RotatedIn(m, x, i, m')
    requires z in s && z != x && z != m[x].kids[1 - i]
    ensures z in m' && ParentOk(TurnedSubs(s, m, x, i), m', z)
  {
    hide Linked, SubOk, KidOk;
    Around(s, m, root, z);
    Around(s, m, root, x);
    Trio(s, m, root, x, i);
    var y := m[x].kids[1 - i];
    var q := m[z].parent;
    assert z in m' && x in m' && y in m' && (q != null ==> q in m');
  }

  lemma TurnedSub(s: Subs, m: Memory, root: Node?, x: Node, i: Side, m': Memory, z: Node)
    requires Linked(s, m, root) && x in s && RotatedIn(m, x, i, m')
    requires z in s && z != x && z != m[x].kids[1 - i] && z in m'
    requires forall j: Side {:trigger m[z].kids[j]} ::
      SubOf(TurnedSubs(s, m, x, i), m'[z].kids[j]) == SubOf(s, m[z].kids[j])
    ensures SubOk(TurnedSubs(s, m, x, i), m', z)
  {
    hide Linked;
    Around(s, m, root, z);
    assert SubOf(TurnedSubs(s, m, x, i), m'[z].kids[0]) == SubOf(s, m[z].kids[0]);
    assert SubOf(TurnedSubs(s, m, x, i), m'[z].kids[1]) == SubOf(s, m[z].kids[1]);
  }

  /** A rotation keeps the search tree and its parent links. */
  lemma RotateLinked(s: Subs, m: Memory, root: Node?, x: Node, i: Side, m': Memory)
    requires Linked(s, m, root) && x in s && RotatedIn(m, x, i, m')
    ensures Linked(TurnedSubs(s, m, x, i), m', NewRoot(root, x, m[x].kids[1 - i]))
  {
    hide NodeOk, CanRotate;
    var s' := TurnedSubs(s, m, x, i);
    var y := m[x].kids[1 - i];
    assert y in s by { Trio(s, m, root, x, i); }
    forall z | z in s'
      ensures NodeOk(s', m', z)
    {
      if z == x {
        TurnedLower(s, m, root, x, i, m');
      } else if z == y {
        TurnedUpper(s, m, root, x, i, m');
      } else {
        TurnedOther(s, m, root, x, i, m', z);
      }
    }
    TurnedRoot(s, m, root, x, i, m');
  }

  lemma TurnedRoot(s: Subs, m: Memory, root: Node?, x: Node, i: Side, m': Memory)
    requires Linked(s, m, root) && x in s && RotatedIn(m, x, i, m')
    ensures RootOk(TurnedSubs(s, m, x, i), m', NewRoot(root, x, m[x].kids[1 - i]))
  {
    hide NodeOk;
    Around(s, m, root, x);
    Trio(s, m, root, x, i);
    var y := m[x].kids[1 - i];
    assert x in m' && y in m';
  }

  // ---------- levels ----------

  /** The height each node has, or had before the change that is on its way up. */
  type Levels = map<Node, int>

  ghost function Lv(v: Levels, c: Node?): int {
    if c != null && c in v then v[c] else 0
  }

  ghost predicate LevelOk(v: Levels, m: Memory, n: Node) {
    && n in v && n in m && v[n] == 1 + Max(Lv(v, m[n].kids[0]), Lv(v, m[n].kids[1]))
    && -1 <= Lv(v, m[n].kids[0]) - Lv(v, m[n].kids[1]) <= 1
  }

  /** How far the subtrees of a node may be from its level, when one of them has changed by at most one. */
  predicate CanFix(l: int, r: int, was: int, isDelete: bool) {
    var top := 1 + Max(l, r);
    if -1 <= l - r <= 1 then
      if isDelete then was - 1 <= top <= was else top == was || (top == was + 1 && l != r)
    else
      -2 <= l - r <= 2 && was == if isDelete then top else top - 1
  }

  /** After an insertion, a subtree that is too tall leans to one side. */
  ghost predicate Leans(v: Levels, m: Memory, n: Node) {
    n in m && forall i: Side {:trigger m[n].kids[i]} :: Lv(v, m[n].kids[i]) == 2 + Lv(v, m[n].kids[1 - i]) ==>
      m[n].kids[i] != null && m[n].kids[i] in m && Lv(v, m[m[n].kids[i]].kids[0]) != Lv(v, m[m[n].kids[i]].kids[1])
  }

  /** All levels fit but those at `node`, and heights are levels away from the path above `node`. */
  ghost predicate Rising(v: Levels, s: Subs, m: Memory, node: Node?, isDelete: bool) {
    && (forall n {:trigger n in v} :: n in s ==> n in v && v[n] >= 1)
    && (forall n {:trigger LevelOk(v, m, n)} :: n in s && n != node ==> LevelOk(v, m, n))
    && (forall n {:trigger m[n].height} :: n in s && n in m && (node == null || node !in s[n]) ==>
      n in v && m[n].height == v[n])
    && (node != null ==> node in s && node in m && node in v && Fixable(v, m, node, isDelete))
  }

  ghost predicate Fixable(v: Levels, m: Memory, node: Node, isDelete: bool)
    requires node in m && node in v
  {
    CanFix(Lv(v, m[node].kids[0]), Lv(v, m[node].kids[1]), v[node], isDelete) && (isDelete || Leans(v, m, node))
  }

  /** Below a node, above itself, each node's parent is in the same subtree. */
  lemma {:induction false} ParentBelow(s: Subs, m: Memory, root: Node?, x: Node, n: Node)
    requires Linked(s, m, root) && n in s && x in s[n] && x != n
    ensures x in s && x in m && m[x].parent != null && m[x].parent in s[n]
    decreases s[n]
  {
    hide Linked;
    Around(s, m, root, n);
    var c := if x in SubOf(s, m[n].kids[0]) then m[n].kids[0] else m[n].kids[1];
    assert c != null && c in s && x in s[c];
    Around(s, m, root, c);
    if c != x {
      assert n !in s[c] && s[c] <= s[n];
      ParentBelow(s, m, root, x, c);
    }
  }

  /** The heights of a node's children are their levels. */
  lemma KidHeights(v: Levels, s: Subs, m: Memory, root: Node?, x: Node, isDelete: bool, i: Side)
    requires Linked(s, m, root) && Rising(v, s, m, x, isDelete)
    ensures Hgt(m, m[x].kids[i]) == Lv(v, m[x].kids[i])
  {
    hide Linked;
    Around(s, m, root, x);
    var c := m[x].kids[i];
    if c != null {
      assert x !in SubOf(s, c);
      assert m[c].height == v[c];
    }
  }

  /** The step to the parent, in numbers: `c0` was the level below it, and `c1` is. */
  lemma StepNumbers(other: int, c0: int, c1: int, p: int, isDelete: bool)
    requires p == 1 + Max(c0, other) && -1 <= c0 - other <= 1
    requires if isDelete then c0 - 1 <= c1 <= c0 else c0 <= c1 <= c0 + 1
    ensures CanFix(c1, other, p, isDelete) && CanFix(other, c1, p, isDelete)
    ensures !isDelete && (c1 - other == 2 || other - c1 == 2) ==> c1 == c0 + 1 && c1 == other + 2
  {
  }

  /** A position whose level has become `c1` below its parent `p`, which is the next node to look at. */
  lemma Arrive(v: Levels, v': Levels, m: Memory, m': Memory, p: Node, x: Node, x': Node, i: Side, c0: int,
      isDelete: bool)
    requires p in m && p in m' && p in v && p in v' && v'[p] == v[p] && LevelOk(v, m, p)
    requires m[p].kids[i] == x && m'[p].kids[i] == x' && m'[p].kids[1 - i] == m[p].kids[1 - i]
    requires Lv(v, x) == c0 && Lv(v', m[p].kids[1 - i]) == Lv(v, m[p].kids[1 - i])
    requires if isDelete then c0 - 1 <= Lv(v', x') <= c0 else c0 <= Lv(v', x') <= c0 + 1
    requires !isDelete && Lv(v', x') == c0 + 1 ==> x' in m' && Lv(v', m'[x'].kids[0]) != Lv(v', m'[x'].kids[1])
    ensures Fixable(v', m', p, isDelete)
  {
    var other := Lv(v, m[p].kids[1 - i]);
    StepNumbers(other, c0, Lv(v', x'), v[p], isDelete);
  }

  /** What does not move keeps its level. */
  lemma LevelStays(v: Levels, v': Levels, m: Memory, m': Memory, n: Node)
    requires LevelOk(v, m, n) && n in m' && m'[n].kids == m[n].kids && n in v' && v'[n] == v[n]
    requires Lv(v', m[n].kids[0]) == Lv(v, m[n].kids[0]) && Lv(v', m[n].kids[1]) == Lv(v, m[n].kids[1])
    ensures LevelOk(v', m', n)
  {
  }

  /** Only heights differ. */
  lemma SameLinks(s: Subs, m: Memory, m': Memory, root: Node?, x: Node, h: int)
    requires Linked(s, m, root) && x in m && m' == m[x := m[x].(height := h)]
    ensures Linked(s, m', root)
  {
    forall n | n in s
      ensures NodeOk(s, m', n)
    {
      assert NodeOk(s, m, n);
      KidStill(s, m, s, m', n, 0);
      KidStill(s, m, s, m', n, 1);
    }
  }

  /** A node in balance: its level is what it is, and the parent is next. */
  lemma StepPlain(v: Levels, s: Subs, m: Memory, m': Memory, root: Node?, x: Node, isDelete: bool)
    requires Linked(s, m, root) && Rising(v, s, m, x, isDelete)
    requires -1 <= Lv(v, m[x].kids[0]) - Lv(v, m[x].kids[1]) <= 1
    requires m' == m[x := m[x].(height := 1 + Max(Lv(v, m[x].kids[0]), Lv(v, m[x].kids[1])))]
    ensures Linked(s, m', root) && Rising(v[x := m'[x].height], s, m', m[x].parent, isDelete)
  {
    hide Linked, CanFix, Fixable, Rising, LevelOk;
    IsRising(v, s, m, x, isDelete);
    var v', p := v[x := m'[x].height], m[x].parent;
    SameLinks(s, m, m', root, x, m'[x].height);
    Around(s, m, root, x);
    PlainLevels(v, s, m, m', root, x, isDelete, v');
    forall n | n in s && n != x
      ensures n in m && (x in s[n] ==> p != null && p in s[n])
    {
      Around(s, m, root, n);
      if x in s[n] {
        ParentBelow(s, m, root, x, n);
      }
    }
    if p != null {
      var i: Side := if m[p].kids[0] == x then 0 else 1;
      Around(s, m, root, p);
      LevelOf(v, s, m, x, isDelete, p);
      IsFixable(v, s, m, x, isDelete);
      FixedLevel(Lv(v, m[x].kids[0]), Lv(v, m[x].kids[1]), v[x], isDelete);
      Arrive(v, v', m, m', p, x, x, i, v[x], isDelete);
    }
    RisesOn(v, s, m, x, {x}, v', s, m', p, isDelete);
  }

  lemma IsFixable(v: Levels, s: Subs, m: Memory, x: Node, isDelete: bool)
    requires Rising(v, s, m, x, isDelete)
    ensures x in m && x in v && CanFix(Lv(v, m[x].kids[0]), Lv(v, m[x].kids[1]), v[x], isDelete)
    ensures isDelete || Leans(v, m, x)
  {
  }

  lemma PlainLevels(v: Levels, s: Subs, m: Memory, m': Memory, root: Node?, x: Node, isDelete: bool, v': Levels)
    requires Linked(s, m, root) && Rising(v, s, m, x, isDelete)
    requires -1 <= Lv(v, m[x].kids[0]) - Lv(v, m[x].kids[1]) <= 1
    requires m' == m[x := m[x].(height := 1 + Max(Lv(v, m[x].kids[0]), Lv(v, m[x].kids[1])))]
      && v' == v[x := m'[x].height]
    ensures forall n {:trigger LevelOk(v', m', n)} :: n in s && n != m[x].parent ==> LevelOk(v', m', n)
  {
    hide Linked, CanFix, Fixable;
    forall n | n in s && n != m[x].parent
      ensures LevelOk(v', m', n)
    {
      Around(s, m, root, n);
      assert m[n].kids[0] != x && m[n].kids[1] != x;
      if n != x {
        assert LevelOk(v, m, n);
        LevelStays(v, v', m, m', n);
      }
    }
  }

  lemma FixedLevel(l: int, r: int, was: int, isDelete: bool)
    requires CanFix(l, r, was, isDelete) && -1 <= l - r <= 1
    ensures var top := 1 + Max(l, r);
      if isDelete then was - 1 <= top <= was else was <= top <= was + 1 && (top == was + 1 ==> l != r)
  {
  }

  /** What a rotation leaves alone. */
  lemma RotateRest(s: Subs, m: Memory, root: Node?, x: Node, i: Side, m': Memory, n: Node)
    requires Linked(s, m, root) && x in s && RotatedIn(m, x, i, m') && n in s && n != x && n != m[x].kids[1 - i]
    ensures n in m && n in m' && m'[n].height == m[n].height && n in TurnedSubs(s, m, x, i)
      && TurnedSubs(s, m, x, i)[n] == s[n]
    ensures n != m[x].parent ==>
      m'[n].kids == m[n].kids && m[n].kids[0] != x && m[n].kids[1] != x && m[n].kids[0] != m[x].kids[1 - i]
      && m[n].kids[1] != m[x].kids[1 - i]
  {
    hide Linked, SubOk, KidOk;
    Around(s, m, root, n);
    Around(s, m, root, x);
    assert n in m';
  }

  /** What the two nodes of a rotation hold afterwards. */
  lemma RotatePair(s: Subs, m: Memory, root: Node?, x: Node, i: Side, m': Memory)
    requires Linked(s, m, root) && x in s && RotatedIn(m, x, i, m')
    ensures var y := m[x].kids[1 - i];
      && x in m' && y in m' && y in s && y in m && x != y
      && m'[x].kids[i] == m[x].kids[i] && m'[x].kids[1 - i] == m[y].kids[i]
      && m'[y].kids[i] == x && m'[y].kids[1 - i] == m[y].kids[1 - i] && m'[y].parent == m[x].parent
      && m'[x].height == 1 + Max(Hgt(m, m[x].kids[i]), Hgt(m, m[y].kids[i]))
      && m'[y].height == 1 + Max(m'[x].height, Hgt(m, m[y].kids[1 - i]))
      && m[x].kids[i] != x && m[x].kids[i] != y && m[y].kids[i] != x && m[y].kids[i] != y && m[y].kids[1 - i] != x
        && m[y].kids[1 - i] != y
      && TurnedSubs(s, m, x, i)[y] == s[x]
  {
    hide Linked;
    Trio(s, m, root, x, i);
    var y := m[x].kids[1 - i];
    assert x in m' && y in m';
  }

  /** The parent's child pointer after a rotation. */
  lemma RotateParent(s: Subs, m: Memory, root: Node?, x: Node, i: Side, m': Memory) returns (j: Side)
    requires Linked(s, m, root) && x in s && RotatedIn(m, x, i, m') && m[x].parent != null
    ensures m[x].parent in m && m[x].parent in m' && m[x].parent in s && m[x].parent != x
      && m[x].parent != m[x].kids[1 - i]
    ensures m[m[x].parent].kids[j] == x && m'[m[x].parent].kids[j] == m[x].kids[1 - i]
    ensures m'[m[x].parent].kids[1 - j] == m[m[x].parent].kids[1 - j]
    ensures m[m[x].parent].kids[1 - j] != x && m[m[x].parent].kids[1 - j] != m[x].kids[1 - i]
  {
    hide Linked, SubOk, KidOk;
    var p := m[x].parent;
    Around(s, m, root, x);
    Around(s, m, root, p);
    Trio(s, m, root, x, i);
    assert p in m';
    j := if m[p].kids[0] == x then 0 else 1;
  }

  /** The levels of a node's grandchildren on the far side are their heights. */
  lemma GrandHeights(v: Levels, s: Subs, m: Memory, root: Node?, x: Node, isDelete: bool, i: Side, j: Side)
    requires Linked(s, m, root) && Rising(v, s, m, x, isDelete) && CanRotate(m, x, i)
    ensures Hgt(m, m[m[x].kids[1 - i]].kids[j]) == Lv(v, m[m[x].kids[1 - i]].kids[j])
  {
    hide Linked;
    Trio(s, m, root, x, i);
    var c := m[m[x].kids[1 - i]].kids[j];
    assert c == m[m[x].kids[1 - i]].kids[i] || c == m[m[x].kids[1 - i]].kids[1 - i];
    if c != null {
      assert x !in SubOf(s, c);
      assert m[c].height == v[c];
    }
  }

  /** A single rotation, after which the parent is next. */
  lemma StepSingle(v: Levels, s: Subs, m: Memory, m': Memory, root: Node?, x: Node, i: Side, isDelete: bool)
    requires Linked(s, m, root) && Rising(v, s, m, x, isDelete) && RotatedIn(m, x, i, m')
    requires var y := m[x].kids[1 - i];
      var a, b, c := Lv(v, m[x].kids[i]), Lv(v, m[y].kids[i]), Lv(v, m[y].kids[1 - i]);
      var hx := 1 + Max(a, b); var hy := 1 + Max(hx, c);
      && a >= 0 && b >= 0 && -1 <= a - b <= 1 && -1 <= hx - c <= 1 && if isDelete then v[x] - 1 <= hy <= v[x]
        else hy == v[x]
    ensures var y := m[x].kids[1 - i];
      && x in m' && y in m' && Rising(v[x := m'[x].height][y := m'[y].height], TurnedSubs(s, m, x, i), m', m[x].parent,
        isDelete)
  {
    hide Linked, CanFix, RotatedIn, TurnedSubs, Fixable;
    var y, p := m[x].kids[1 - i], m[x].parent;
    RotatePair(s, m, root, x, i, m');
    KidHeights(v, s, m, root, x, isDelete, i);
    GrandHeights(v, s, m, root, x, isDelete, i, i);
    GrandHeights(v, s, m, root, x, isDelete, i, 1 - i);
    var v', s' := v[x := m'[x].height][y := m'[y].height], TurnedSubs(s, m, x, i);
    SingleLevels(v, s, m, m', root, x, i, isDelete, v');
    TurnedKeys(s, m, x, i);
    forall n | n in s && n != x && n != y
      ensures n in m && n in m' && n in s' && s'[n] == s[n] && m'[n].height == m[n].height
        && (x in s[n] ==> p != null && p in s[n])
    {
      RotateRest(s, m, root, x, i, m', n);
      if x in s[n] {
        ParentBelow(s, m, root, x, n);
      }
    }
    if p != null {
      var j := RotateParent(s, m, root, x, i, m');
      assert LevelOk(v, m, p);
      Arrive(v, v', m, m', p, x, y, j, v[x], isDelete);
    }
  }

  lemma TurnedKeys(s: Subs, m: Memory, x: Node, i: Side)
    requires CanRotate(m, x, i) && x in s && m[x].kids[1 - i] in s
    ensures TurnedSubs(s, m, x, i).Keys == s.Keys
  {
  }

  lemma SingleLevels(v: Levels, s: Subs, m: Memory, m': Memory, root: Node?, x: Node, i: Side, isDelete: bool,
      v': Levels)
    requires Linked(s, m, root) && Rising(v, s, m, x, isDelete) && RotatedIn(m, x, i, m')
    requires var y := m[x].kids[1 - i]; x in m' && y in m' && v' == v[x := m'[x].height][y := m'[y].height]
    requires var y := m[x].kids[1 - i];
      var a, b, c := Lv(v, m[x].kids[i]), Lv(v, m[y].kids[i]), Lv(v, m[y].kids[1 - i]);
      -1 <= a - b <= 1 && -1 <= m'[x].height - c <= 1 && m'[x].height == 1 + Max(a, b)
        && m'[y].height == 1 + Max(m'[x].height, c)
    ensures forall n {:trigger LevelOk(v', m', n)} :: n in s && n != m[x].parent ==> LevelOk(v', m', n)
  {
    hide Linked, Rising, RotatedIn, TurnedSubs, LevelOk;
    IsRising(v, s, m, x, isDelete);
    RotatePair(s, m, root, x, i, m');
    PairLevels(v, s, m, m', root, x, i, v');
    forall n | n in s && n != m[x].parent
      ensures LevelOk(v', m', n)
    {
      if n != x && n != m[x].kids[1 - i] {
        RotateRest(s, m, root, x, i, m', n);
        LevelOf(v, s, m, x, isDelete, n);
        LevelStays(v, v', m, m', n);
      }
    }
  }

  lemma LevelOf(v: Levels, s: Subs, m: Memory, x: Node, isDelete: bool, n: Node)
    requires Rising(v, s, m, x, isDelete) && n in s && n != x
    ensures LevelOk(v, m, n) && n in v
  {
    hide Fixable;
  }

  /** The levels of the two nodes of a rotation. */
  lemma PairLevels(v: Levels, s: Subs, m: Memory, m': Memory, root: Node?, x: Node, i: Side, v': Levels)
    requires Linked(s, m, root) && x in s && RotatedIn(m, x, i, m') && m[x].kids[1 - i] != null
    requires var y := m[x].kids[1 - i]; x in m' && y in m' && v' == v[x := m'[x].height][y := m'[y].height]
    requires var y := m[x].kids[1 - i];
      y in m
      && var a, b, c := Lv(v, m[x].kids[i]), Lv(v, m[y].kids[i]), Lv(v, m[y].kids[1 - i]);
      -1 <= a - b <= 1 && -1 <= m'[x].height - c <= 1 && m'[x].height == 1 + Max(a, b)
        && m'[y].height == 1 + Max(m'[x].height, c)
    ensures LevelOk(v', m', x) && LevelOk(v', m', m[x].kids[1 - i])
  {
    hide Linked, RotatedIn, TurnedSubs;
    RotatePair(s, m, root, x, i, m');
  }

  // ---------- double rotation ----------

  /** First the child goes down on its own side, then `x`; `w` between them comes to the top. */
  ghost predicate Doubled(s: Subs, m: Memory, root: Node?, x: Node, i: Side, m1: Memory, m2: Memory) {
    && Linked(s, m, root) && x in s && CanRotate(m, x, i)
    && var y := m[x].kids[1 - i];
    && y in s && RotatedIn(m, y, 1 - i, m1) && RotatedIn(m1, x, i, m2)
  }

  lemma FirstTurn(s: Subs, m: Memory, root: Node?, x: Node, i: Side, m1: Memory, m2: Memory)
    requires Doubled(s, m, root, x, i, m1, m2)
    ensures var y := m[x].kids[1 - i]; var w := m[y].kids[i];
      && y in m && w != null && w in m && w in s && x != y && x != w && y != w && x in m1 && y in m1 && w in m1
      && Linked(TurnedSubs(s, m, y, 1 - i), m1, root) && x in TurnedSubs(s, m, y, 1 - i)
      && m1[x].kids[i] == m[x].kids[i] && m1[x].kids[1 - i] == w && m1[x].parent == m[x].parent
      && m1[y].kids[i] == m[w].kids[1 - i] && m1[y].kids[1 - i] == m[y].kids[1 - i]
      && m1[w].kids[i] == m[w].kids[i] && m1[w].kids[1 - i] == y
      && m1[y].height == 1 + Max(Hgt(m, m[y].kids[1 - i]), Hgt(m, m[w].kids[1 - i]))
      && TurnedSubs(s, m, y, 1 - i)[x] == s[x] && y in s[x] && w in s[x]
  {
    hide Linked, RotatedIn, TurnedSubs;
    var y := m[x].kids[1 - i];
    Trio(s, m, root, x, i);
    IsRotatable(m, y, 1 - i, m1);
    Around(s, m, root, x);
    Around(s, m, root, y);
    RotatePair(s, m, root, y, 1 - i, m1);
    var j := RotateParent(s, m, root, y, 1 - i, m1);
    RotateRest(s, m, root, y, 1 - i, m1, x);
    RotateLinked(s, m, root, y, 1 - i, m1);
    TurnedKeys(s, m, y, 1 - i);
    ParentStays(m, y, 1 - i, m1, x);
    assert j == 1 - i;
  }

  lemma IsRotatable(m: Memory, x: Node, i: Side, m': Memory)
    requires RotatedIn(m, x, i, m')
    ensures CanRotate(m, x, i)
  {
  }

  lemma ParentStays(m: Memory, x: Node, i: Side, m': Memory, p: Node)
    requires RotatedIn(m, x, i, m') && p in m && m[x].parent == p && p != m[m[x].kids[1 - i]].kids[i] && p != x
      && p != m[x].kids[1 - i]
    ensures p in m' && m'[p].parent == m[p].parent
  {
    assert p in m';
  }

  lemma DoubleShape(s: Subs, m: Memory, root: Node?, x: Node, i: Side, m1: Memory, m2: Memory)
    requires Doubled(s, m, root, x, i, m1, m2)
    ensures var y := m[x].kids[1 - i]; var w := m[y].kids[i];
      && y in m && w != null && w in m && w in s && x != y && x != w && y != w && x in m2 && y in m2 && w in m2
      && m2[x].kids[i] == m[x].kids[i] && m2[x].kids[1 - i] == m[w].kids[i]
      && m2[y].kids[i] == m[w].kids[1 - i] && m2[y].kids[1 - i] == m[y].kids[1 - i]
      && m2[w].kids[i] == x && m2[w].kids[1 - i] == y && m2[w].parent == m[x].parent
  {
    hide Linked, RotatedIn, TurnedSubs, Doubled;
    FirstTurn(s, m, root, x, i, m1, m2);
    IsDoubled(s, m, root, x, i, m1, m2);
    var y := m[x].kids[1 - i];
    var s1 := TurnedSubs(s, m, y, 1 - i);
    RotatePair(s1, m1, root, x, i, m2);
    TurnedKeys(s, m, y, 1 - i);
    Around(s1, m1, root, x);
    RotateRest(s1, m1, root, x, i, m2, y);
    Apart2(s1, m1, root, x, i, y);
  }

  lemma IsDoubled(s: Subs, m: Memory, root: Node?, x: Node, i: Side, m1: Memory, m2: Memory)
    requires Doubled(s, m, root, x, i, m1, m2)
    ensures Linked(s, m, root) && x in s && CanRotate(m, x, i)
    ensures m[x].kids[1 - i] in s && RotatedIn(m, m[x].kids[1 - i], 1 - i, m1) && RotatedIn(m1, x, i, m2)
    ensures CanRotate(m, m[x].kids[1 - i], 1 - i) && CanRotate(m1, x, i)
  {
  }

  /** A grandchild is not the parent. */
  lemma Apart2(s: Subs, m: Memory, root: Node?, x: Node, i: Side, y: Node)
    requires Linked(s, m, root) && x in s && CanRotate(m, x, i) && m[m[x].kids[1 - i]].kids[1 - i] == y
    ensures m[x].parent != y
  {
    hide Linked;
    Trio(s, m, root, x, i);
  }

  /** The heights of the four subtrees of a double rotation are their levels. */
  lemma DoubleHeights(v: Levels, s: Subs, m: Memory, root: Node?, x: Node, i: Side, m1: Memory, m2: Memory,
      isDelete: bool)
    requires Doubled(s, m, root, x, i, m1, m2) && Rising(v, s, m, x, isDelete)
    ensures var y := m[x].kids[1 - i]; var w := m[y].kids[i];
      && y in m && w != null && w in m && x in m2 && y in m2 && w in m2
      && m2[x].height == 1 + Max(Lv(v, m[x].kids[i]), Lv(v, m[w].kids[i]))
      && m2[y].height == 1 + Max(Lv(v, m[w].kids[1 - i]), Lv(v, m[y].kids[1 - i]))
      && m2[w].height == 1 + Max(m2[x].height, m2[y].height)
  {
    hide Linked, RotatedIn, TurnedSubs, Doubled;
    IsDoubled(s, m, root, x, i, m1, m2);
    FirstTurn(s, m, root, x, i, m1, m2);
    DoubleShape(s, m, root, x, i, m1, m2);
    var y := m[x].kids[1 - i];
    var w := m[y].kids[i];
    var s1 := TurnedSubs(s, m, y, 1 - i);
    TurnedKeys(s, m, y, 1 - i);
    RotatePair(s1, m1, root, x, i, m2);
    RotateRest(s1, m1, root, x, i, m2, y);
    KidHeights(v, s, m, root, x, isDelete, i);
    GrandHeights(v, s, m, root, x, isDelete, i, 1 - i);
    GreatHeights(v, s, m, root, x, isDelete, i, i);
    GreatHeights(v, s, m, root, x, isDelete, i, 1 - i);
    OuterHeights(s, m, root, x, i, m1, m2);
  }

  /** The subtrees outside the first rotation keep their heights in it. */
  lemma OuterHeights(s: Subs, m: Memory, root: Node?, x: Node, i: Side, m1: Memory, m2: Memory)
    requires Doubled(s, m, root, x, i, m1, m2)
    ensures var y := m[x].kids[1 - i]; var w := m[y].kids[i];
      && y in m && w != null && w in m
      && Hgt(m1, m[x].kids[i]) == Hgt(m, m[x].kids[i]) && Hgt(m1, m[w].kids[i]) == Hgt(m, m[w].kids[i])
  {
    hide Linked, RotatedIn, TurnedSubs, Doubled;
    IsDoubled(s, m, root, x, i, m1, m2);
    FirstTurn(s, m, root, x, i, m1, m2);
    var y := m[x].kids[1 - i];
    var w := m[y].kids[i];
    Around(s, m, root, x);
    Around(s, m, root, y);
    Around(s, m, root, w);
    Trio(s, m, root, x, i);
    Trio(s, m, root, y, 1 - i);
    var a, b := m[x].kids[i], m[w].kids[i];
    if a != null {
      assert a != w;
      RotateRest(s, m, root, y, 1 - i, m1, a);
    }
    if b != null {
      RotateRest(s, m, root, y, 1 - i, m1, b);
    }
  }

  lemma GreatHeights(v: Levels, s: Subs, m: Memory, root: Node?, x: Node, isDelete: bool, i: Side, j: Side)
    requires Linked(s, m, root) && Rising(v, s, m, x, isDelete) && CanRotate(m, x, i)
      && CanRotate(m, m[x].kids[1 - i], 1 - i)
    ensures Hgt(m, m[m[m[x].kids[1 - i]].kids[i]].kids[j]) == Lv(v, m[m[m[x].kids[1 - i]].kids[i]].kids[j])
  {
    hide Linked;
    Trio(s, m, root, x, i);
    var y := m[x].kids[1 - i];
    Trio(s, m, root, y, 1 - i);
    var c := m[m[y].kids[i]].kids[j];
    assert c == m[m[y].kids[i]].kids[i] || c == m[m[y].kids[i]].kids[1 - i];
    if c != null {
      Around(s, m, root, x);
      assert c in s[y] && x !in s[y];
      BelowBelow(s, m, root, y, c, x);
      assert m[c].height == v[c];
    }
  }

  /** What is not below a node is not below the nodes below it. */
  lemma BelowBelow(s: Subs, m: Memory, root: Node?, y: Node, c: Node, x: Node)
    requires Linked(s, m, root) && y in s && c in s && c in s[y] && x !in s[y]
    ensures x !in s[c]
  {
    if x in s[c] {
      Nested(s, m, root, y, c, x);
    }
  }

  lemma {:induction false} Nested(s: Subs, m: Memory, root: Node?, y: Node, c: Node, x: Node)
    requires Linked(s, m, root) && y in s && c in s && c in s[y] && x in s[c]
    ensures x in s[y]
    decreases s[y]
  {
    hide Linked;
    Around(s, m, root, y);
    if c != y {
      var k := if c in SubOf(s, m[y].kids[0]) then m[y].kids[0] else m[y].kids[1];
      assert k != null && k in s && c in s[k] && y !in s[k] && s[k] <= s[y];
      Nested(s, m, root, k, c, x);
    }
  }

  /** What a double rotation leaves alone. */
  lemma DoubleRest(s: Subs, m: Memory, root: Node?, x: Node, i: Side, m1: Memory, m2: Memory, n: Node)
    requires Doubled(s, m, root, x, i, m1, m2) && n in s && n != x && n != m[x].kids[1 - i]
    requires m[x].kids[1 - i] in m && n != m[m[x].kids[1 - i]].kids[i]
    ensures n in m && n in m2 && m2[n].height == m[n].height
    ensures n != m[x].parent ==> m2[n].kids == m[n].kids && forall j: Side {:trigger m[n].kids[j]} ::
      m[n].kids[j] != x && m[n].kids[j] != m[x].kids[1 - i] && m[n].kids[j] != m[m[x].kids[1 - i]].kids[i]
    ensures var y := m[x].kids[1 - i]; var s1 := TurnedSubs(s, m, y, 1 - i);
      x in s1 && CanRotate(m1, x, i) && n in TurnedSubs(s1, m1, x, i) && TurnedSubs(s1, m1, x, i)[n] == s[n]
  {
    hide Linked, RotatedIn, TurnedSubs, Doubled;
    IsDoubled(s, m, root, x, i, m1, m2);
    FirstTurn(s, m, root, x, i, m1, m2);
    Around(s, m, root, x);
    var y := m[x].kids[1 - i];
    var s1 := TurnedSubs(s, m, y, 1 - i);
    TurnedKeys(s, m, y, 1 - i);
    RotateRest(s, m, root, y, 1 - i, m1, n);
    RotateRest(s1, m1, root, x, i, m2, n);
  }

  lemma DoubleLevels(v: Levels, s: Subs, m: Memory, root: Node?, x: Node, i: Side, m1: Memory, m2: Memory,
      isDelete: bool, y: Node, w: Node, v': Levels)
    requires Doubled(s, m, root, x, i, m1, m2) && Rising(v, s, m, x, isDelete)
    requires y == m[x].kids[1 - i] && y in m && y in m2 && x in m2 && w == m[y].kids[i] && w in m && w in m2
    requires v' == v[x := m2[x].height][y := m2[y].height][w := m2[w].height]
    requires -1 <= Lv(v, m[x].kids[i]) - Lv(v, m[w].kids[i]) <= 1
    requires -1 <= Lv(v, m[w].kids[1 - i]) - Lv(v, m[y].kids[1 - i]) <= 1
    requires -1 <= m2[x].height - m2[y].height <= 1
    ensures forall n {:trigger LevelOk(v', m2, n)} :: n in s && n != m[x].parent ==> LevelOk(v', m2, n)
  {
    hide Linked, RotatedIn, TurnedSubs, Doubled, CanFix, Fixable, LevelOk;
    DoubleTrio(v, s, m, root, x, i, m1, m2, isDelete, y, w, v');
    forall n | n in s && n != m[x].parent
      ensures LevelOk(v', m2, n)
    {
      if n != x && n != y && n != w {
        DoubleRest(s, m, root, x, i, m1, m2, n);
        assert LevelOk(v, m, n);
        InLevels(v, m, n);
        LevelStays(v, v', m, m2, n);
      }
    }
  }

  lemma InLevels(v: Levels, m: Memory, n: Node)
    requires LevelOk(v, m, n)
    ensures n in v && n in m
  {
  }

  /** The three nodes of a double rotation. */
  lemma DoubleTrio(v: Levels, s: Subs, m: Memory, root: Node?, x: Node, i: Side, m1: Memory, m2: Memory, isDelete: bool,
      y: Node, w: Node, v': Levels)
    requires Doubled(s, m, root, x, i, m1, m2) && Rising(v, s, m, x, isDelete)
    requires y == m[x].kids[1 - i] && y in m && y in m2 && x in m2 && w == m[y].kids[i] && w in m && w in m2
    requires v' == v[x := m2[x].height][y := m2[y].height][w := m2[w].height]
    requires -1 <= Lv(v, m[x].kids[i]) - Lv(v, m[w].kids[i]) <= 1
    requires -1 <= Lv(v, m[w].kids[1 - i]) - Lv(v, m[y].kids[1 - i]) <= 1
    requires -1 <= m2[x].height - m2[y].height <= 1
    ensures LevelOk(v', m2, x) && LevelOk(v', m2, y) && LevelOk(v', m2, w)
  {
    hide Linked, RotatedIn, TurnedSubs, Doubled, CanFix, Fixable, Rising;
    IsDoubled(s, m, root, x, i, m1, m2);
    DoubleShape(s, m, root, x, i, m1, m2);
    DoubleHeights(v, s, m, root, x, i, m1, m2, isDelete);
    FourApart(s, m, root, x, i, y, w);
  }

  /** The four subtrees of a double rotation are none of its three nodes. */
  lemma FourApart(s: Subs, m: Memory, root: Node?, x: Node, i: Side, y: Node, w: Node)
    requires Linked(s, m, root) && x in s && CanRotate(m, x, i) && CanRotate(m, y, 1 - i) && y == m[x].kids[1 - i]
      && w == m[y].kids[i] && y in s
    ensures var a, b1, b2, c := m[x].kids[i], m[w].kids[i], m[w].kids[1 - i], m[y].kids[1 - i];
      && a != x && a != y && a != w && c != x && c != y && c != w
      && b1 != x && b1 != y && b1 != w && b2 != x && b2 != y && b2 != w
  {
    hide Linked;
    Trio(s, m, root, x, i);
    Trio(s, m, root, y, 1 - i);
    Around(s, m, root, w);
    Around(s, m, root, x);
  }

  lemma IsRising(v: Levels, s: Subs, m: Memory, x: Node, isDelete: bool)
    requires Rising(v, s, m, x, isDelete)
    ensures x in s && x in m && x in v && forall n {:trigger n in v} :: n in s ==> n in v && v[n] >= 1
  {
  }

  /** After the nodes in `moved` have their levels as heights, the rise goes on at `p`. */
  lemma RisesOn(v: Levels, s: Subs, m: Memory, x: Node, moved: set<Node>, v': Levels, s': Subs, m': Memory, p: Node?,
      isDelete: bool)
    requires Rising(v, s, m, x, isDelete) && (forall n {:trigger n in s'} :: n in s' ==> n in s)
    requires forall n {:trigger n in moved} :: n in moved ==> n in v' && n in m' && v'[n] == m'[n].height >= 1
    requires forall n {:trigger n in s} :: n in s && n !in moved ==> n in v ==> n in v' && v'[n] == v[n]
    requires forall n {:trigger n in s} :: n in s && n !in moved ==>
      n in m && n in m' && n in s' && s'[n] == s[n] && m'[n].height == m[n].height
        && (x in s[n] ==> p != null && p in s[n])
    requires forall n {:trigger LevelOk(v', m', n)} :: n in s && n != p ==> LevelOk(v', m', n)
    requires p != null ==> p in s' && p in m' && p in v' && Fixable(v', m', p, isDelete)
    ensures Rising(v', s', m', p, isDelete)
  {
    hide LevelOk, Fixable;
  }

  /** A double rotation, after which the parent is next. */
  lemma StepDouble(v: Levels, s: Subs, m: Memory, root: Node?, x: Node, i: Side, m1: Memory, m2: Memory, isDelete: bool,
      y: Node, w: Node, s2: Subs, v': Levels)
    requires Doubled(s, m, root, x, i, m1, m2) && Rising(v, s, m, x, isDelete)
    requires y == m[x].kids[1 - i] && y in m && w == m[y].kids[i] && w in m && x in m2 && y in m2 && w in m2
    requires CanRotate(m, y, 1 - i) && x in TurnedSubs(s, m, y, 1 - i) && CanRotate(m1, x, i)
      && s2 == TurnedSubs(TurnedSubs(s, m, y, 1 - i), m1, x, i)
    requires
      var a, b1, b2, c := Lv(v, m[x].kids[i]), Lv(v, m[w].kids[i]), Lv(v, m[w].kids[1 - i]), Lv(v, m[y].kids[1 - i]);
      var hx, hy := 1 + Max(a, b1), 1 + Max(b2, c);
      && a >= 0 && c >= 0 && -1 <= a - b1 <= 1 && -1 <= b2 - c <= 1 && -1 <= hx - hy <= 1
      && if isDelete then v[x] - 1 <= 1 + Max(hx, hy) <= v[x] else 1 + Max(hx, hy) == v[x]
    requires v' == v[x := m2[x].height][y := m2[y].height][w := m2[w].height]
    ensures Rising(v', s2, m2, m[x].parent, isDelete)
  {
    hide Linked, RotatedIn, TurnedSubs, Doubled, CanFix, Fixable, LevelOk, CanRotate, Rising;
    IsRising(v, s, m, x, isDelete);
    var p := m[x].parent;
    IsDoubled(s, m, root, x, i, m1, m2);
    DoubleHeights(v, s, m, root, x, i, m1, m2, isDelete);
    DoubleLevels(v, s, m, root, x, i, m1, m2, isDelete, y, w, v');
    FirstTurn(s, m, root, x, i, m1, m2);
    TurnedKeys(s, m, y, 1 - i);
    TurnedKeys(TurnedSubs(s, m, y, 1 - i), m1, x, i);
    forall n | n in s && n != x && n != y && n != w
      ensures n in m && n in m2 && n in s2 && s2[n] == s[n] && m2[n].height == m[n].height
        && (x in s[n] ==> p != null && p in s[n])
    {
      DoubleRest(s, m, root, x, i, m1, m2, n);
      if x in s[n] {
        ParentBelow(s, m, root, x, n);
      }
    }
    if p != null {
      DoubleParent(v, s, m, root, x, i, m1, m2, isDelete, y, w, v');
    }
    RisesOn(v, s, m, x, {x, y, w}, v', s2, m2, p, isDelete);
  }

  lemma DoubleParent(v: Levels, s: Subs, m: Memory, root: Node?, x: Node, i: Side, m1: Memory, m2: Memory,
      isDelete: bool, y: Node, w: Node, v': Levels)
    requires Doubled(s, m, root, x, i, m1, m2) && Rising(v, s, m, x, isDelete) && m[x].parent != null
    requires y == m[x].kids[1 - i] && y in m && w == m[y].kids[i] && w in m && x in m2 && y in m2 && w in m2
    requires v' == v[x := m2[x].height][y := m2[y].height][w := m2[w].height]
    requires if isDelete then v[x] - 1 <= m2[w].height <= v[x] else m2[w].height == v[x]
    ensures m[x].parent in s && m[x].parent in m2 && m[x].parent in v' && Fixable(v', m2, m[x].parent, isDelete)
  {
    hide Linked, RotatedIn, TurnedSubs, Doubled, CanFix, Fixable;
    IsDoubled(s, m, root, x, i, m1, m2);
    FirstTurn(s, m, root, x, i, m1, m2);
    var p := m[x].parent;
    var s1 := TurnedSubs(s, m, y, 1 - i);
    Around(s, m, root, x);
    Trio(s, m, root, x, i);
    var j := RotateParent(s1, m1, root, x, i, m2);
    RotateRest(s, m, root, y, 1 - i, m1, p);
    assert LevelOk(v, m, p);
    Arrive(v, v', m, m2, p, x, w, j, v[x], isDelete);
  }

  // ---------- which rotation ----------

  /** The heavy side of a node out of balance, in numbers. */
  lemma Heavy(v: Levels, s: Subs, m: Memory, root: Node?, x: Node, i: Side, isDelete: bool)
    requires Linked(s, m, root) && Rising(v, s, m, x, isDelete) && Lv(v, m[x].kids[1 - i]) >= Lv(v, m[x].kids[i]) + 2
    ensures CanRotate(m, x, i) && m[x].kids[1 - i] in s && m[x].kids[1 - i] in v
    ensures
      var y := m[x].kids[1 - i];
      var a, b, c := Lv(v, m[x].kids[i]), Lv(v, m[y].kids[i]), Lv(v, m[y].kids[1 - i]);
      && Hgt(m, m[x].kids[i]) == a && Hgt(m, y) == v[y] == a + 2 && Hgt(m, m[y].kids[i]) == b
        && Hgt(m, m[y].kids[1 - i]) == c
      && a >= 0 && -1 <= b - c <= 1 && 1 + Max(b, c) == a + 2 && (b == c ==> isDelete) && v[x] == if isDelete then a + 3
        else a + 2
  {
    hide Linked;
    Around(s, m, root, x);
    var y := m[x].kids[1 - i];
    KidHeights(v, s, m, root, x, isDelete, i);
    KidHeights(v, s, m, root, x, isDelete, 1 - i);
    GrandHeights(v, s, m, root, x, isDelete, i, i);
    GrandHeights(v, s, m, root, x, isDelete, i, 1 - i);
    assert LevelOk(v, m, y);
  }

  /** The inner grandchild of a node that needs the double rotation. */
  lemma Inner(v: Levels, s: Subs, m: Memory, root: Node?, x: Node, i: Side, isDelete: bool)
    requires Linked(s, m, root) && Rising(v, s, m, x, isDelete) && CanRotate(m, x, i) && m[x].kids[1 - i] in s
    requires Lv(v, m[m[x].kids[1 - i]].kids[i]) > 0
    ensures
      var y := m[x].kids[1 - i]; var w := m[y].kids[i];
      && CanRotate(m, y, 1 - i) && w != x && LevelOk(v, m, w) && Lv(v, m[w].kids[0]) >= 0 && Lv(v, m[w].kids[1]) >= 0
  {
    hide Linked;
    Trio(s, m, root, x, i);
    var y := m[x].kids[1 - i];
    var w := m[y].kids[i];
    Around(s, m, root, w);
    assert LevelOk(v, m, w);
  }

  /** A single rotation mends a node whose heavy child does not lean inwards. */
  lemma SingleMends(v: Levels, s: Subs, m: Memory, m': Memory, root: Node?, x: Node, i: Side, isDelete: bool)
    requires Linked(s, m, root) && Rising(v, s, m, x, isDelete) && Lv(v, m[x].kids[1 - i]) >= Lv(v, m[x].kids[i]) + 2
    requires RotatedIn(m, x, i, m') && Lv(v, m[m[x].kids[1 - i]].kids[i]) <= Lv(v, m[m[x].kids[1 - i]].kids[1 - i])
    ensures var y := m[x].kids[1 - i];
      && x in m' && y in m' && Rising(v[x := m'[x].height][y := m'[y].height], TurnedSubs(s, m, x, i), m', m[x].parent,
        isDelete)
  {
    hide Linked, Rising, RotatedIn;
    Heavy(v, s, m, root, x, i, isDelete);
    StepSingle(v, s, m, m', root, x, i, isDelete);
  }

  /** The node sets after both rotations. */
  ghost predicate IsTwice(s: Subs, m: Memory, m1: Memory, x: Node, i: Side, y: Node, s2: Subs) {
    && CanRotate(m, y, 1 - i) && y in s && x in TurnedSubs(s, m, y, 1 - i) && CanRotate(m1, x, i)
    && s2 == TurnedSubs(TurnedSubs(s, m, y, 1 - i), m1, x, i)
  }

  /** The levels after a double rotation. */
  ghost function Doubling(v: Levels, m: Memory, x: Node, y: Node, w: Node): Levels {
    v[x := Hgt(m, x)][y := Hgt(m, y)][w := Hgt(m, w)]
  }

  /** A double rotation mends one whose heavy child does. */
  lemma DoubleMends(v: Levels, s: Subs, m: Memory, root: Node?, x: Node, i: Side, m1: Memory, m2: Memory,
      isDelete: bool, y: Node, w: Node, s2: Subs)
    requires x in m && y == m[x].kids[1 - i] && y in m && w == m[y].kids[i] && w in m && x in m2 && y in m2 && w in m2
    requires IsTwice(s, m, m1, x, i, y, s2)
    requires Lv(v, y) >= Lv(v, m[x].kids[i]) + 2 && Lv(v, w) > Lv(v, m[y].kids[1 - i])
    requires Doubled(s, m, root, x, i, m1, m2) && Rising(v, s, m, x, isDelete)
    ensures Rising(Doubling(v, m2, x, y, w), s2, m2, m[x].parent, isDelete)
  {
    hide Linked, Rising, RotatedIn, Doubled, TurnedSubs;
    IsDoubled(s, m, root, x, i, m1, m2);
    Heavy(v, s, m, root, x, i, isDelete);
    Inner(v, s, m, root, x, i, isDelete);
    StepDouble(v, s, m, root, x, i, m1, m2, isDelete, y, w, s2, Doubling(v, m2, x, y, w));
  }

  // ---------- a new leaf ----------

  ghost function GrownSubs(s: Subs, p: Node, n: Node): Subs {
    map x | x in s.Keys + {n} :: if x == n then {n} else if p in s[x] then s[x] + {n} else s[x]
  }

  ghost function GrownMem(m: Memory, p: Node, i: Side, n: Node, key: int): Memory
    requires p in m
  {
    m[p := m[p].(kids := m[p].kids[i := n])][n := Fields(key, NoKids(), p, 1)]
  }

  function NoKids(): (r: Pair)
    ensures r[0] == null && r[1] == null
  {
    var r: seq<Node?> := [null, null];
    assert |r| == 2;
    r
  }

  /** `key` belongs below `p`: it is on the side of every node above on which `p` is. */
  ghost predicate BelongsBelow(s: Subs, m: Memory, p: Node, key: int) {
    p in s && forall q {:trigger p in s[q]} :: q in s && p in s[q] ==> OnSide(s, m, p, key, q)
  }

  ghost predicate OnSide(s: Subs, m: Memory, p: Node, key: int, q: Node) {
    && q in m && (p in SubOf(s, m[q].kids[0]) ==> key < m[q].key) && (p in SubOf(s, m[q].kids[1]) ==> m[q].key < key)
  }

  lemma GrowKid(s: Subs, m: Memory, root: Node?, p: Node, i: Side, n: Node, key: int, z: Node, j: Side)
    requires Linked(s, m, root) && BelongsBelow(s, m, p, key) && n !in s && p in m && m[p].kids[i] == null
      && Before(i, key, m[p].key)
    requires z in s && z in m
    ensures KidOk(GrownSubs(s, p, n), GrownMem(m, p, i, n, key), z, j)
    ensures !(z == p && j == i) ==> GrownMem(m, p, i, n, key)[z].kids[j] == m[z].kids[j]
  {
    hide Linked, SubOk, ParentOk;
    var s', m' := GrownSubs(s, p, n), GrownMem(m, p, i, n, key);
    Around(s, m, root, z);
    Around(s, m, root, p);
    var c := m[z].kids[j];
    OnlyNodes(s, m, root, n);
    if z == p && j == i {
      assert m'[z].kids[j] == n;
    } else {
      assert m'[z].kids[j] == c && c != n;
      if c != null && p in SubOf(s, c) {
        SubUp(s, m, z, j, p);
        assert OnSide(s, m, p, key, z);
        assert j == 0 || j == 1;
        assert Before(j, key, m[z].key);
      }
      assert forall w :: w in SubOf(s', c) ==> w in SubOf(s, c) || (w == n && p in SubOf(s, c));
      assert c != null ==> c in s' && c in m' && m'[c].parent == z;
      forall w | w in SubOf(s', c)
        ensures w in m' && Before(j, m'[w].key, m'[z].key)
      {
        assert w in SubOf(s, c) ==> w in m && Before(j, m[w].key, m[z].key);
      }
    }
  }

  lemma OnlyNodes(s: Subs, m: Memory, root: Node?, n: Node)
    requires Linked(s, m, root)
    ensures n in m <==> n in s
  {
  }

  lemma SubUp(s: Subs, m: Memory, z: Node, j: Side, w: Node)
    requires NodeOk(s, m, z) && w in SubOf(s, m[z].kids[j])
    ensures w in s[z]
  {
  }

  lemma GrowSub(s: Subs, m: Memory, root: Node?, p: Node, i: Side, n: Node, key: int, z: Node)
    requires Linked(s, m, root) && BelongsBelow(s, m, p, key) && n !in s && p in m && m[p].kids[i] == null
      && Before(i, key, m[p].key)
    requires z in s && z in m
    ensures SubOk(GrownSubs(s, p, n), GrownMem(m, p, i, n, key), z)
  {
    hide Linked, KidOk, ParentOk;
    var s', m' := GrownSubs(s, p, n), GrownMem(m, p, i, n, key);
    Around(s, m, root, z);
    Around(s, m, root, p);
    var l, r := m[z].kids[0], m[z].kids[1];
    assert forall w :: w in SubOf(s', l) <==> w in SubOf(s, l) || (w == n && p in SubOf(s, l));
    assert forall w :: w in SubOf(s', r) <==> w in SubOf(s, r) || (w == n && p in SubOf(s, r));
    assert SubOf(s', n) == {n};
    assert z == p ==> p !in SubOf(s, l) && p !in SubOf(s, r);
    assert z != p ==> m'[z].kids == m[z].kids;
  }

  lemma GrowParent(s: Subs, m: Memory, root: Node?, p: Node, i: Side, n: Node, key: int, z: Node)
    requires Linked(s, m, root) && BelongsBelow(s, m, p, key) && n !in s && p in m && m[p].kids[i] == null
      && Before(i, key, m[p].key)
    requires z in s && z in m
    ensures ParentOk(GrownSubs(s, p, n), GrownMem(m, p, i, n, key), z)
  {
    hide Linked, KidOk, SubOk;
    Around(s, m, root, z);
    Around(s, m, root, p);
  }

  /** A new leaf keeps the search tree. */
  lemma GrowLinked(s: Subs, m: Memory, root: Node?, p: Node, i: Side, n: Node, key: int)
    requires Linked(s, m, root) && BelongsBelow(s, m, p, key) && n !in s && p in m && m[p].kids[i] == null
      && Before(i, key, m[p].key)
    ensures Linked(GrownSubs(s, p, n), GrownMem(m, p, i, n, key), root)
  {
    hide KidOk, SubOk, ParentOk;
    var s', m' := GrownSubs(s, p, n), GrownMem(m, p, i, n, key);
    forall z | z in s'
      ensures NodeOk(s', m', z)
    {
      if z == n {
        GrowLeaf(s, m, p, i, n, key);
      } else {
        GrowKid(s, m, root, p, i, n, key, z, 0);
        GrowKid(s, m, root, p, i, n, key, z, 1);
        GrowSub(s, m, root, p, i, n, key, z);
        GrowParent(s, m, root, p, i, n, key, z);
      }
    }
    assert RootOk(s', m', root);
  }

  lemma GrowLeaf(s: Subs, m: Memory, p: Node, i: Side, n: Node, key: int)
    requires p in s && p in m && n != p
    ensures NodeOk(GrownSubs(s, p, n), GrownMem(m, p, i, n, key), n)
  {
    var m' := GrownMem(m, p, i, n, key);
    assert m'[p].kids[i] == n;
  }

  /** The levels after a new leaf: its parent is the first node to look at. */
  lemma GrowRising(v: Levels, s: Subs, m: Memory, root: Node?, p: Node, i: Side, n: Node, key: int)
    requires Linked(s, m, root) && BelongsBelow(s, m, p, key) && n !in s && p in m && m[p].kids[i] == null
      && Before(i, key, m[p].key)
    requires Rising(v, s, m, null, false)
    ensures Rising(v[n := 1], GrownSubs(s, p, n), GrownMem(m, p, i, n, key), p, false)
  {
    hide Linked, LevelOk, Fixable, KidOk, ParentOk;
    GrowLevels(v, s, m, root, p, i, n, key);
    GrowFix(v, s, m, root, p, i, n, key);
    Around(s, m, root, p);
    forall z | z in s && z != p
      ensures z in m && z in v && m[z].height == v[z]
    {
      Around(s, m, root, z);
    }
  }

  lemma GrowLevels(v: Levels, s: Subs, m: Memory, root: Node?, p: Node, i: Side, n: Node, key: int)
    requires Linked(s, m, root) && n !in s && p in s && p in m && m[p].kids[i] == null && Rising(v, s, m, null, false)
    ensures forall z {:trigger LevelOk(v[n := 1], GrownMem(m, p, i, n, key), z)} ::
      (z in s || z == n) && z != p ==> LevelOk(v[n := 1], GrownMem(m, p, i, n, key), z)
  {
    hide Linked, KidOk, ParentOk, SubOk, Fixable;
    var v', m' := v[n := 1], GrownMem(m, p, i, n, key);
    OnlyNodes(s, m, root, n);
    forall z | (z in s || z == n) && z != p
      ensures LevelOk(v', m', z)
    {
      if z != n {
        Around(s, m, root, z);
        assert LevelOk(v, m, z);
        LevelStays(v, v', m, m', z);
      }
    }
  }

  lemma GrowFix(v: Levels, s: Subs, m: Memory, root: Node?, p: Node, i: Side, n: Node, key: int)
    requires Linked(s, m, root) && n !in s && p in s && p in m && m[p].kids[i] == null && Rising(v, s, m, null, false)
    ensures p in GrownMem(m, p, i, n, key) && p in v[n := 1] && Fixable(v[n := 1], GrownMem(m, p, i, n, key), p, false)
  {
    hide Linked, KidOk, ParentOk, SubOk;
    Around(s, m, root, p);
    assert LevelOk(v, m, p);
    OnlyNodes(s, m, root, n);
    var m' := GrownMem(m, p, i, n, key);
    assert m'[p].kids[i] == n && m'[p].kids[1 - i] == m[p].kids[1 - i];
  }

  // ---------- a node with at most one child taken out ----------

  /** `c` is the only child of `v`, or null. */
  ghost predicate CanSplice(m: Memory, v: Node, c: Node?) {
    v in m && ((m[v].kids[0] == null && c == m[v].kids[1]) || (m[v].kids[1] == null && c == m[v].kids[0]))
  }

  ghost function SplicedSubs(s: Subs, v: Node): Subs {
    map x | x in s && x != v :: s[x] - {v}
  }

  ghost function Spliced(m: Memory, v: Node, c: Node?, z: Node): Fields
    requires v in m && z in m
  {
    if z == c then m[z].(parent := m[v].parent)
    else if z == m[v].parent then m[z].(kids := Swapped(m[z].kids, v, c))
    else m[z]
  }

  ghost function SplicedMem(m: Memory, v: Node, c: Node?): Memory
    requires v in m
  {
    map z | z in m && z != v :: Spliced(m, v, c, z)
  }

  lemma OneChild(s: Subs, m: Memory, root: Node?, v: Node, c: Node?)
    requires Linked(s, m, root) && v in s && CanSplice(m, v, c)
    ensures v in m && v in s[v] && v !in SubOf(s, c)
      && (forall z {:trigger z in s[v]} :: z in s[v] ==> z == v || z in SubOf(s, c))
    ensures (forall z {:trigger z in SubOf(s, c)} :: z in SubOf(s, c) ==> z in s[v])
    ensures c != null ==> c in s && c in m && c != v && m[c].parent == v && c in SubOf(s, c)
    ensures m[v].parent != null ==> m[v].parent in s && m[v].parent in m && m[v].parent != v && m[v].parent != c
  {
    hide Linked;
    Around(s, m, root, v);
    if m[v].parent != null {
      Around(s, m, root, m[v].parent);
      if c != null {
        Around(s, m, root, c);
        assert v in SubOf(s, v);
      }
    }
  }

  lemma SpliceKid(s: Subs, m: Memory, root: Node?, v: Node, c: Node?, z: Node, j: Side)
    requires Linked(s, m, root) && v in s && CanSplice(m, v, c)
    requires z in s && z in m && z != v
    ensures KidOk(SplicedSubs(s, v), SplicedMem(m, v, c), z, j)
    ensures SubOf(SplicedSubs(s, v), SplicedMem(m, v, c)[z].kids[j]) == SubOf(s, m[z].kids[j]) - {v}
  {
    hide Linked, SubOk, ParentOk;
    var s', m' := SplicedSubs(s, v), SplicedMem(m, v, c);
    Around(s, m, root, z);
    Around(s, m, root, v);
    OneChild(s, m, root, v, c);
    var k := m[z].kids[j];
    if k == v {
      assert m'[z].kids[j] == c;
      assert SubOf(s', c) == SubOf(s, v) - {v};
    } else {
      assert m'[z].kids[j] == k && (k != c || k == null);
      assert SubOf(s', k) == SubOf(s, k) - {v};
    }
    KidLess(s, m, s', m', z, j, v);
  }

  /** A child pointer that leads to the same nodes as before, but for one. */
  lemma KidLess(s: Subs, m: Memory, s': Subs, m': Memory, z: Node, j: Side, v: Node)
    requires z in m && z in m' && m'[z].key == m[z].key && KidOk(s, m, z, j)
    requires SubOf(s', m'[z].kids[j]) == SubOf(s, m[z].kids[j]) - {v}
    requires m'[z].kids[j] != null ==> m'[z].kids[j] in s' && m'[z].kids[j] in m' && m'[m'[z].kids[j]].parent == z
    requires forall w {:trigger w in m'} {:trigger w in m} :: w in m && w != v ==> w in m' && m'[w].key == m[w].key
    ensures KidOk(s', m', z, j)
  {
  }

  lemma SpliceRest(s: Subs, m: Memory, root: Node?, v: Node, c: Node?, z: Node)
    requires Linked(s, m, root) && v in s && CanSplice(m, v, c)
    requires z in s && z in m && z != v
    ensures ParentOk(SplicedSubs(s, v), SplicedMem(m, v, c), z)
    ensures SubOk(SplicedSubs(s, v), SplicedMem(m, v, c), z)
  {
    hide Linked, KidOk;
    var s', m' := SplicedSubs(s, v), SplicedMem(m, v, c);
    Around(s, m, root, z);
    Around(s, m, root, v);
    OneChild(s, m, root, v, c);
    SpliceKid(s, m, root, v, c, z, 0);
    SpliceKid(s, m, root, v, c, z, 1);
  }

  /** Taking out a node with at most one child keeps the search tree. */
  lemma SpliceLinked(s: Subs, m: Memory, root: Node?, v: Node, c: Node?)
    requires Linked(s, m, root) && v in s && CanSplice(m, v, c)
    ensures Linked(SplicedSubs(s, v), SplicedMem(m, v, c), NewRoot(root, v, c))
  {
    hide KidOk, SubOk, ParentOk;
    var s', m' := SplicedSubs(s, v), SplicedMem(m, v, c);
    forall z | z in s'
      ensures NodeOk(s', m', z)
    {
      SpliceKid(s, m, root, v, c, z, 0);
      SpliceKid(s, m, root, v, c, z, 1);
      SpliceRest(s, m, root, v, c, z);
    }
    OneChild(s, m, root, v, c);
    Around(s, m, root, v);
    assert RootOk(s', m', NewRoot(root, v, c));
  }

  /** The heights of the nodes that stay are their levels. */
  lemma SpliceHeights(v0: Levels, s: Subs, m: Memory, root: Node?, v: Node, c: Node?)
    requires Linked(s, m, root) && v in s && CanSplice(m, v, c) && Rising(v0, s, m, null, true)
    ensures forall z {:trigger z in SplicedSubs(s, v)} {:trigger SplicedMem(m, v, c)[z]} ::
      z in SplicedSubs(s, v) ==>
        && z in s && z != v && z in v0 && v0[z] >= 1 && z in SplicedMem(m, v, c)
        && SplicedMem(m, v, c)[z].height == v0[z] && SplicedSubs(s, v)[z] == s[z] - {v} && z in SplicedSubs(s, v)[z]
  {
    hide Linked, LevelOk;
    forall z | z in s && z != v
      ensures z in m && z in v0 && v0[z] >= 1 && m[z].height == v0[z] && z in s[z]
    {
      Around(s, m, root, z);
    }
  }

  /** The levels after a node is taken out, seen from its parent. */
  lemma SpliceRisingUp(v0: Levels, s: Subs, m: Memory, root: Node?, v: Node, c: Node?)
    requires Linked(s, m, root) && v in s && CanSplice(m, v, c)
    requires Rising(v0, s, m, null, true)
    ensures Rising(v0 - {v}, SplicedSubs(s, v), SplicedMem(m, v, c), m[v].parent, true)
  {
    hide Linked, KidOk, ParentOk, SubOk, Fixable, LevelOk, CanSplice, SplicedSubs, SplicedMem;
    OneChild(s, m, root, v, c);
    var v', p := v0 - {v}, m[v].parent;
    SpliceHeights(v0, s, m, root, v, c);
    SpliceLevels(v0, s, m, root, v, c, v');
    SpliceBounds(s, v, p);
    if p != null {
      SpliceParent(v0, s, m, root, v, c);
    }
  }

  lemma SpliceBounds(s: Subs, v: Node, p: Node?)
    ensures p != null && p in s && p != v ==> p in SplicedSubs(s, v)
  {
  }

  /** The parent of the node taken out, whose subtree may have become lower by one. */
  lemma SpliceParent(v0: Levels, s: Subs, m: Memory, root: Node?, v: Node, c: Node?)
    requires Linked(s, m, root) && v in s && CanSplice(m, v, c) && m[v].parent != null
    requires Rising(v0, s, m, null, true)
    ensures var p := m[v].parent;
      p in s && p != v && p in SplicedMem(m, v, c) && p in v0 && Fixable(v0 - {v}, SplicedMem(m, v, c), p, true)
  {
    hide Linked, SubOk;
    var v', s', m', p := v0 - {v}, SplicedSubs(s, v), SplicedMem(m, v, c), m[v].parent;
    Around(s, m, root, v);
    OneChild(s, m, root, v, c);
    Around(s, m, root, p);
    var j: Side := if m[p].kids[0] == v then 0 else 1;
    assert LevelOk(v0, m, p) && LevelOk(v0, m, v);
    assert m'[p].kids[j] == c && m'[p].kids[1 - j] == m[p].kids[1 - j];
    StepNumbers(Lv(v0, m[p].kids[1 - j]), v0[v], Lv(v', c), v0[p], true);
  }

  lemma SpliceLevels(v0: Levels, s: Subs, m: Memory, root: Node?, v: Node, c: Node?, v': Levels)
    requires Linked(s, m, root) && v in s && CanSplice(m, v, c)
    requires Rising(v0, s, m, null, true)
    requires forall z {:trigger z in v'} :: z in s && z != v && z != c ==> z in v' && z in v0 && v'[z] == v0[z]
    ensures forall z {:trigger LevelOk(v', SplicedMem(m, v, c), z)} ::
      z in s && z != v && z != c && z != m[v].parent ==> LevelOk(v', SplicedMem(m, v, c), z)
    ensures c != null && c in v' && c in v0 && v'[c] == v0[c] ==> LevelOk(v', SplicedMem(m, v, c), c)
  {
    hide Linked;
    var m' := SplicedMem(m, v, c);
    Around(s, m, root, v);
    OneChild(s, m, root, v, c);
    forall z | z in s && z != v && z != m[v].parent && (z != c || (c in v' && c in v0 && v'[c] == v0[c]))
      ensures LevelOk(v', m', z)
    {
      Around(s, m, root, z);
      assert LevelOk(v0, m, z);
      LevelStays(v0, v', m, m', z);
    }
  }

  /** The levels seen from the child that has moved up. */
  lemma SpliceRisingAt(v0: Levels, s: Subs, m: Memory, root: Node?, v: Node, c: Node)
    requires Linked(s, m, root) && v in s && CanSplice(m, v, c)
    requires Rising(v0, s, m, null, true) && c in v0 && v in v0
    ensures Rising((v0 - {v})[c := v0[v]], SplicedSubs(s, v), SplicedMem(m, v, c), c, true)
  {
    hide Linked, KidOk, ParentOk, SubOk, Fixable, LevelOk, CanSplice, SplicedSubs, SplicedMem;
    var v' := (v0 - {v})[c := v0[v]];
    OneChild(s, m, root, v, c);
    SpliceHeights(v0, s, m, root, v, c);
    SpliceLevels(v0, s, m, root, v, c, v');
    SpliceBounds(s, v, c);
    SpliceBounds(s, v, m[v].parent);
    SpliceChild(v0, s, m, root, v, c);
    if m[v].parent != null {
      SpliceAbove(v0, s, m, root, v, c);
    }
  }

  /** The child that moved up takes over the level of the node taken out, which its subtree misses by one. */
  lemma SpliceChild(v0: Levels, s: Subs, m: Memory, root: Node?, v: Node, c: Node)
    requires Linked(s, m, root) && v in s && CanSplice(m, v, c) && Rising(v0, s, m, null, true) && v in v0
    ensures c in s && c != v && c in SplicedMem(m, v, c) && v0[v] >= 1
    ensures Fixable((v0 - {v})[c := v0[v]], SplicedMem(m, v, c), c, true)
  {
    hide Linked, SubOk, KidOk, ParentOk;
    Around(s, m, root, v);
    OneChild(s, m, root, v, c);
    Around(s, m, root, c);
    assert LevelOk(v0, m, v) && LevelOk(v0, m, c);
    var m' := SplicedMem(m, v, c);
    assert m'[c].kids == m[c].kids;
  }

  lemma SpliceAbove(v0: Levels, s: Subs, m: Memory, root: Node?, v: Node, c: Node)
    requires Linked(s, m, root) && v in s && CanSplice(m, v, c) && Rising(v0, s, m, null, true) && v in v0
    requires m[v].parent != null
    ensures LevelOk((v0 - {v})[c := v0[v]], SplicedMem(m, v, c), m[v].parent)
  {
    hide Linked, SubOk, KidOk;
    var v', m', p := (v0 - {v})[c := v0[v]], SplicedMem(m, v, c), m[v].parent;
    Around(s, m, root, v);
    OneChild(s, m, root, v, c);
    Around(s, m, root, p);
    assert LevelOk(v0, m, p);
    var j: Side := if m[p].kids[0] == v then 0 else 1;
    assert m'[p].kids[j] == c && m'[p].kids[1 - j] == m[p].kids[1 - j];
  }

  // ---------- one node in place of another ----------

  /** `key` lies between the same keys as that of `n`. */
  ghost predicate Takes(s: Subs, m: Memory, n: Node, key: int)
    requires n in m
  {
    forall z {:trigger m[z].key} :: z in s && z in m && z != n ==>
      m[z].key != key && (m[z].key < m[n].key <==> m[z].key < key) && (m[n].key < m[z].key <==> key < m[z].key)
  }

  ghost function PutSubs(s: Subs, n: Node, r: Node): Subs
    requires n in s
  {
    map x | x in s.Keys + {r} && x != n :: Exchanged(if x == r then s[n] else s[x], n, r)
  }

  ghost function Exchanged(t: set<Node>, n: Node, r: Node): set<Node> {
    if n in t then t - {n} + {r} else t
  }

  ghost function Put(m: Memory, n: Node, r: Node, key: int, h: int, z: Node): Fields
    requires n in m && (z == r || z in m)
  {
    if z == r then Fields(key, m[n].kids, m[n].parent, h)
    else if z == m[n].kids[0] || z == m[n].kids[1] then m[z].(parent := r)
    else if z == m[n].parent then m[z].(kids := Swapped(m[z].kids, n, r))
    else m[z]
  }

  ghost function PutMem(m: Memory, n: Node, r: Node, key: int, h: int): Memory
    requires n in m
  {
    map z | z in m.Keys + {r} && z != n :: Put(m, n, r, key, h, z)
  }

  lemma PutSub(s: Subs, n: Node, r: Node, k: Node?)
    requires n in s && r !in s && k != r
    ensures SubOf(PutSubs(s, n, r), if k == n then r else k) == Exchanged(SubOf(s, k), n, r)
  {
  }

  lemma PutKid(s: Subs, m: Memory, root: Node?, n: Node, r: Node, key: int, h: int, z: Node, j: Side)
    requires Linked(s, m, root) && n in s && n in m && r !in s && Takes(s, m, n, key)
    requires z in s && z in m && z != n
    ensures KidOk(PutSubs(s, n, r), PutMem(m, n, r, key, h), z, j)
    ensures PutMem(m, n, r, key, h)[z].kids[j] == if m[z].kids[j] == n then r else m[z].kids[j]
  {
    hide Linked, SubOk, ParentOk;
    var s', m' := PutSubs(s, n, r), PutMem(m, n, r, key, h);
    OnlyNodes(s, m, root, r);
    Around(s, m, root, z);
    Around(s, m, root, n);
    var k := m[z].kids[j];
    PutSub(s, n, r, k);
    var k' := m'[z].kids[j];
    assert k' == if k == n then r else k;
    assert k' != null ==> k' in s' && k' in m' && m'[k'].parent == z;
    forall w | w in SubOf(s', k')
      ensures w in m' && Before(j, m'[w].key, m'[z].key)
    {
      PutBefore(s, m, n, r, key, h, z, j, w);
    }
  }

  lemma PutBefore(s: Subs, m: Memory, n: Node, r: Node, key: int, h: int, z: Node, j: Side, w: Node)
    requires n in s && n in m && r !in s && Takes(s, m, n, key) && z in s && z in m && z != n && z != r
    requires KidOk(s, m, z, j) && r !in SubOf(s, m[z].kids[j])
    requires w in Exchanged(SubOf(s, m[z].kids[j]), n, r)
    ensures w in PutMem(m, n, r, key, h)
    ensures z in PutMem(m, n, r, key, h)
    ensures Before(j, PutMem(m, n, r, key, h)[w].key, PutMem(m, n, r, key, h)[z].key)
  {
    var t := SubOf(s, m[z].kids[j]);
    assert w != r ==> w in t && w in m && w != n;
    assert w == r ==> n in t;
  }

  lemma PutParent(s: Subs, m: Memory, root: Node?, n: Node, r: Node, key: int, h: int, z: Node)
    requires Linked(s, m, root) && n in s && n in m && r !in s && Takes(s, m, n, key)
    requires z in s && z in m && z != n
    ensures ParentOk(PutSubs(s, n, r), PutMem(m, n, r, key, h), z)
  {
    hide Linked, KidOk, SubOk, Takes;
    OnlyNodes(s, m, root, r);
    Around(s, m, root, z);
    Around(s, m, root, n);
  }

  lemma PutBelow(s: Subs, m: Memory, root: Node?, n: Node, r: Node, key: int, h: int, z: Node)
    requires Linked(s, m, root) && n in s && n in m && r !in s && Takes(s, m, n, key)
    requires z in s && z in m && z != n
    ensures SubOk(PutSubs(s, n, r), PutMem(m, n, r, key, h), z)
  {
    hide Linked, KidOk, ParentOk, Takes;
    OnlyNodes(s, m, root, r);
    Around(s, m, root, z);
    Around(s, m, root, n);
    PutKid(s, m, root, n, r, key, h, z, 0);
    PutKid(s, m, root, n, r, key, h, z, 1);
    PutSub(s, n, r, m[z].kids[0]);
    PutSub(s, n, r, m[z].kids[1]);
  }

  lemma PutHere(s: Subs, m: Memory, root: Node?, n: Node, r: Node, key: int, h: int)
    requires Linked(s, m, root) && n in s && n in m && r !in s && Takes(s, m, n, key)
    ensures NodeOk(PutSubs(s, n, r), PutMem(m, n, r, key, h), r)
  {
    hide Linked, KidOk, Takes;
    OnlyNodes(s, m, root, r);
    Around(s, m, root, n);
    PutHereKid(s, m, root, n, r, key, h, 0);
    PutHereKid(s, m, root, n, r, key, h, 1);
  }

  lemma PutHereKid(s: Subs, m: Memory, root: Node?, n: Node, r: Node, key: int, h: int, j: Side)
    requires Linked(s, m, root) && n in s && n in m && r !in s && Takes(s, m, n, key)
    ensures r in PutMem(m, n, r, key, h) && KidOk(PutSubs(s, n, r), PutMem(m, n, r, key, h), r, j)
    ensures PutMem(m, n, r, key, h)[r].kids == m[n].kids
    ensures SubOf(PutSubs(s, n, r), m[n].kids[j]) == SubOf(s, m[n].kids[j])
  {
    hide Linked, SubOk, ParentOk;
    var s', m' := PutSubs(s, n, r), PutMem(m, n, r, key, h);
    OnlyNodes(s, m, root, r);
    Around(s, m, root, n);
    var c := m[n].kids[j];
    PutSub(s, n, r, c);
    assert n !in SubOf(s, c) && c != n;
    forall w | w in SubOf(s, c)
      ensures w in m' && m'[w].key == m[w].key && Before(j, m[w].key, key)
    {
      InSubs(s, m, root, n, j, w);
      assert m[w].key == m[w].key;
    }
  }

  lemma InSubs(s: Subs, m: Memory, root: Node?, n: Node, j: Side, w: Node)
    requires Linked(s, m, root) && n in s && n in m && w in SubOf(s, m[n].kids[j])
    ensures w in m && w in s && w != n && Before(j, m[w].key, m[n].key)
  {
    Around(s, m, root, n);
  }

  /** A node that takes the place of another keeps the search tree. */
  lemma PutLinked(s: Subs, m: Memory, root: Node?, n: Node, r: Node, key: int, h: int)
    requires Linked(s, m, root) && n in s && n in m && r !in s && Takes(s, m, n, key)
    ensures Linked(PutSubs(s, n, r), PutMem(m, n, r, key, h), NewRoot(root, n, r))
  {
    hide KidOk, SubOk, ParentOk, Takes;
    var s', m' := PutSubs(s, n, r), PutMem(m, n, r, key, h);
    forall z | z in s'
      ensures NodeOk(s', m', z)
    {
      if z == r {
        PutHere(s, m, root, n, r, key, h);
      } else {
        PutKid(s, m, root, n, r, key, h, z, 0);
        PutKid(s, m, root, n, r, key, h, z, 1);
        PutParent(s, m, root, n, r, key, h, z);
        PutBelow(s, m, root, n, r, key, h, z);
      }
    }
    Around(s, m, root, n);
    assert RootOk(s', m', NewRoot(root, n, r));
  }

  /** The levels after a node has taken the place of another above the node to look at. */
  lemma PutRising(v0: Levels, s: Subs, m: Memory, root: Node?, n: Node, r: Node, key: int, h: int, q: Node)
    requires Linked(s, m, root) && n in s && n in m && r !in s && Takes(s, m, n, key)
    requires Rising(v0, s, m, q, true) && q in s[n] && n in v0
    ensures Rising((v0 - {n})[r := v0[n]], PutSubs(s, n, r), PutMem(m, n, r, key, h), if q == n then r else q, true)
  {
    hide Linked, Takes, CanFix, PutMem;
    var v', s', m' := (v0 - {n})[r := v0[n]], PutSubs(s, n, r), PutMem(m, n, r, key, h);
    OnlyNodes(s, m, root, r);
    Around(s, m, root, n);
    var q' := if q == n then r else q;
    forall z | z in s'
      ensures z != q' ==> LevelOk(v', m', z)
      ensures z in m' && (q' !in s'[z] ==> m'[z].height == v'[z])
    {
      PutLevel(v0, s, m, root, n, r, key, h, q, z);
    }
    PutLevelKids(v0, s, m, root, n, r, key, h, q');
  }

  lemma PutLevel(v0: Levels, s: Subs, m: Memory, root: Node?, n: Node, r: Node, key: int, h: int, q: Node, z: Node)
    requires Linked(s, m, root) && n in s && n in m && r !in s && Takes(s, m, n, key)
    requires Rising(v0, s, m, q, true) && q in s[n] && n in v0 && (z == r || (z in s && z != n))
    ensures
      var v', s', m', q' := (v0 - {n})[r := v0[n]], PutSubs(s, n, r), PutMem(m, n, r, key, h), if q == n then r else q;
      (z != q' ==> LevelOk(v', m', z)) && z in m' && z in s' && z in v' && (q' !in s'[z] ==> m'[z].height == v'[z])
  {
    hide Linked, Takes, CanFix, Fixable;
    OnlyNodes(s, m, root, r);
    Around(s, m, root, n);
    PutLevelKids(v0, s, m, root, n, r, key, h, z);
    var z0 := if z == r then n else z;
    assert z0 != q ==> LevelOk(v0, m, z0);
    Around(s, m, root, z0);
  }

  /** Levels below a node stay when one node is put for another. */
  lemma PutLevelKids(v0: Levels, s: Subs, m: Memory, root: Node?, n: Node, r: Node, key: int, h: int, z: Node)
    requires Linked(s, m, root) && n in s && n in m && r !in s && Takes(s, m, n, key) && n in v0
    requires z == r || (z in s && z != n)
    ensures
      var v', m', z0 := (v0 - {n})[r := v0[n]], PutMem(m, n, r, key, h), if z == r then n else z;
      && z in m' && z0 in m && (forall j: Side {:trigger m'[z].kids[j]} :: m'[z].kids[j] == if m[z0].kids[j] == n then r
        else m[z0].kids[j])
      && Lv(v', m'[z].kids[0]) == Lv(v0, m[z0].kids[0]) && Lv(v', m'[z].kids[1]) == Lv(v0, m[z0].kids[1])
  {
    hide Linked;
    var v', m', z0 := (v0 - {n})[r := v0[n]], PutMem(m, n, r, key, h), if z == r then n else z;
    OnlyNodes(s, m, root, r);
    Around(s, m, root, z0);
    Around(s, m, root, n);
    if z != r {
      PutKid(s, m, root, n, r, key, h, z, 0);
      PutKid(s, m, root, n, r, key, h, z, 1);
    }
    assert m[z0].kids[0] != r && m[z0].kids[1] != r;
  }

  // ---------- the way of a key ----------

  /** The nodes with the key, if there are any, are below `p`. */
  ghost predicate LeadsTo(s: Subs, m: Memory, p: Node, key: int) {
    && BelongsBelow(s, m, p, key)
    && forall z {:trigger z in s} :: z in s && z in m && m[z].key == key ==> z in s[p]
  }

  lemma LeadsRoot(s: Subs, m: Memory, root: Node, key: int)
    requires Linked(s, m, root)
    ensures LeadsTo(s, m, root, key)
  {
    hide Linked;
    RootSub(s, m, root);
    forall q | q in s && root in s[q]
      ensures OnSide(s, m, root, key, q)
    {
      Around(s, m, root, q);
      if q != root {
        ParentBelow(s, m, root, root, q);
      }
    }
  }

  lemma RootSub(s: Subs, m: Memory, root: Node)
    requires Linked(s, m, root)
    ensures root in s && root in m && m[root].parent == null && forall z {:trigger z in s} :: z in s ==> z in s[root]
  {
  }

  lemma LeadsDown(s: Subs, m: Memory, root: Node?, p: Node, key: int, i: Side)
    requires Linked(s, m, root) && LeadsTo(s, m, p, key) && p in m && Before(i, key, m[p].key)
    ensures m[p].kids[i] != null ==> m[p].kids[i] in s && LeadsTo(s, m, m[p].kids[i], key) && s[m[p].kids[i]] < s[p]
    ensures m[p].kids[i] == null ==> forall z {:trigger z in s} :: z in s && z in m ==> m[z].key != key
  {
    hide Linked;
    Around(s, m, root, p);
    var c := m[p].kids[i];
    forall z | z in s && z in m && m[z].key == key
      ensures z in SubOf(s, c)
    {
      assert z in s[p] && z != p;
    }
    if c != null {
      assert SubOf(s, c) == s[c] && p !in s[c];
      forall q | q in s && c in s[q]
        ensures OnSide(s, m, c, key, q)
      {
        SideStays(s, m, root, p, key, i, q);
      }
    }
  }

  lemma SideStays(s: Subs, m: Memory, root: Node?, p: Node, key: int, i: Side, q: Node)
    requires Linked(s, m, root) && BelongsBelow(s, m, p, key) && p in m && m[p].kids[i] != null
      && Before(i, key, m[p].key)
    requires q in s && m[p].kids[i] in s[q]
    ensures OnSide(s, m, m[p].kids[i], key, q)
  {
    hide Linked;
    var c := m[p].kids[i];
    Around(s, m, root, p);
    Around(s, m, root, q);
    if q != c && q != p {
      ParentBelow(s, m, root, c, q);
      assert OnSide(s, m, p, key, q);
      forall j: Side | c in SubOf(s, m[q].kids[j])
        ensures p in SubOf(s, m[q].kids[j])
      {
        ParentBelow(s, m, root, c, m[q].kids[j]);
      }
    } else if q == p {
      assert c !in SubOf(s, m[p].kids[1 - i]);
    }
  }

  /** Keys outside a subtree are on one side of it. */
  lemma Convex(s: Subs, m: Memory, root: Node?, x: Node, n: Node)
    requires Linked(s, m, root) && x in s && n in s && n !in s[x]
    ensures n in m && ((forall z {:trigger z in s[x]} :: z in s[x] ==> z in m && m[z].key < m[n].key)
      || (forall z {:trigger z in s[x]} :: z in s[x] ==> z in m && m[n].key < m[z].key))
  {
    hide Linked;
    NonNull(s, m, root, x);
    RootSub(s, m, root);
    ConvexBelow(s, m, root, x, n, root);
  }

  lemma NonNull(s: Subs, m: Memory, root: Node?, x: Node)
    requires Linked(s, m, root) && x in s
    ensures root != null
  {
  }

  lemma {:induction false} ConvexBelow(s: Subs, m: Memory, root: Node?, x: Node, n: Node, q: Node)
    requires Linked(s, m, root) && x in s && n in s && n !in s[x] && q in s && x in s[q] && n in s[q]
    ensures n in m && ((forall z {:trigger z in s[x]} :: z in s[x] ==> z in m && m[z].key < m[n].key)
      || (forall z {:trigger z in s[x]} :: z in s[x] ==> z in m && m[n].key < m[z].key))
    decreases s[q]
  {
    hide Linked;
    Around(s, m, root, q);
    Around(s, m, root, n);
    var l, r := m[q].kids[0], m[q].kids[1];
    assert l != null ==> SubOf(s, l) == s[l] && q !in s[l] && s[l] < s[q];
    assert r != null ==> SubOf(s, r) == s[r] && q !in s[r] && s[r] < s[q];
    assert x != q;
    if x in SubOf(s, l) && n in SubOf(s, l) {
      ConvexBelow(s, m, root, x, n, l);
    } else if x in SubOf(s, r) && n in SubOf(s, r) {
      ConvexBelow(s, m, root, x, n, r);
    } else {
      var k := if x in SubOf(s, l) then l else r;
      forall z | z in s[x]
        ensures z in SubOf(s, k)
      {
        Nested(s, m, root, k, x, z);
      }
    }
  }
}
