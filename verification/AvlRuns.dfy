/** Runs of the AVL tree against a finite map, and the order of its nodes. */
module AvlRuns {
  import opened AvlShape
  import opened AvlOrder
  import opened Avl

  /** The nodes of a tree from left to right. */
  ghost function Order(t: Tree): seq<Node>
    reads t, t.subs.Keys
  {
    InOrder(t.subs, t.M(), t.root)
  }

  lemma OrderIs(t: Tree)
    requires t.Valid()
    ensures Ascending(t.M(), Order(t)) && Lists(Order(t), t.subs.Keys)
  {
    hide Linked, Rising, Mem, InOrder;
    Tree.MemIs(t.subs.Keys);
    Tree.NoRoot(t.subs, t.M(), t.root);
    if t.root != null {
      RootSub(t.subs, t.M(), t.root);
      t.Sides(t.root);
    }
    InOrderAscends(t.subs, t.M(), t.root, t.root);
    assert SubOf(t.subs, t.root) == t.subs.Keys;
  }

  lemma IsShaped(t: Tree)
    requires t.Valid()
    ensures t.Shaped() && Linked(t.subs, t.M(), t.root)
  {
  }

  lemma KeysAgree(m: Memory, m': Memory, q: seq<Node>)
    requires Ascending(m, q) && forall n :: n in q ==> n in m' && (n in m ==> m'[n].key == m[n].key)
    ensures Ascending(m', q)
  {
    forall i, j | 0 <= i < j < |q|
      ensures q[i] in m' && q[j] in m' && m'[q[i]].key < m'[q[j]].key
    {
      assert q[i] in m && q[j] in m && q[i] in q && q[j] in q;
    }
    assert forall i :: 0 <= i < |q| ==> q[i] in q;
  }

  /** An insertion puts the one node somewhere into the order, or changes nothing. */
  method InsertInOrder(t: Tree, node: Node, key: int, value: int) returns (success: bool)
    requires t.Valid() && node !in t.subs
    modifies t`root, t`subs, node, t.subs.Keys`left, t.subs.Keys`right, t.subs.Keys`parent, t.subs.Keys`height
    ensures t.Valid() && (success <==> forall n :: n in old(t.subs) ==> old(n.key) != key)
    ensures if success then PutIn(old(Order(t)), node, Order(t)) else Order(t) == old(Order(t))
  {
    hide Tree.Valid, InOrder, PutIn, Ascending;
    OrderIs(t);
    ghost var ns, m, a := t.subs.Keys, t.M(), Order(t);
    Tree.MemIs(ns);
    success := t.Insert(node, key, value);
    OrderIs(t);
    Tree.MemIs(t.subs.Keys);
    assert forall n :: n in ns ==> m[n] == old(n.F()) && n.key == old(n.key);
    KeysAgree(m, t.M(), a);
    if success {
      OneMore(t.M(), a, Order(t), node, ns);
    } else {
      OneListing(t.M(), a, Order(t), ns);
    }
  }

  /** A removal takes the one node out of the order: the other nodes are the same, in the same order. */
  method RemoveInOrder(t: Tree, node: Node)
    requires t.Valid() && node in t.subs
    modifies t`root, t`subs, t.subs.Keys`left, t.subs.Keys`right, t.subs.Keys`parent, t.subs.Keys`height
    ensures t.Valid() && node !in t.subs && PutIn(Order(t), node, old(Order(t)))
  {
    hide Tree.Valid, InOrder, PutIn, Ascending;
    OrderIs(t);
    ghost var ns, m, b := t.subs.Keys, t.M(), Order(t);
    Tree.MemIs(ns);
    t.Remove(node);
    OrderIs(t);
    Tree.MemIs(t.subs.Keys);
    assert forall n :: n in ns ==> m[n] == old(n.F()) && n.key == old(n.key);
    KeysAgree(t.M(), m, Order(t));
    assert t.subs.Keys + {node} == ns;
    OneMore(m, Order(t), b, node, t.subs.Keys);
  }

  lemma KeysGoUp(t: Tree, a: seq<Node>)
    requires Ascending(t.M(), a) && Lists(a, t.subs.Keys)
    ensures forall i :: 0 <= i < |a| ==> a[i] in t.subs
    ensures forall i, j :: 0 <= i < j < |a| ==> a[i].key < a[j].key
  {
    Tree.MemIs(t.subs.Keys);
    assert forall j :: 0 <= j < |a| ==> a[j] in a && a[j] in t.subs && t.M()[a[j]] == a[j].F();
  }

  lemma PlaceOfNode(t: Tree, a: seq<Node>, n: Node) returns (i: nat)
    requires Lists(a, t.subs.Keys) && n in t.subs
    ensures i < |a| && a[i] == n
  {
    assert n in t.subs.Keys;
    i :| 0 <= i < |a| && a[i] == n;
  }

  /** In a list of all nodes with their keys going up, the next place is the next node in the order of keys. */
  lemma PlaceNext(t: Tree, a: seq<Node>, i: nat, next: Node?)
    requires Ascending(t.M(), a) && Lists(a, t.subs.Keys) && i < |a| && a[i] in t.subs && t.IsNext(a[i], next)
    ensures if i + 1 < |a| then next == a[i + 1] else next == null
  {
    hide Ascending, Lists;
    KeysGoUp(t, a);
    if next != null {
      var j := PlaceOfNode(t, a, next);
    }
  }

  lemma PlaceFirst(t: Tree, a: seq<Node>, first: Node)
    requires Ascending(t.M(), a) && Lists(a, t.subs.Keys) && first in t.subs && forall n :: n in t.subs ==>
      first.key <= n.key
    ensures a != [] && a[0] == first
  {
    hide Ascending, Lists;
    KeysGoUp(t, a);
    var j := PlaceOfNode(t, a, first);
  }

  /** A walk from the first node by way of the successors meets every node once, with the keys going up. */
  method Walk(t: Tree) returns (q: seq<Node>)
    requires t.Valid()
    ensures q == Order(t) && Lists(q, t.subs.Keys)
  {
    hide Tree.Valid, InOrder, Linked, Mem;
    OrderIs(t);
    IsShaped(t);
    Tree.MemIs(t.subs.Keys);
    ghost var a := Order(t);
    if t.root == null {
      Tree.NoRoot(t.subs, t.M(), t.root);
      assert t.subs.Keys == {};
      OneListing(t.M(), a, [], {});
      return [];
    }
    RootSub(t.subs, t.M(), t.root);
    var first := t.LeftMost(t.root);
    PlaceFirst(t, a, first);
    var node: Node? := first;
    q := [];
    while node != null
      invariant |q| <= |a| && q == a[..|q|]
      invariant if node == null then |q| == |a| else |q| < |a| && node == a[|q|]
      decreases |a| - |q|, node != null
    {
      assert a[|q|] in a;
      var next := t.InOrderSuccessor(node);
      PlaceNext(t, a, |q|, next);
      q := q + [node];
      node := next;
    }
  }

  // ---------- runs ----------

  datatype Op =
    | Insert(key: int, value: int)
    | Remove(key: int)
    | Find(key: int)
    | Geq(key: int)
    | Leq(key: int)
    | Next(key: int)
    | Previous(key: int)

  /** The key and the value of the node an operation comes up with. */
  datatype Answer = Nothing | Found(key: int, value: int)

  /** The first value of a key stays until it is removed. */
  function After(m: map<int, int>, op: Op): map<int, int> {
    match op
    case Insert(k, v) => if k in m then m else m[k := v]
    case Remove(k) => m - {k}
    case _ => m
  }

  ghost predicate Holds(m: map<int, int>, a: Answer) {
    a.Found? && a.key in m && a.value == m[a.key]
  }

  /** What an operation must answer. */
  ghost predicate Right(m: map<int, int>, op: Op, a: Answer) {
    match op
    case Geq(k) => if a == Nothing then forall j :: j in m ==>
      j < k else Holds(m, a) && k <= a.key && forall j :: j in m && k <= j ==> a.key <= j
    case Leq(k) => if a == Nothing then forall j :: j in m ==>
      k < j else Holds(m, a) && a.key <= k && forall j :: j in m && j <= k ==> j <= a.key
    case Next(k) =>
      if k !in m then a == Nothing
      else if a == Nothing then forall j :: j in m ==> j <= k
      else Holds(m, a) && k < a.key && forall j :: j in m && k < j ==> a.key <= j
    case Previous(k) =>
      if k !in m then a == Nothing
      else if a == Nothing then forall j :: j in m ==> k <= j
      else Holds(m, a) && a.key < k && forall j :: j in m && j < k ==> j <= a.key
    case _ => if op.key in m then a == Found(op.key, m[op.key]) else a == Nothing
  }

  ghost predicate Answered(m: map<int, int>, ops: seq<Op>, answers: seq<Answer>)
    requires |answers| == |ops|
    decreases |ops|
  {
    ops != [] ==> Right(m, ops[0], answers[0]) && Answered(After(m, ops[0]), ops[1..], answers[1..])
  }

  ghost function Pairs(ns: set<Node>): map<Node, (int, int)>
    reads ns
  {
    map n | n in ns :: (n.key, n.value)
  }

  /** The nodes hold a map. */
  ghost predicate Hold(p: map<Node, (int, int)>, m: map<int, int>) {
    && (forall n {:trigger n in p} :: n in p ==> p[n].0 in m && m[p[n].0] == p[n].1)
    && (forall k {:trigger k in m} :: k in m ==> exists n :: n in p && p[n].0 == k)
  }

  ghost predicate Mirrors(t: Tree, m: map<int, int>)
    reads t, t.subs.Keys
  {
    Hold(Pairs(t.subs.Keys), m)
  }

  lemma HoldOneMore(p: map<Node, (int, int)>, m: map<int, int>, n: Node, k: int, v: int)
    requires Hold(p, m) && n !in p && k !in m
    ensures Hold(p[n := (k, v)], m[k := v])
  {
    var p', m' := p[n := (k, v)], m[k := v];
    forall j | j in m'
      ensures exists x :: x in p' && p'[x].0 == j
    {
      if j == k {
        assert p'[n].0 == j;
      } else {
        var x: Node :| x in p && p[x].0 == j;
        assert p'[x].0 == j;
      }
    }
  }

  lemma HoldOneLess(p: map<Node, (int, int)>, m: map<int, int>, n: Node)
    requires Hold(p, m) && n in p && forall x :: x in p && p[x].0 == p[n].0 ==> x == n
    ensures Hold(p - {n}, m - {p[n].0})
  {
    forall j | j in m - {p[n].0}
      ensures exists x :: x in p - {n} && (p - {n})[x].0 == j
    {
      var x: Node :| x in p && p[x].0 == j;
      assert x in p - {n};
    }
  }

  /** What the tree knows about a key is what the map has. */
  lemma KeyHeld(t: Tree, m: map<int, int>, k: int, r: Node?)
    requires Mirrors(t, m)
    requires if r == null then forall n :: n in t.subs ==> n.key != k else r in t.subs && r.key == k
    ensures if r == null then k !in m else k in m && m[k] == r.value
  {
    var p := Pairs(t.subs.Keys);
    assert r != null ==> r in p && p[r] == (r.key, r.value);
    assert forall n :: n in p ==> n in t.subs && p[n].0 == n.key;
  }

  method InsertNode(t: Tree, ghost m: map<int, int>, k: int, v: int) returns (r: Node?)
    requires t.Valid() && Mirrors(t, m)
    modifies t, t.subs.Keys
    ensures t.Valid() && fresh(t.subs.Keys - old(t.subs.Keys))
    ensures if r == null then k !in m && Mirrors(t, m[k := v])
      else k in m && r.key == k && r.value == m[k] && Mirrors(t, m)
  {
    hide Tree.Valid, Hold;
    var node := new Node();
    ghost var p := Pairs(t.subs.Keys);
    r := t.InsertOrReturnExisting(node, k, v);
    if r != null {
      assert Pairs(t.subs.Keys) == p;
      KeyHeld(t, m, k, r);
    } else {
      assert Pairs(t.subs.Keys) == p[node := (k, v)];
      NotHeld(p, m, k);
      HoldOneMore(p, m, node, k, v);
    }
  }

  lemma NotHeld(p: map<Node, (int, int)>, m: map<int, int>, k: int)
    requires Hold(p, m) && forall n {:trigger n in p} :: n in p ==> p[n].0 != k
    ensures k !in m
  {
  }

  method RemoveNode(t: Tree, ghost m: map<int, int>, r: Node)
    requires t.Valid() && Mirrors(t, m) && r in t.subs
    modifies t, t.subs.Keys
    ensures t.Valid() && Mirrors(t, m - {old(r.key)}) && t.subs.Keys <= old(t.subs.Keys)
  {
    hide Tree.Valid, Hold;
    ghost var p := Pairs(t.subs.Keys);
    OnlyNode(t, r);
    HoldOneLess(p, m, r);
    t.Remove(r);
    assert Pairs(t.subs.Keys) == p - {r};
  }

  lemma OnlyNode(t: Tree, r: Node)
    requires t.Valid() && r in t.subs
    ensures forall n {:trigger n in t.subs} :: n in t.subs && n.key == r.key ==> n == r
  {
    hide Tree.Valid;
    forall n | n in t.subs && n.key == r.key
      ensures n == r
    {
      SameNode(t, n, r);
    }
  }

  lemma SameNode(t: Tree, x: Node, y: Node)
    requires t.Valid() && x in t.subs && y in t.subs && x.key == y.key
    ensures x == y
  {
    hide Linked, Mem;
    Tree.MemIs(t.subs.Keys);
    Tree.UniqueKeys(t.subs, t.M(), t.root, x, y);
  }

  /** The node an operation that changes nothing comes up with. */
  method Ask(t: Tree, op: Op) returns (r: Node?)
    requires t.Valid() && !op.Insert? && !op.Remove?
    ensures r != null ==> r in t.subs
    ensures op.Find? ==> if r == null then forall n :: n in t.subs ==> n.key != op.key else r.key == op.key
    ensures op.Geq? ==> if r == null then forall n :: n in t.subs ==>
      n.key < op.key else op.key <= r.key && forall n :: n in t.subs && op.key <= n.key ==> r.key <= n.key
    ensures op.Leq? ==> if r == null then forall n :: n in t.subs ==>
      op.key < n.key else r.key <= op.key && forall n :: n in t.subs && n.key <= op.key ==> n.key <= r.key
    ensures op.Next? || op.Previous? ==>
      (r == null && forall n :: n in t.subs ==> n.key != op.key)
      || exists n :: n in t.subs && n.key == op.key && if op.Next? then t.IsNext(n, r) else t.IsPrevious(n, r)
  {
    hide Tree.Valid;
    ghost var path;
    if op.Geq? {
      r, path := t.FindGeq(op.key);
    } else if op.Leq? {
      r, path := t.FindLeq(op.key);
    } else {
      r, path := t.Find(op.key);
      if op.Next? && r != null {
        r := t.InOrderSuccessor(r);
      } else if op.Previous? && r != null {
        r := t.InOrderPredecessor(r);
      }
    }
  }

  function AnswerOf(r: Node?): Answer
    reads r
  {
    if r == null then Nothing else Found(r.key, r.value)
  }

  /** The right node gives the right answer. */
  lemma AskRight(t: Tree, m: map<int, int>, op: Op, r: Node?)
    requires Mirrors(t, m) && !op.Insert? && !op.Remove? && (r != null ==> r in t.subs)
    requires op.Find? ==> if r == null then forall n :: n in t.subs ==> n.key != op.key else r.key == op.key
    requires op.Geq? ==> if r == null then forall n :: n in t.subs ==>
      n.key < op.key else op.key <= r.key && forall n :: n in t.subs && op.key <= n.key ==> r.key <= n.key
    requires op.Leq? ==> if r == null then forall n :: n in t.subs ==>
      op.key < n.key else r.key <= op.key && forall n :: n in t.subs && n.key <= op.key ==> n.key <= r.key
    requires op.Next? || op.Previous? ==>
      (r == null && forall n :: n in t.subs ==> n.key != op.key)
      || exists n :: n in t.subs && n.key == op.key && if op.Next? then t.IsNext(n, r) else t.IsPrevious(n, r)
    ensures Right(m, op, AnswerOf(r))
  {
    NodesHold(t, m);
  }

  lemma NodesHold(t: Tree, m: map<int, int>)
    requires Mirrors(t, m)
    ensures forall n {:trigger n in t.subs} :: n in t.subs ==> n.key in m && m[n.key] == n.value
    ensures forall k {:trigger k in m} :: k in m ==> exists n :: n in t.subs && n.key == k
  {
    var p := Pairs(t.subs.Keys);
    forall n | n in t.subs
      ensures n.key in m && m[n.key] == n.value
    {
      assert n in p && p[n] == (n.key, n.value);
    }
    forall k | k in m
      ensures exists n :: n in t.subs && n.key == k
    {
      var n: Node :| n in p && p[n].0 == k;
      assert n in t.subs && n.key == k;
    }
  }

  method Step(t: Tree, ghost m: map<int, int>, op: Op) returns (a: Answer)
    requires t.Valid() && Mirrors(t, m)
    modifies t, t.subs.Keys
    ensures t.Valid() && Mirrors(t, After(m, op)) && fresh(t.subs.Keys - old(t.subs.Keys))
    ensures Right(m, op, a)
  {
    hide Tree.Valid, Mirrors;
    var r;
    if op.Insert? {
      r := InsertNode(t, m, op.key, op.value);
      a := AnswerOf(r);
    } else if op.Remove? {
      r := Ask(t, Find(op.key));
      KeyHeld(t, m, op.key, r);
      a := AnswerOf(r);
      if r != null {
        RemoveNode(t, m, r);
      }
      Without(m, op.key);
    } else {
      r := Ask(t, op);
      AskRight(t, m, op, r);
      a := AnswerOf(r);
    }
  }

  lemma Without(m: map<int, int>, k: int)
    ensures k !in m ==> m - {k} == m
  {
  }

  /** Every run answers as the map does. */
  method Run(ops: seq<Op>) returns (answers: seq<Answer>)
    ensures |answers| == |ops| && Answered(map[], ops, answers)
  {
    hide Tree.Valid;
    var t := new Tree();
    answers := RunFrom(t, map[], ops);
  }

  method RunFrom(t: Tree, ghost m: map<int, int>, ops: seq<Op>) returns (answers: seq<Answer>)
    requires t.Valid() && Mirrors(t, m)
    modifies t, t.subs.Keys
    ensures |answers| == |ops| && Answered(m, ops, answers)
    decreases |ops|
  {
    hide Tree.Valid, Right, Mirrors;
    if ops == [] {
      return [];
    }
    var a := Step(t, m, ops[0]);
    var rest := RunFrom(t, After(m, ops[0]), ops[1..]);
    answers := [a] + rest;
  }
}
