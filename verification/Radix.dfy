/** The bit radix tree with its nodes: child, parent and self pointers, and a ring of equal keys
    on every node. */
module Radix {
  import opened Bits
  import opened RadixShape

  type Side = b: nat | b < 2

  /** The two child pointers of a node. */
  type Pair = s: seq<Node?> | |s| == 2 witness [null, null]

  /** A `parent_to_self_ptr`: the pointer that points to the node. */
  datatype Link = NoLink | RootLink(tree: Tree) | ChildLink(owner: Node, side: Side)

  /** The tree pointers of a node. */
  datatype Pointers = Pointers(child: Pair, parent: Node?, link: Link)

  /** Not connected to the tree. */
  const BARE := Pointers([null, null], null, NoLink)

  type Memory = map<Node, Pointers>

  class Node {
    var key: nat
    var next: Node?
    var prev: Node?
    var child: Pair
    var parent: Node?
    var link: Link

    constructor ()
    {
      key := 0;
      next, prev, parent := null, null, null;
      child := [null, null];
      link := NoLink;
    }

    ghost function Ptrs(): Pointers
      reads this`child, this`parent, this`link
    {
      Pointers(child, parent, link)
    }
  }

  ghost function Mem(ns: set<Node>): Memory
    reads ns`child, ns`parent, ns`link
  {
    map n | n in ns :: n.Ptrs()
  }

  // ---------- nodes and places ----------

  /** Which node stands where, and its key. */
  datatype Layout = Layout(shape: Shape, at: map<Pos, Node>, loc: map<Node, Pos>)

  ghost function Get(at: map<Pos, Node>, p: Pos): Node? {
    if p in at then at[p] else null
  }

  /** One node for every place of the shape, at this place only; no gap above a node. */
  ghost predicate Fits(l: Layout) {
    && (forall p: Pos {:trigger p in l.at} {:trigger p in l.shape} :: p in l.at <==> p in l.shape)
    && (forall p: Pos {:trigger l.at[p]} :: p in l.at ==> l.at[p] in l.loc && l.loc[l.at[p]] == p)
    && (forall n {:trigger l.loc[n]} {:trigger n in l.loc} :: n in l.loc ==> l.loc[n] in l.at && l.at[l.loc[n]] == n)
    && (forall p: Pos {:trigger Topped(l.at, p)} :: p in l.at ==> Topped(l.at, p))
  }

  ghost predicate Topped(at: map<Pos, Node>, p: Pos) {
    if p.depth == 0 then p == ROOT else Parent(p) in at
  }

  /** The pointers of the node at `p`. */
  ghost function Want(t: Tree, at: map<Pos, Node>, p: Pos): Pointers {
    Pointers([Get(at, Child(p, 0)), Get(at, Child(p, 1))],
             if p.depth == 0 then null else Get(at, Parent(p)),
             LinkTo(t, at, p))
  }

  /** The pointer that leads to place `p`. */
  ghost function LinkTo(t: Tree, at: map<Pos, Node>, p: Pos): Link {
    if p.depth == 0 then RootLink(t)
    else if Parent(p) in at then ChildLink(at[Parent(p)], p.top % 2)
    else NoLink
  }

  ghost predicate PlaceOk(t: Tree, at: map<Pos, Node>, m: Memory, p: Pos) {
    p in at && at[p] in m && m[at[p]] == Want(t, at, p)
  }

  /** Every node in a place has its pointers, every other node has none. */
  ghost predicate Wired(t: Tree, l: Layout, m: Memory) {
    && (forall p: Pos {:trigger PlaceOk(t, l.at, m, p)} :: p in l.at ==> PlaceOk(t, l.at, m, p))
    && (forall n {:trigger m[n]} :: n in m && n !in l.loc ==> m[n] == BARE)
  }

  /** What the pointers of the node at `p` lead to. */
  lemma Around(t: Tree, l: Layout, m: Memory, p: Pos)
    requires Fits(l) && Wired(t, l, m) && p in l.at
    ensures var n := l.at[p];
      && n in m && m[n] == Want(t, l.at, p)
      && (forall i: Side {:trigger m[n].child[i]} :: m[n].child[i] != null ==>
        m[n].child[i] in m && m[n].child[i] in l.loc && l.loc[m[n].child[i]] == Child(p, i))
      && (p.depth > 0 ==>
        Parent(p) in l.at && l.at[Parent(p)] in m && m[n].parent == l.at[Parent(p)]
        && m[n].link == ChildLink(l.at[Parent(p)], p.top % 2))
      && (p.depth == 0 ==> p == ROOT && m[n].link == RootLink(t) && m[n].parent == null)
  {
    assert PlaceOk(t, l.at, m, p);
    assert Topped(l.at, p);
    assert PlaceOk(t, l.at, m, Child(p, 0)) || Child(p, 0) !in l.at;
    assert PlaceOk(t, l.at, m, Child(p, 1)) || Child(p, 1) !in l.at;
    if p.depth > 0 {
      assert PlaceOk(t, l.at, m, Parent(p));
    }
  }

  // ---------- one node for another ----------

  ghost function PutAt(l: Layout, p: Pos, repl: Node, k: nat): Layout
    requires p in l.at
  {
    Layout(l.shape[p := k], l.at[p := repl], (l.loc - {l.at[p]})[repl := p])
  }

  /** The pointers of `n` after radixTreeReplaceNode. */
  ghost function Replaced(m: Memory, orig: Node, repl: Node, n: Node): Pointers
    requires orig in m && n in m
  {
    var o := m[orig];
    if n == repl then o
    else if n == o.child[0] then Pointers(m[n].child, repl, ChildLink(repl, 0))
    else if n == o.child[1] then Pointers(m[n].child, repl, ChildLink(repl, 1))
    else if o.link.ChildLink? && n == o.link.owner then m[n].(child := m[n].child[o.link.side := repl])
    else m[n]
  }

  lemma PutFits(l: Layout, p: Pos, repl: Node, k: nat)
    requires Fits(l) && p in l.at && repl !in l.loc
    ensures Fits(PutAt(l, p, repl, k))
  {
    var l' := PutAt(l, p, repl, k);
    forall q: Pos | q in l'.at
      ensures Topped(l'.at, q)
    {
      assert Topped(l.at, q);
    }
  }

  ghost predicate ReplacedIn(m: Memory, orig: Node, repl: Node, m': Memory) {
    && orig in m && m'.Keys == m.Keys - {orig}
    && forall n {:trigger m'[n]} :: n in m' ==> m'[n] == Replaced(m, orig, repl, n)
  }

  /** The nodes next to place `p` are those whose places are next to it. */
  lemma Beside(t: Tree, l: Layout, m: Memory, p: Pos, q: Pos)
    requires Fits(l) && Wired(t, l, m) && p in l.at && q in l.at && p != q
    requires l.at[p] in m && l.at[q] in m
    ensures var o, n := m[l.at[p]], l.at[q];
      && n in l.loc && n in m && n != l.at[p]
      && o == Want(t, l.at, p) && m[n] == Want(t, l.at, q)
      && (n == o.child[0] <==> q == Child(p, 0))
      && (n == o.child[1] <==> q == Child(p, 1))
      && (o.link.ChildLink? <==> p.depth > 0)
      && (o.link.ChildLink? ==> o.link.side == p.top % 2 && (n == o.link.owner <==> q == Parent(p)))
  {
    Around(t, l, m, p);
    Around(t, l, m, q);
  }

  lemma InMemory(t: Tree, l: Layout, m: Memory, p: Pos)
    requires Wired(t, l, m) && p in l.at
    ensures l.at[p] in m && m[l.at[p]] == Want(t, l.at, p)
  {
    assert PlaceOk(t, l.at, m, p);
  }

  lemma ReplacePlace(t: Tree, l: Layout, m: Memory, m': Memory, p: Pos, repl: Node, q: Pos)
    requires Fits(l) && Wired(t, l, m) && p in l.at && repl in m && repl !in l.loc
    requires ReplacedIn(m, l.at[p], repl, m') && q in l.at
    ensures PlaceOk(t, l.at[p := repl], m', q)
  {
    hide Fits, Wired;
    ChildParent(q, 0, p);
    ChildParent(q, 1, p);
    ChildParent(p, 0, q);
    ChildParent(p, 1, q);
    if q == p {
      ReplaceHere(t, l, m, m', p, repl);
    } else {
      InMemory(t, l, m, p);
      InMemory(t, l, m, q);
      Beside(t, l, m, p, q);
      assert m'[l.at[q]] == Replaced(m, l.at[p], repl, l.at[q]);
    }
  }

  lemma ReplaceHere(t: Tree, l: Layout, m: Memory, m': Memory, p: Pos, repl: Node)
    requires Fits(l) && Wired(t, l, m) && p in l.at && repl in m && repl !in l.loc
    requires ReplacedIn(m, l.at[p], repl, m')
    ensures PlaceOk(t, l.at[p := repl], m', p)
  {
    Around(t, l, m, p);
    assert m'[repl] == m[l.at[p]];
  }

  lemma ReplaceWired(t: Tree, l: Layout, m: Memory, m': Memory, p: Pos, repl: Node, k: nat)
    requires Fits(l) && Wired(t, l, m) && p in l.at && repl in m && repl !in l.loc
    requires ReplacedIn(m, l.at[p], repl, m')
    ensures Fits(PutAt(l, p, repl, k)) && Wired(t, PutAt(l, p, repl, k), m')
  {
    PutFits(l, p, repl, k);
    var l' := PutAt(l, p, repl, k);
    forall q: Pos | q in l'.at
      ensures PlaceOk(t, l'.at, m', q)
    {
      ReplacePlace(t, l, m, m', p, repl, q);
    }
    Around(t, l, m, p);
    forall n | n in m' && n !in l'.loc
      ensures m'[n] == BARE
    {
      assert n !in l.loc;
    }
  }

  // ---------- a node and its child exchanged ----------

  ghost function Exchange(l: Layout, p: Pos, c: Pos): Layout
    requires p in l.at && c in l.at && p in l.shape && c in l.shape
  {
    Layout(Swapped(l.shape, p, c), l.at[p := l.at[c]][c := l.at[p]], l.loc[l.at[c] := p][l.at[p] := c])
  }

  /** The pointers of `n` after radixTreeSwapParentWithChild. */
  ghost function Exchanged(m: Memory, x: Node, side: Side, n: Node): Pointers
    requires x in m && n in m && m[x].child[side] != null && m[x].child[side] in m
  {
    var o, c := m[x], m[x].child[side];
    if n == x then Pointers(m[c].child, c, ChildLink(c, side))
    else if n == c then Pointers(o.child[side := x], o.parent, o.link)
    else if n == o.child[1 - side] then Pointers(m[n].child, c, ChildLink(c, 1 - side))
    else if n == m[c].child[0] then Pointers(m[n].child, x, ChildLink(x, 0))
    else if n == m[c].child[1] then Pointers(m[n].child, x, ChildLink(x, 1))
    else if o.link.ChildLink? && n == o.link.owner then m[n].(child := m[n].child[o.link.side := c])
    else m[n]
  }

  ghost predicate ExchangedIn(m: Memory, x: Node, side: Side, m': Memory) {
    && x in m && m[x].child[side] != null && m[x].child[side] in m && m'.Keys == m.Keys
    && forall n {:trigger m'[n]} :: n in m' ==> m'[n] == Exchanged(m, x, side, n)
  }

  lemma ExchangeFits(l: Layout, p: Pos, c: Pos)
    requires Fits(l) && p in l.at && c in l.at && p != c
    ensures Fits(Exchange(l, p, c))
  {
    var l' := Exchange(l, p, c);
    forall q: Pos | q in l'.at
      ensures Topped(l'.at, q)
    {
      assert Topped(l.at, q);
    }
  }

  /** Neighbours of a place and of its child on one side. */
  lemma Near(p: Pos, side: Side, q: Pos)
    requires q != p && q != Child(p, side)
    ensures var c := Child(p, side);
      && c != p && c.depth > 0 && Parent(c) == p && c.top % 2 == side && Child(p, 1 - side) != p
        && Child(p, 1 - side) != c
      && (p.depth > 0 ==>
        Parent(p) != p && Parent(p) != c && Parent(p) != Child(p, 1 - side) && Parent(p) != Child(c, 0)
        && Parent(p) != Child(c, 1))
      && (forall i: Side {:trigger Child(q, i)} ::
        Child(q, i) != c && (Child(q, i) == p <==> p.depth > 0 && q == Parent(p) && i == p.top % 2))
      && (forall i: Side {:trigger Child(c, i)} ::
        Child(c, i) != p && Child(c, i) != c && Child(c, i) != Child(p, 1 - side))
      && (q.depth > 0 ==> (Parent(q) == p <==> q == Child(p, 1 - side)))
      && (q.depth > 0 ==> (Parent(q) == c <==> q == Child(c, 0) || q == Child(c, 1)))
      && (q == Child(p, 1 - side) ==> q.depth > 0 && q.top % 2 == 1 - side)
      && (forall i: Side {:trigger Child(c, i)} :: q == Child(c, i) ==> q.depth > 0 && q.top % 2 == i)
  {
  }

  lemma NearPair(p: Pos, side: Side)
    ensures var c := Child(p, side);
      && c != p && c.depth > 0 && Parent(c) == p && c.top % 2 == side && Child(p, 1 - side) != p
        && Child(p, 1 - side) != c
      && (p.depth > 0 ==>
        Parent(p) != p && Parent(p) != c && Parent(p) != Child(p, 1 - side) && Parent(p) != Child(c, 0)
        && Parent(p) != Child(c, 1))
      && (forall i: Side {:trigger Child(c, i)} ::
        Child(c, i) != p && Child(c, i) != c && Child(c, i) != Child(p, 1 - side))
  {
  }

  lemma ExchangeOther(t: Tree, l: Layout, m: Memory, m': Memory, p: Pos, side: Side, q: Pos)
    requires Fits(l) && Wired(t, l, m) && p in l.at && Child(p, side) in l.at
    requires ExchangedIn(m, l.at[p], side, m') && q in l.at && q != p && q != Child(p, side)
    ensures PlaceOk(t, Exchange(l, p, Child(p, side)).at, m', q)
  {
    hide Fits, Wired, Swapped, Child, Parent;
    var c := Child(p, side);
    InMemory(t, l, m, p);
    InMemory(t, l, m, c);
    InMemory(t, l, m, q);
    Near(p, side, q);
    Beside(t, l, m, p, c);
    Beside(t, l, m, p, q);
    Beside(t, l, m, c, q);
    var at' := l.at[p := l.at[c]][c := l.at[p]];
    assert m'[l.at[q]] == Exchanged(m, l.at[p], side, l.at[q]);
    assert m'[l.at[q]].child == Want(t, at', q).child;
    assert m'[l.at[q]].parent == Want(t, at', q).parent;
    assert m'[l.at[q]].link == Want(t, at', q).link;
  }

  lemma ExchangePair(t: Tree, l: Layout, m: Memory, m': Memory, p: Pos, side: Side)
    requires Fits(l) && Wired(t, l, m) && p in l.at && Child(p, side) in l.at
    requires ExchangedIn(m, l.at[p], side, m')
    ensures PlaceOk(t, Exchange(l, p, Child(p, side)).at, m', p)
    ensures PlaceOk(t, Exchange(l, p, Child(p, side)).at, m', Child(p, side))
  {
    hide Fits, Wired, Swapped, Child, Parent;
    var c := Child(p, side);
    InMemory(t, l, m, p);
    InMemory(t, l, m, c);
    NearPair(p, side);
    Beside(t, l, m, p, c);
    assert m'[l.at[c]] == Exchanged(m, l.at[p], side, l.at[c]);
    assert m'[l.at[p]] == Exchanged(m, l.at[p], side, l.at[p]);
  }

  lemma ExchangeWired(t: Tree, l: Layout, m: Memory, m': Memory, p: Pos, side: Side)
    requires Fits(l) && Wired(t, l, m) && p in l.at && Child(p, side) in l.at
    requires ExchangedIn(m, l.at[p], side, m')
    ensures Fits(Exchange(l, p, Child(p, side))) && Wired(t, Exchange(l, p, Child(p, side)), m')
  {
    ExchangeFits(l, p, Child(p, side));
    var l' := Exchange(l, p, Child(p, side));
    forall q: Pos | q in l'.at
      ensures PlaceOk(t, l'.at, m', q)
    {
      if q == p || q == Child(p, side) {
        ExchangePair(t, l, m, m', p, side);
      } else {
        ExchangeOther(t, l, m, m', p, side, q);
      }
    }
    Around(t, l, m, p);
    forall n | n in m' && n !in l'.loc
      ensures m'[n] == BARE
    {
      assert n !in l.loc && m'[n] == Exchanged(m, l.at[p], side, n);
      Around(t, l, m, Child(p, side));
    }
  }

  // ---------- a new leaf, and a leaf cut off ----------

  ghost function Attach(l: Layout, p: Pos, n: Node, k: nat): Layout {
    Layout(l.shape[p := k], l.at[p := n], l.loc[n := p])
  }

  ghost function Attached(m: Memory, p: Pointers, x: Node, n: Node): Pointers
    requires n in m
  {
    if n == x then p
    else if p.link.ChildLink? && n == p.link.owner then m[n].(child := m[n].child[p.link.side := x])
    else m[n]
  }

  ghost predicate AttachedIn(m: Memory, p: Pointers, x: Node, m': Memory) {
    && x in m && m'.Keys == m.Keys
    && forall n {:trigger m'[n]} :: n in m' ==> m'[n] == Attached(m, p, x, n)
  }

  ghost function LeafAt(t: Tree, l: Layout, p: Pos): Pointers {
    Pointers([null, null], if p.depth == 0 then null else Get(l.at, Parent(p)), LinkTo(t, l.at, p))
  }

  lemma AttachNear(t: Tree, l: Layout, p: Pos, q: Pos)
    requires Fits(l) && p !in l.at && Topped(l.at, p) && q in l.at
    ensures q != p && l.at[q] in l.loc && (q.depth > 0 ==> Parent(q) in l.at)
    ensures forall i: Side {:trigger Child(q, i)} :: Child(q, i) == p <==>
      p.depth > 0 && q == Parent(p) && i == p.top % 2
    ensures p.depth > 0 ==> Parent(p) in l.at && (l.at[q] == l.at[Parent(p)] <==> q == Parent(p))
  {
    assert Topped(l.at, q);
  }

  lemma AttachPlace(t: Tree, l: Layout, m: Memory, m': Memory, p: Pos, x: Node, q: Pos)
    requires Fits(l) && Wired(t, l, m) && p !in l.at && Topped(l.at, p) && x in m && x !in l.loc
    requires AttachedIn(m, LeafAt(t, l, p), x, m') && q in l.at
    ensures PlaceOk(t, l.at[p := x], m', q)
  {
    hide Wired, Fits, Child, Parent, Topped;
    InMemory(t, l, m, q);
    AttachNear(t, l, p, q);
    assert m'[l.at[q]] == Attached(m, LeafAt(t, l, p), x, l.at[q]);
    assert m'[l.at[q]].child == Want(t, l.at[p := x], q).child;
  }

  lemma AttachHere(t: Tree, l: Layout, m: Memory, m': Memory, p: Pos, x: Node)
    requires Fits(l) && Wired(t, l, m) && p !in l.at && Topped(l.at, p) && x in m && x !in l.loc
    requires AttachedIn(m, LeafAt(t, l, p), x, m')
    ensures PlaceOk(t, l.at[p := x], m', p)
  {
    hide Wired;
    assert Child(p, 0) in l.at ==> Topped(l.at, Child(p, 0));
    assert Child(p, 1) in l.at ==> Topped(l.at, Child(p, 1));
    assert m'[x] == Attached(m, LeafAt(t, l, p), x, x);
  }

  lemma AttachFits(l: Layout, p: Pos, x: Node, k: nat)
    requires Fits(l) && p !in l.at && Topped(l.at, p) && x !in l.loc
    ensures Fits(Attach(l, p, x, k))
  {
    var l' := Attach(l, p, x, k);
    forall q: Pos | q in l'.at
      ensures Topped(l'.at, q)
    {
      assert q != p ==> Topped(l.at, q);
    }
  }

  lemma AttachWired(t: Tree, l: Layout, m: Memory, m': Memory, p: Pos, x: Node, k: nat)
    requires Fits(l) && Wired(t, l, m) && p !in l.at && Topped(l.at, p) && x in m && x !in l.loc
    requires AttachedIn(m, LeafAt(t, l, p), x, m')
    ensures Fits(Attach(l, p, x, k)) && Wired(t, Attach(l, p, x, k), m')
  {
    hide Wired, Fits, PlaceOk, Topped;
    AttachFits(l, p, x, k);
    forall q: Pos {:trigger PlaceOk(t, l.at[p := x], m', q)} | q in l.at[p := x]
      ensures PlaceOk(t, l.at[p := x], m', q)
    {
      if q == p {
        AttachHere(t, l, m, m', p, x);
      } else {
        AttachPlace(t, l, m, m', p, x, q);
      }
    }
    AttachRest(t, l, m, m', p, x, k);
  }

  lemma AttachRest(t: Tree, l: Layout, m: Memory, m': Memory, p: Pos, x: Node, k: nat)
    requires Fits(l) && Wired(t, l, m) && p !in l.at && Topped(l.at, p) && x in m && x !in l.loc
    requires AttachedIn(m, LeafAt(t, l, p), x, m')
    requires forall q: Pos {:trigger PlaceOk(t, l.at[p := x], m', q)} :: q in l.at[p := x] ==>
      PlaceOk(t, l.at[p := x], m', q)
    ensures Wired(t, Attach(l, p, x, k), m')
  {
    forall n | n in m' && n !in l.loc[x := p]
      ensures m'[n] == BARE
    {
      assert m'[n] == Attached(m, LeafAt(t, l, p), x, n);
    }
  }

  ghost function Cut(l: Layout, p: Pos): Layout
    requires p in l.at
  {
    Layout(l.shape - {p}, l.at - {p}, l.loc - {l.at[p]})
  }

  ghost function CutFrom(m: Memory, link: Link, n: Node): Pointers
    requires n in m
  {
    if link.ChildLink? && n == link.owner then m[n].(child := m[n].child[link.side := null]) else m[n]
  }

  ghost predicate CutIn(m: Memory, x: Node, m': Memory) {
    && x in m && m'.Keys == m.Keys - {x}
    && forall n {:trigger m'[n]} :: n in m' ==> m'[n] == CutFrom(m, m[x].link, n)
  }

  lemma CutNear(l: Layout, p: Pos, q: Pos)
    requires Fits(l) && p in l.at && Child(p, 0) !in l.at && Child(p, 1) !in l.at && q in l.at && q != p
    ensures if q.depth == 0 then q == ROOT else Parent(q) in l.at && Parent(q) != p
    ensures forall i: Side {:trigger Child(q, i)} :: Child(q, i) == p <==>
      p.depth > 0 && q == Parent(p) && i == p.top % 2
  {
    assert Topped(l.at, q);
    assert q.depth > 0 ==> q == Child(Parent(q), 0) || q == Child(Parent(q), 1);
  }

  lemma CutPlace(t: Tree, l: Layout, m: Memory, m': Memory, p: Pos, q: Pos)
    requires Fits(l) && Wired(t, l, m) && p in l.at && Child(p, 0) !in l.at && Child(p, 1) !in l.at
    requires CutIn(m, l.at[p], m') && q in l.at && q != p
    ensures Topped(l.at - {p}, q) && PlaceOk(t, l.at - {p}, m', q)
  {
    hide Wired, Fits, Child, Parent;
    InMemory(t, l, m, p);
    InMemory(t, l, m, q);
    Beside(t, l, m, p, q);
    CutNear(l, p, q);
    assert m'[l.at[q]] == CutFrom(m, m[l.at[p]].link, l.at[q]);
    assert m'[l.at[q]].child == Want(t, l.at - {p}, q).child;
  }

  lemma CutWired(t: Tree, l: Layout, m: Memory, m': Memory, p: Pos)
    requires Fits(l) && Wired(t, l, m) && p in l.at && Child(p, 0) !in l.at && Child(p, 1) !in l.at
    requires CutIn(m, l.at[p], m')
    ensures Fits(Cut(l, p)) && Wired(t, Cut(l, p), m')
  {
    var l' := Cut(l, p);
    forall q: Pos | q in l'.at
      ensures Topped(l'.at, q) && PlaceOk(t, l'.at, m', q)
    {
      CutPlace(t, l, m, m', p, q);
    }
    Around(t, l, m, p);
  }

  // ---------- the pointers around one node ----------

  /** The pointers of `n` lead to different nodes of the memory, or to the root of the tree. */
  ghost predicate Local(t: Tree, m: Memory, n: Node) {
    && n in m && m[n].link != NoLink
    && (m[n].link.RootLink? ==> m[n].link.tree == t)
    && (m[n].child[0] != null ==> m[n].child[0] in m && m[n].child[0] != n && m[n].child[0] != m[n].child[1])
    && (m[n].child[1] != null ==> m[n].child[1] in m && m[n].child[1] != n)
    && (m[n].link.ChildLink? ==> m[n].link.owner in m && m[n].link.owner != n && m[n].link.owner !in m[n].child)
  }

  lemma IsLocal(t: Tree, l: Layout, m: Memory, p: Pos)
    requires Fits(l) && Wired(t, l, m) && p in l.at
    ensures Local(t, m, l.at[p])
  {
    Around(t, l, m, p);
  }

  lemma AddBare(t: Tree, l: Layout, m: Memory, x: Node)
    requires Wired(t, l, m - {x}) && x in m && m[x] == BARE
    ensures Wired(t, l, m)
  {
    forall p: Pos | p in l.at
      ensures PlaceOk(t, l.at, m, p)
    {
      assert PlaceOk(t, l.at, m - {x}, p);
    }
    forall n | n in m && n !in l.loc
      ensures m[n] == BARE
    {
      assert n != x ==> m[n] == (m - {x})[n];
    }
  }

  lemma DropLoose(t: Tree, l: Layout, m: Memory, x: Node)
    requires Fits(l) && Wired(t, l, m) && x !in l.loc
    ensures Wired(t, l, m - {x})
  {
    forall p: Pos | p in l.at
      ensures PlaceOk(t, l.at, m - {x}, p)
    {
      assert PlaceOk(t, l.at, m, p);
    }
  }

  // ---------- rings ----------

  /** The nodes of one key, oldest first, as a ring. */
  ghost predicate RingOk(ring: seq<Node>, k: nat)
    reads ring`next, ring`prev, ring`key
  {
    && |ring| > 0
    && (forall i, j :: 0 <= i < j < |ring| ==> ring[i] != ring[j])
    && (forall i :: 0 <= i < |ring| ==> ring[i].key == k)
    && (forall i :: 0 <= i < |ring| - 1 ==> ring[i].next == ring[i + 1] && ring[i + 1].prev == ring[i])
    && ring[|ring| - 1].next == ring[0] && ring[0].prev == ring[|ring| - 1]
  }

  /** One ring per key, and each node in the ring of its key. */
  ghost predicate RingsOk(rings: map<nat, seq<Node>>, ns: set<Node>)
    reads ns`next, ns`prev, ns`key
  {
    && (forall k: nat {:trigger OneRing(rings, ns, k)} :: k in rings ==> OneRing(rings, ns, k))
    && (forall n {:trigger n in ns} :: n in ns ==> n.key in rings && n in rings[n.key])
  }

  ghost predicate OneRing(rings: map<nat, seq<Node>>, ns: set<Node>, k: nat)
    requires k in rings
    reads ns`next, ns`prev, ns`key
  {
    (forall n :: n in rings[k] ==> n in ns) && RingOk(rings[k], k)
  }

  /** radixListInsert */
  method ListInsert(node: Node, head: Node, ghost ring: seq<Node>)
    requires RingOk(ring, node.key) && head == ring[0] && node !in ring
    modifies ring`next, ring`prev, node`next, node`prev
    ensures RingOk(ring + [node], node.key)
  {
    var prev := head.prev;
    prev.next := node;
    node.prev := prev;
    head.prev := node;
    node.next := head;
  }

  /** radixListRemove */
  method ListRemove(node: Node, ghost ring: seq<Node>, ghost i: nat)
    requires i < |ring| && |ring| > 1 && ring[i] == node && RingOk(ring, node.key)
    modifies ring`next, ring`prev
    ensures RingOk(ring[..i] + ring[i + 1..], node.key)
  {
    ghost var a, b := if i > 0 then i - 1 else |ring| - 1, if i + 1 < |ring| then i + 1 else 0;
    assert i > 0 ==> ring[a].next == ring[i];
    assert i + 1 < |ring| ==> ring[i].next == ring[b];
    var next, prev := node.next, node.prev;
    assert prev == ring[a] && next == ring[b];
    next.prev := prev;
    prev.next := next;
  }

  // ---------- rings and places ----------

  /** The node at `p` is the first of the ring of its key. */
  ghost predicate HeadAt(l: Layout, rings: map<nat, seq<Node>>, p: Pos) {
    p in l.at && p in l.shape && l.shape[p] in rings && rings[l.shape[p]] != [] && rings[l.shape[p]][0] == l.at[p]
  }

  ghost predicate HeadOf(l: Layout, rings: map<nat, seq<Node>>, k: nat) {
    && k in rings && rings[k] != [] && rings[k][0] in l.loc
    && l.loc[rings[k][0]] in l.shape && l.shape[l.loc[rings[k][0]]] == k
  }

  ghost predicate Heads(l: Layout, rings: map<nat, seq<Node>>) {
    && (forall p: Pos {:trigger HeadAt(l, rings, p)} :: p in l.at ==> HeadAt(l, rings, p))
    && (forall k: nat {:trigger HeadOf(l, rings, k)} :: k in rings ==> HeadOf(l, rings, k))
  }

  lemma HeadsKeys(l: Layout, rings: map<nat, seq<Node>>)
    requires Fits(l) && Heads(l, rings)
    ensures rings.Keys == l.shape.Values
  {
    forall k | k in l.shape.Values
      ensures k in rings
    {
      var p :| p in l.shape && l.shape[p] == k;
      assert HeadAt(l, rings, p);
    }
    forall k | k in rings
      ensures k in l.shape.Values
    {
      assert HeadOf(l, rings, k);
    }
  }

  lemma HeadsPut(l: Layout, rings: map<nat, seq<Node>>, p: Pos, repl: Node, k: nat)
    requires Fits(l) && Heads(l, rings - {k}) && p in l.at && repl !in l.loc
    requires k in rings && rings[k] != [] && rings[k][0] == repl
    ensures Heads(PutAt(l, p, repl, k), rings - {l.shape[p]})
  {
    var l', r' := PutAt(l, p, repl, k), rings - {l.shape[p]};
    assert HeadAt(l, rings - {k}, p);
    forall q: Pos | q in l'.at
      ensures HeadAt(l', r', q)
    {
      assert q != p ==> HeadAt(l, rings - {k}, q);
    }
    forall j: nat | j in r'
      ensures HeadOf(l', r', j)
    {
      assert j != k ==> HeadOf(l, rings - {k}, j);
    }
  }

  lemma HeadsAttach(l: Layout, rings: map<nat, seq<Node>>, p: Pos, x: Node, k: nat)
    requires Fits(l) && Heads(l, rings - {k}) && p !in l.at && x !in l.loc
    requires k in rings && rings[k] != [] && rings[k][0] == x
    ensures Heads(Attach(l, p, x, k), rings)
  {
    var l' := Attach(l, p, x, k);
    forall q: Pos | q in l'.at
      ensures HeadAt(l', rings, q)
    {
      assert q != p ==> HeadAt(l, rings - {k}, q);
    }
    forall j: nat | j in rings
      ensures HeadOf(l', rings, j)
    {
      assert j != k ==> HeadOf(l, rings - {k}, j);
    }
  }

  lemma HeadsCut(l: Layout, rings: map<nat, seq<Node>>, p: Pos)
    requires Fits(l) && Heads(l, rings) && p in l.at
    ensures Heads(Cut(l, p), rings - {l.shape[p]})
  {
    var l', r' := Cut(l, p), rings - {l.shape[p]};
    assert HeadAt(l, rings, p);
    forall q: Pos | q in l'.at
      ensures HeadAt(l', r', q)
    {
      assert HeadAt(l, rings, q);
    }
    forall j: nat | j in r'
      ensures HeadOf(l', r', j)
    {
      assert HeadOf(l, rings, j);
    }
  }

  lemma HeadsExchange(l: Layout, rings: map<nat, seq<Node>>, p: Pos, c: Pos)
    requires Fits(l) && Heads(l, rings) && p in l.at && c in l.at && p != c
    ensures Heads(Exchange(l, p, c), rings)
  {
    var l' := Exchange(l, p, c);
    forall q: Pos | q in l'.at
      ensures HeadAt(l', rings, q)
    {
      assert HeadAt(l, rings, if q == p then c else if q == c then p else q);
    }
    forall j: nat | j in rings
      ensures HeadOf(l', rings, j)
    {
      assert HeadOf(l, rings, j);
    }
  }

  /** A ring may change behind its first node. */
  lemma HeadsKeep(l: Layout, rings: map<nat, seq<Node>>, k: nat, ring: seq<Node>)
    requires Fits(l) && Heads(l, rings) && k in rings && ring != [] && rings[k] != [] && ring[0] == rings[k][0]
    ensures Heads(l, rings[k := ring])
  {
    var r' := rings[k := ring];
    forall q: Pos | q in l.at
      ensures HeadAt(l, r', q)
    {
      assert HeadAt(l, rings, q);
    }
    forall j: nat | j in r'
      ensures HeadOf(l, r', j)
    {
      assert HeadOf(l, rings, j);
    }
  }

  /** The second node of a ring steps up. */
  lemma HeadsPromote(l: Layout, rings: map<nat, seq<Node>>, p: Pos, k: nat, ring: seq<Node>)
    requires Fits(l) && Heads(l, rings) && p in l.at && l.shape[p] == k && ring != [] && ring[0] !in l.loc
    ensures Heads(PutAt(l, p, ring[0], k), rings[k := ring])
  {
    var l', r' := PutAt(l, p, ring[0], k), rings[k := ring];
    assert HeadAt(l, rings, p);
    forall q: Pos | q in l'.at
      ensures HeadAt(l', r', q)
    {
      assert HeadAt(l, rings, q);
    }
    forall j: nat | j in r'
      ensures HeadOf(l', r', j)
    {
      assert j != k ==> HeadOf(l, rings, j);
    }
  }

  class Tree {
    var root: Node?
    const keyBits: nat
    ghost var lay: Layout
    ghost var rings: map<nat, seq<Node>>
    ghost var nodes: set<Node>

    ghost predicate Hooked(ns: set<Node>)
      reads this`root, this`lay, ns`child, ns`parent, ns`link
    {
      Fits(lay) && Wired(this, lay, Mem(ns)) && root == Get(lay.at, ROOT)
    }

    /** `*link = n` */
    method Store(link: Link, n: Node?, ghost ns: set<Node>)
      requires link != NoLink && (link.RootLink? ==> link.tree == this) && (link.ChildLink? ==> link.owner in ns)
      modifies this`root, ns`child
      ensures root == if link.RootLink? then n else old(root)
      ensures forall x {:trigger x.child} :: x in ns ==>
        x.child == if link.ChildLink? && x == link.owner then old(x.child)[link.side := n] else old(x.child)
    {
      match link
      case RootLink(t) => t.root := n;
      case ChildLink(o, side) => o.child := o.child[side := n];
    }

    /** A child, if there is one, gets the pointers back to its parent. */
    method PointBack(owner: Node, side: Side, ghost ns: set<Node>)
      requires owner.child[side] != null ==> owner.child[side] in ns
      modifies ns`parent, ns`link
      ensures forall x {:trigger x.parent} :: x in ns ==>
        x.parent == if x == owner.child[side] then owner else old(x.parent)
      ensures forall x {:trigger x.link} :: x in ns ==>
        x.link == if x == owner.child[side] then ChildLink(owner, side) else old(x.link)
    {
      if owner.child[side] != null {
        owner.child[side].link := ChildLink(owner, side);
        owner.child[side].parent := owner;
      }
    }

    /** The loop over both children at the end of radixTreeSwapParentWithChild and in radixTreeReplaceNode. */
    method TakeChildren(owner: Node, kids: Pair, ghost ns: set<Node>)
      requires owner in ns && (forall i: Side {:trigger kids[i]} :: kids[i] != null ==> kids[i] in ns)
      requires kids[0] != null ==> kids[0] != kids[1]
      modifies ns`child, ns`parent, ns`link
      ensures forall x {:trigger x.child} :: x in ns ==> x.child == if x == owner then kids else old(x.child)
      ensures forall x {:trigger x.parent} :: x in ns ==> x.parent == if x in kids then owner else old(x.parent)
      ensures forall x {:trigger x.link} :: x in ns ==>
        x.link == if x == kids[0] then ChildLink(owner, 0) else if x == kids[1] then ChildLink(owner, 1)
          else old(x.link)
    {
      owner.child := owner.child[0 := kids[0]];
      PointBack(owner, 0, ns);
      owner.child := owner.child[1 := kids[1]];
      PointBack(owner, 1, ns);
    }

    /** radixTreeReplaceNode */
    method ReplaceNode(orig: Node, repl: Node, ghost ns: set<Node>)
      requires Local(this, Mem(ns), orig) && repl in ns && repl.Ptrs() == BARE
      requires repl != orig && repl !in orig.child && (orig.link.ChildLink? ==> repl != orig.link.owner)
      modifies this`root, ns`child, ns`parent, ns`link
      ensures orig in Mem(ns) && orig in old(Mem(ns))
      ensures orig.Ptrs() == old(orig.Ptrs())
      ensures forall n {:trigger n.Ptrs()} :: n in ns && n != orig ==> n.Ptrs() == Replaced(old(Mem(ns)), orig, repl, n)
      ensures root == if old(orig.link).RootLink? then repl else old(root)
    {
      hide Replaced;
      ghost var m := Mem(ns);
      assert m[orig] == orig.Ptrs();
      repl.link := orig.link;
      repl.parent := orig.parent;
      TakeChildren(repl, orig.child, ns);
      Store(repl.link, repl, ns);
      forall n {:trigger n.Ptrs()} | n in ns && n != orig
        ensures n.Ptrs() == Replaced(m, orig, repl, n)
      {
        assert m[n] == old(n.Ptrs());
        InReplaced(m, orig, repl, n, n.Ptrs());
      }
    }

    /** The pointers of a node after a replacement, one by one. */
    static lemma InReplaced(m: Memory, orig: Node, repl: Node, n: Node, r: Pointers)
      requires orig in m && n in m && n != orig && repl !in m[orig].child
      requires m[orig].link.ChildLink? ==> m[orig].link.owner !in m[orig].child && m[orig].link.owner != repl
      requires r.child == if n == repl then m[orig].child
        else if m[orig].link.ChildLink? && n == m[orig].link.owner then m[n].child[m[orig].link.side := repl]
        else m[n].child
      requires r.parent == if n in m[orig].child then repl else if n == repl then m[orig].parent else m[n].parent
      requires r.link == if n == m[orig].child[0] then ChildLink(repl, 0)
        else if n == m[orig].child[1] then ChildLink(repl, 1)
        else if n == repl then m[orig].link else m[n].link
      ensures r == Replaced(m, orig, repl, n)
    {
    }

    /** The displaced node keeps no pointers. */
    static method Detach(cur: Node, ghost ns: set<Node>)
      requires cur in ns
      modifies cur`child, cur`parent, cur`link
      ensures cur.Ptrs() == BARE && forall n {:trigger n.Ptrs()} :: n in ns && n != cur ==> n.Ptrs() == old(n.Ptrs())
    {
      cur.child := [null, null];
      cur.parent := null;
      cur.link := NoLink;
    }

    /** The node that takes the place of a node with a greater key. */
    method Displace(cur: Node, node: Node, ghost p: Pos, ghost ns: set<Node>)
      requires Hooked(ns) && p in lay.at && cur == lay.at[p] && node in ns && node !in lay.loc
      modifies this`root, this`lay, ns`child, ns`parent, ns`link
      ensures cur !in lay.loc && cur in ns && lay == PutAt(old(lay), p, node, node.key) && Hooked(ns)
    {
      hide Fits, Wired, Replaced;
      ghost var l, m := lay, Mem(ns);
      BeforeReplace(node, p, ns);
      ReplaceNode(cur, node, ns);
      Detach(cur, ns);
      lay := PutAt(l, p, node, node.key);
      ReplaceWired(this, l, m, Mem(ns) - {cur}, p, node, node.key);
      AddBare(this, lay, Mem(ns), cur);
    }

    lemma BeforeReplace(repl: Node, p: Pos, ns: set<Node>)
      requires Hooked(ns) && p in lay.at && repl in ns && repl !in lay.loc
      ensures var orig, m := lay.at[p], Mem(ns);
        && p in lay.shape && orig in ns && m[orig] == orig.Ptrs() && Local(this, m, orig) && repl.Ptrs() == BARE
        && repl != orig && repl !in orig.child && (orig.link.ChildLink? ==> repl != orig.link.owner)
        && (orig.link.RootLink? <==> p == ROOT)
    {
      var m := Mem(ns);
      IsLocal(this, lay, m, p);
      Around(this, lay, m, p);
      assert m[repl] == BARE;
    }

    /** The nodes around `x` and its child `c` are all different. */
    static ghost predicate Pairwise(t: Tree, m: Memory, x: Node, side: Side) {
      && Local(t, m, x) && m[x].child[side] != null && Local(t, m, m[x].child[side])
      && var c := m[x].child[side];
      && m[c].parent == x && m[c].link == ChildLink(x, side)
      && (m[x].child[1 - side] != null ==> m[x].child[1 - side] !in m[c].child)
      && (m[x].link.ChildLink? ==> m[x].link.owner !in m[c].child)
    }

    static lemma Located(l: Layout, p: Pos)
      requires Fits(l) && p in l.at
      ensures l.at[p] in l.loc && l.loc[l.at[p]] == p
      ensures p.depth > 0 ==> Parent(p) in l.at && l.at[Parent(p)] in l.loc && l.loc[l.at[Parent(p)]] == Parent(p)
    {
      assert Topped(l.at, p);
    }

    static lemma IsPairwise(t: Tree, l: Layout, m: Memory, p: Pos, side: Side)
      requires Fits(l) && Wired(t, l, m) && p in l.at && Child(p, side) in l.at
      ensures l.at[p] in m && m[l.at[p]].child[side] == l.at[Child(p, side)]
      ensures Pairwise(t, m, l.at[p], side)
    {
      hide Wired, Local, Fits, Child, Parent;
      var c := Child(p, side);
      IsLocal(t, l, m, p);
      IsLocal(t, l, m, c);
      Around(t, l, m, p);
      Around(t, l, m, c);
      NearPair(p, side);
      Located(l, p);
      assert m[l.at[c]].child[0] == null || l.loc[m[l.at[c]].child[0]] == Child(c, 0);
      assert m[l.at[c]].child[1] == null || l.loc[m[l.at[c]].child[1]] == Child(c, 1);
    }

    lemma SwapFacts(x: Node, c: Node, side: Side, ns: set<Node>)
      requires x in ns && Pairwise(this, Mem(ns), x, side) && c == x.child[side]
      ensures x != c && c in ns && x.child[1 - side] != c && (x.child[1 - side] != null ==> x.child[1 - side] in ns)
      ensures x.child[1 - side] != x && (x.child[1 - side] != null ==> x.child[1 - side] !in c.child)
      ensures x !in c.child && c !in c.child && (c.child[0] != null ==> c.child[0] != c.child[1])
      ensures forall i: Side {:trigger c.child[i]} :: c.child[i] != null ==> c.child[i] in ns
      ensures x.link != NoLink && (x.link.RootLink? ==> x.link.tree == this)
      ensures x.link.ChildLink? ==>
        x.link.owner in ns && x.link.owner != x && x.link.owner !in x.child && x.link.owner !in c.child
    {
      var m := Mem(ns);
      assert m[x] == x.Ptrs() && m[c] == c.Ptrs();
    }

    /** radixTreeSwapParentWithChild */
    method SwapParentWithChild(oldParent: Node, oldChild: Node, ghost side: Side, ghost ns: set<Node>)
      requires oldParent in ns && Pairwise(this, Mem(ns), oldParent, side) && oldChild == oldParent.child[side]
      requires oldChild.parent == oldParent
      modifies this`root, ns`child, ns`parent, ns`link
      ensures forall n {:trigger n.child} :: n in ns ==>
        n.child == (if n == oldParent then old(oldChild.child)
        else if n == oldChild then old(oldParent.child)[side := oldParent]
        else if old(oldParent.link).ChildLink? && n == old(oldParent.link).owner
          then old(n.child)[old(oldParent.link).side := oldChild]
        else old(n.child))
      ensures forall n {:trigger n.parent} :: n in ns ==>
        n.parent == (if n == oldParent || n == old(oldParent.child)[1 - side] then oldChild
        else if n == oldChild then old(oldParent.parent)
        else if n in old(oldChild.child) then oldParent
        else old(n.parent))
      ensures forall n {:trigger n.link} :: n in ns ==>
        n.link == (if n == oldParent then ChildLink(oldChild, side)
        else if n == oldChild then old(oldParent.link)
        else if n == old(oldParent.child)[1 - side] then ChildLink(oldChild, 1 - side)
        else if n == old(oldChild.child)[0] then ChildLink(oldParent, 0)
        else if n == old(oldChild.child)[1] then ChildLink(oldParent, 1)
        else old(n.link))
      ensures root == if old(oldParent.link).RootLink? then oldChild else old(root)
    {
      hide Pairwise, Local, Mem;
      SwapFacts(oldParent, oldChild, side, ns);
      var childNumber: Side := if oldParent.child[1] == oldChild then 1 else 0;
      var otherChildNumber: Side := 1 - childNumber;
      var swapLink, oldChildChild := oldParent.link, oldChild.child;
      oldParent.link := ChildLink(oldChild, childNumber);
      oldChild.child := oldChild.child[childNumber := oldParent];
      oldChild.child := oldChild.child[otherChildNumber := oldParent.child[otherChildNumber]];
      PointBack(oldChild, otherChildNumber, ns);
      oldChild.link := swapLink;
      Store(swapLink, oldChild, ns);
      var swapParent := oldParent.parent;
      oldParent.parent := oldChild;
      oldChild.parent := swapParent;
      TakeChildren(oldParent, oldChildChild, ns);
    }

    static lemma InExchange(t: Tree, m: Memory, x: Node, side: Side, n: Node, r: Pointers)
      requires Pairwise(t, m, x, side) && n in m
      requires var o, c := m[x], m[x].child[side];
        && r.child == (if n == x then m[c].child
          else if n == c then o.child[side := x]
          else if o.link.ChildLink? && n == o.link.owner then m[n].child[o.link.side := c]
          else m[n].child)
        && r.parent == (if n == x || n == o.child[1 - side] then c
          else if n == c then o.parent
          else if n in m[c].child then x
          else m[n].parent)
        && r.link == (if n == x then ChildLink(c, side)
          else if n == c then o.link
          else if n == o.child[1 - side] then ChildLink(c, 1 - side)
          else if n == m[c].child[0] then ChildLink(x, 0)
          else if n == m[c].child[1] then ChildLink(x, 1)
          else m[n].link)
      ensures r == Exchanged(m, x, side, n)
    {
    }

    method Sink(node: Node, child: Node, ghost p: Pos, ghost side: Side, ghost ns: set<Node>)
      requires Hooked(ns) && p in lay.at && node == lay.at[p] && Child(p, side) in lay.at
        && child == lay.at[Child(p, side)]
      modifies this`root, this`lay, ns`child, ns`parent, ns`link
      ensures p in old(lay.shape) && Child(p, side) in old(lay.shape)
      ensures lay == Exchange(old(lay), p, Child(p, side)) && Hooked(ns)
    {
      hide Fits, Wired, Exchanged, Pairwise, Swapped;
      ghost var l, m := lay, Mem(ns);
      BeforeSwap(p, side, ns);
      SwapParentWithChild(node, child, side, ns);
      lay := Exchange(l, p, Child(p, side));
      forall n {:trigger Exchanged(m, node, side, n)} | n in ns
        ensures n.Ptrs() == Exchanged(m, node, side, n)
      {
        assert m[n] == old(n.Ptrs()) && m[node] == old(node.Ptrs()) && m[child] == old(child.Ptrs());
        InExchange(this, m, node, side, n, n.Ptrs());
      }
      ExchangeWired(this, l, m, Mem(ns), p, side);
    }

    lemma BeforeSwap(p: Pos, side: Side, ns: set<Node>)
      requires Hooked(ns) && p in lay.at && Child(p, side) in lay.at
      ensures var x, c, m := lay.at[p], lay.at[Child(p, side)], Mem(ns);
        && p in lay.shape && Child(p, side) in lay.shape && Child(p, side) != ROOT
        && x in ns && c in ns && m[x] == x.Ptrs() && Pairwise(this, m, x, side) && c == x.child[side] && c.parent == x
        && (x.link.RootLink? <==> p == ROOT)
    {
      var m := Mem(ns);
      IsPairwise(this, lay, m, p, side);
      Around(this, lay, m, p);
      assert m[lay.at[Child(p, side)]] == lay.at[Child(p, side)].Ptrs();
    }

    /** The end of radixTreeInsert: a free place is taken. */
    method Settle(link: Link, parent: Node?, node: Node, ghost p: Pos, ghost ns: set<Node>)
      requires Hooked(ns) && p !in lay.at && Topped(lay.at, p) && node in ns && node !in lay.loc
      requires link == LinkTo(this, lay.at, p) && parent == (if p.depth == 0 then null else Get(lay.at, Parent(p)))
      modifies this`root, this`lay, ns`child, ns`parent, ns`link
      ensures lay == Attach(old(lay), p, node, node.key) && Hooked(ns)
    {
      hide Fits, Wired;
      ghost var l, m := lay, Mem(ns);
      BeforeSettle(node, p, ns);
      node.link := link;
      Store(node.link, node, ns);
      node.parent := parent;
      lay := Attach(l, p, node, node.key);
      AttachWired(this, l, m, Mem(ns), p, node, node.key);
    }

    lemma BeforeSettle(node: Node, p: Pos, ns: set<Node>)
      requires Hooked(ns) && p !in lay.at && Topped(lay.at, p) && node in ns && node !in lay.loc
      ensures node.Ptrs() == BARE && Mem(ns)[node] == BARE
      ensures p.depth > 0 ==> Parent(p) in lay.at && lay.at[Parent(p)] in ns && lay.at[Parent(p)] != node
      ensures p.depth == 0 ==> p == ROOT
    {
      assert Mem(ns)[node] == BARE;
      if p.depth > 0 {
        InMemory(this, lay, Mem(ns), Parent(p));
      }
    }

    /** The end of radixTreeRemove: a leaf is cut off. */
    method CutLeaf(node: Node, ghost p: Pos, ghost ns: set<Node>)
      requires Hooked(ns) && p in lay.at && node == lay.at[p] && Child(p, 0) !in lay.at && Child(p, 1) !in lay.at
      modifies this`root, this`lay, ns`child
      ensures lay == Cut(old(lay), p) && Hooked(ns - {node})
    {
      hide Fits, Wired;
      ghost var l, m := lay, Mem(ns);
      BeforeCut(p, ns);
      Store(node.link, null, ns);
      lay := Cut(l, p);
      assert Mem(ns - {node}).Keys == m.Keys - {node};
      CutWired(this, l, m, Mem(ns - {node}), p);
    }

    lemma BeforeCut(p: Pos, ns: set<Node>)
      requires Hooked(ns) && p in lay.at
      ensures lay.at[p] in ns && Mem(ns)[lay.at[p]] == lay.at[p].Ptrs()
      ensures lay.at[p].link != NoLink
      ensures p == ROOT ==> lay.at[p].link == RootLink(this)
      ensures p != ROOT ==> lay.at[p].link.ChildLink? && lay.at[p].link.owner in ns
    {
      Around(this, lay, Mem(ns), p);
    }

    // ---------- the operations ----------

    ghost predicate Sound()
      reads this, nodes`key, nodes`next, nodes`prev, nodes`child, nodes`parent, nodes`link
    {
      Hooked(nodes) && RingsOk(rings, nodes) && Heads(lay, rings)
    }

    ghost predicate Valid()
      reads this, nodes`key, nodes`next, nodes`prev, nodes`child, nodes`parent, nodes`link
    {
      Sound() && Ok(lay.shape, keyBits)
    }

    constructor (keyBits: nat)
      ensures Valid() && this.keyBits == keyBits && rings == map[] && nodes == {}
    {
      this.keyBits := keyBits;
      root := null;
      lay := Layout(map[], map[], map[]);
      rings, nodes := map[], {};
    }

    /** The key of the node at `p`. */
    lemma KeyAt(rs: map<nat, seq<Node>>, ns: set<Node>, p: Pos)
      requires HeadAt(lay, rs, p) && RingsOk(rs, ns)
      ensures lay.at[p].key == lay.shape[p] && lay.at[p] in ns
    {
      assert OneRing(rs, ns, lay.shape[p]);
    }

    ghost predicate IsPrimary(n: Node?, m: Maybe)
      reads this`lay, this`rings, n
    {
      if m.Yes? then m.key in rings && rings[m.key] != [] && n == rings[m.key][0] && n.key == m.key else n == null
    }

    lemma PrimaryAt(p: Pos)
      requires Sound()
      ensures Get(lay.at, p) == null <==> p !in lay.shape
      ensures p in lay.shape ==> p in lay.at && IsPrimary(lay.at[p], Yes(lay.shape[p])) && lay.at[p] in nodes
      ensures p in lay.shape ==>
        forall i: Side {:trigger lay.at[p].child[i]} :: lay.at[p].child[i] == Get(lay.at, Child(p, i))
    {
      if p in lay.shape {
        assert p in lay.at && HeadAt(lay, rings, p);
        KeyAt(rings, nodes, p);
        Around(this, lay, Mem(nodes), p);
      }
    }

    /** radixTreeFindGEQ */
    method FindGeq(key: nat) returns (r: Node?)
      requires Valid() && key < Pow2(keyBits)
      ensures r == null ==> forall k :: k in rings ==> k < key
      ensures r != null ==> r.key in rings && rings[r.key] != [] && r == rings[r.key][0] && key <= r.key
      ensures r != null ==> forall k :: k in rings && key <= k ==> r.key <= k
    {
      hide Ok, Fits, Wired, RingsOk, Heads, Seeks;
      var node, found, gtTree := root, null, null;
      var curKeyBit := keyBits;
      ghost var p, f, g := ROOT, No, No;
      SeekStart(lay.shape, keyBits, key);
      HeadsKeys(lay, rings);
      while node != null
        invariant node == Get(lay.at, p) && curKeyBit + p.depth == keyBits
        invariant Seeks(lay.shape, keyBits, key, p, f, g)
        invariant IsPrimary(found, f) && IsPrimary(gtTree, g)
        decreases curKeyBit
      {
        PrimaryAt(p);
        if node.key == key {
          SeekHit(lay.shape, keyBits, key, p);
          return node;
        }
        SeekStep(lay.shape, keyBits, key, p, f, g);
        if node.key > key {
          found := SmallerNode(node, found);
          f := if f.No? || lay.shape[p] < f.key then Yes(lay.shape[p]) else f;
        }
        curKeyBit := curKeyBit - 1;
        var childToTake := Bit(key, curKeyBit);
        PrimaryAt(Child(p, 1));
        if childToTake == 0 && node.child[1] != null {
          gtTree := node.child[1];
          g := Yes(lay.shape[Child(p, 1)]);
        }
        node := node.child[childToTake];
        p := Child(p, childToTake);
      }
      PrimaryAt(p);
      SeekEnd(lay.shape, keyBits, key, p, f, g);
      if found == null {
        found := gtTree;
      }
      return found;
    }

    /** radixTreeGetSmallerNode */
    method SmallerNode(first: Node, second: Node?) returns (r: Node)
      ensures r == if second == null || first.key < second.key then first else second
    {
      r := if second == null || first.key < second.key then first else second;
    }

    /** `*link` */
    function Deref(link: Link): Node?
      requires link != NoLink && (link.RootLink? ==> link.tree == this)
      reads this`root, (match link case ChildLink(o, _) => {o} case _ => {})`child
    {
      match link
      case RootLink(t) => t.root
      case ChildLink(o, side) => o.child[side]
    }

    /** What the pointer to a place points to. */
    lemma DerefAt(ns: set<Node>, p: Pos, link: Link, parent: Node?)
      requires Points(ns, p, link, parent)
      ensures link != NoLink && (link.RootLink? ==> link.tree == this) && Deref(link) == Get(lay.at, p)
    {
      if p.depth > 0 {
        InMemory(this, lay, Mem(ns), Parent(p));
        assert Mem(ns)[lay.at[Parent(p)]] == lay.at[Parent(p)].Ptrs();
        ChildParent(Parent(p), p.top % 2, p);
      }
    }

    /** A new node that is not yet in a place. */
    lemma Enter(ns: set<Node>, node: Node)
      requires Fits(lay) && Wired(this, lay, Mem(ns)) && node !in ns && node.Ptrs() == BARE
      ensures Wired(this, lay, Mem(ns + {node})) && node !in lay.loc
    {
      assert Mem(ns + {node}) - {node} == Mem(ns);
      AddBare(this, lay, Mem(ns + {node}), node);
      assert node in lay.loc ==> PlaceOk(this, lay.at, Mem(ns), lay.loc[node]);
    }

    lemma NewRing(rs: map<nat, seq<Node>>, ns: set<Node>, node: Node)
      requires RingsOk(rs, ns) && node !in ns && node.key !in rs && node.next == node && node.prev == node
      ensures RingsOk(rs[node.key := [node]], ns + {node})
    {
      var rs', ns' := rs[node.key := [node]], ns + {node};
      forall k: nat | k in rs'
        ensures OneRing(rs', ns', k)
      {
        assert k != node.key ==> OneRing(rs, ns, k);
      }
    }

    /** Node `n` with a new key is on its way down and has come to `p`. */
    ghost predicate Travels(ns: set<Node>, rs: map<nat, seq<Node>>, n: Node, p: Pos)
      reads this`lay, ns`key, ns`next, ns`prev
    {
      && n in ns && n !in lay.loc && RingsOk(rs, ns) && Arrives(lay.shape, keyBits, p, n.key)
      && n.key in rs && rs[n.key] != [] && rs[n.key][0] == n && Heads(lay, rs - {n.key})
    }

    /** Node `n` is on its way to the ring of its key. */
    ghost predicate Returns(ns: set<Node>, rs: map<nat, seq<Node>>, n: Node, p: Pos)
      reads this`lay, ns`key, ns`next, ns`prev, n`key
    {
      && n !in ns && n !in lay.loc && RingsOk(rs, ns) && Heads(lay, rs)
      && Ok(lay.shape, keyBits) && n.key < Pow2(keyBits) && On(n.key, p, keyBits) && n.key in lay.shape.Values
      && (p.depth > 0 ==> Parent(p) in lay.shape && lay.shape[Parent(p)] < n.key)
    }

    ghost predicate OnWay(isNew: bool, ns: set<Node>, rs: map<nat, seq<Node>>, n: Node, p: Pos)
      reads this`lay, ns`key, ns`next, ns`prev, n`key
    {
      if isNew then Travels(ns, rs, n, p) else Returns(ns - {n}, rs, n, p)
    }

    /** The first key stands above `p` once its node has taken a place. */
    ghost predicate Passed(key: nat, p: Pos)
      reads this`lay
    {
      exists q: Pos {:trigger q in lay.shape} :: q in lay.shape && q.depth < p.depth && lay.shape[q] == key
    }

    lemma WayStart(isNew: bool, ns: set<Node>, rs: map<nat, seq<Node>>, n: Node)
      requires Fits(lay) && Ok(lay.shape, keyBits) && n in ns && n !in lay.loc && n.key < Pow2(keyBits)
      requires if isNew then RingsOk(rs, ns) && n.key in rs && rs[n.key] == [n] && Heads(lay, rs - {n.key})
        else RingsOk(rs, ns - {n}) && Heads(lay, rs) && n.key in rs
      ensures OnWay(isNew, ns, rs, n, ROOT)
    {
      RootPlace(n.key, keyBits);
      if isNew {
        HeadsKeys(lay, rs - {n.key});
      } else {
        HeadsKeys(lay, rs);
      }
    }

    lemma WayKey(isNew: bool, ns: set<Node>, rs: map<nat, seq<Node>>, n: Node, p: Pos)
      requires OnWay(isNew, ns, rs, n, p) && p in lay.at && Fits(lay)
      ensures lay.at[p].key == lay.shape[p] && lay.at[p] in ns && (lay.at[p] != n)
    {
      var rs', ns' := if isNew then rs - {n.key} else rs, if isNew then ns else ns - {n};
      assert HeadAt(lay, rs', p);
      assert HeadAt(lay, rs, p);
      KeyAt(rs, ns', p);
    }

    /** A step down past a node with a smaller key. */
    lemma WayDown(isNew: bool, ns: set<Node>, rs: map<nat, seq<Node>>, n: Node, p: Pos, key: nat)
      requires OnWay(isNew, ns, rs, n, p) && p in lay.shape && lay.shape[p] <= n.key && (isNew || lay.shape[p] != n.key)
      ensures p.depth < keyBits && OnWay(isNew, ns, rs, n, Child(p, Bit(n.key, keyBits - p.depth - 1)))
      ensures Passed(key, p) ==> Passed(key, Child(p, Bit(n.key, keyBits - p.depth - 1)))
    {
      if isNew {
        ArriveStep(lay.shape, keyBits, p, n.key);
      } else {
        StoredBelow(lay.shape, keyBits, p, n.key);
      }
    }

    /** Nothing is displaced for the sake of a key that is in the tree. */
    lemma WayBlocked(isNew: bool, ns: set<Node>, rs: map<nat, seq<Node>>, n: Node, p: Pos)
      requires OnWay(isNew, ns, rs, n, p) && (p in lay.shape ==> n.key < lay.shape[p])
      ensures isNew && Travels(ns, rs, n, p)
    {
      if !isNew {
        StoredBelow(lay.shape, keyBits, p, n.key);
      }
    }

    /** The node displaced at `p` goes on below it. */
    lemma WayDisplaced(ns: set<Node>, rs: map<nat, seq<Node>>, l: Layout, n: Node, cur: Node, p: Pos)
      requires Fits(l) && Arrives(l.shape, keyBits, p, n.key) && p in l.shape && p in l.at && n.key < l.shape[p]
      requires n !in l.loc && n.key in rs && rs[n.key] != [] && rs[n.key][0] == n && Heads(l, rs - {n.key})
      requires cur == l.at[p] && cur in ns && cur.key == l.shape[p] && RingsOk(rs, ns)
      requires lay == PutAt(l, p, n, n.key)
      ensures p.depth < keyBits && Travels(ns, rs, cur, Child(p, Bit(cur.key, keyBits - p.depth - 1)))
    {
      DisplaceStep(l.shape, keyBits, p, n.key);
      assert HeadAt(l, rs - {n.key}, p);
      HeadsPut(l, rs, p, n, n.key);
    }

    /** The branch of radixTreeInsert's loop that exchanges the node with the current one. */
    method TakeOver(n: Node, cur: Node, ghost p: Pos, ghost ns: set<Node>, ghost rs: map<nat, seq<Node>>,
        ghost key: nat)
      requires Hooked(ns) && OnWay(true, ns, rs, n, p) && p in lay.at && cur == lay.at[p] && n.key < cur.key
      modifies this`root, this`lay, ns`child, ns`parent, ns`link
      ensures Hooked(ns) && p.depth < keyBits && OnWay(true, ns, rs, cur, Child(p, Bit(cur.key, keyBits - p.depth - 1)))
      ensures p in lay.at && lay.at[p] == n && cur in ns
      ensures n.key == key || old(Passed(key, p)) ==> Passed(key, Child(p, Bit(cur.key, keyBits - p.depth - 1)))
    {
      hide Fits, Wired, Arrives, RingsOk, Heads;
      WayKey(true, ns, rs, n, p);
      ghost var l := lay;
      assert p in l.shape by {
        assert HeadAt(l, rs - {n.key}, p) by { HeadHere(l, rs - {n.key}, p); }
      }
      Displace(cur, n, p, ns);
      WayDisplaced(ns, rs, l, n, cur, p);
      assert n.key == key ==> lay.shape[p] == key;
      if q: Pos :| q in l.shape && q.depth < p.depth && l.shape[q] == key {
        assert q in lay.shape;
      }
    }

    static lemma HeadHere(l: Layout, rs: map<nat, seq<Node>>, p: Pos)
      requires Heads(l, rs) && p in l.at
      ensures HeadAt(l, rs, p)
    {
    }

    lemma SameShape(p: Pos)
      requires Fits(lay)
      ensures p in lay.at <==> p in lay.shape
    {
    }

    /** The walk ends at the ring of the key, or else at a free place. */
    lemma WayEnd(isNew: bool, ns: set<Node>, rs: map<nat, seq<Node>>, n: Node, p: Pos, key: nat)
      requires n.key == key || (isNew && Passed(key, p))
      requires Hooked(ns) && OnWay(isNew, ns, rs, n, p)
      ensures n !in lay.loc
      ensures p in lay.at && lay.at[p].key == key ==> !isNew && n.key == key && Returns(ns - {n}, rs, n, p)
      ensures p !in lay.at ==> isNew && Travels(ns, rs, n, p)
    {
      SameShape(p);
      if p in lay.at {
        WayKey(isNew, ns, rs, n, p);
        if isNew && lay.shape[p] == key && n.key != key {
          var q: Pos :| q in lay.shape && q.depth < p.depth && lay.shape[q] == key;
          KeyOnce(lay.shape, keyBits, p, q);
        }
      } else {
        WayBlocked(isNew, ns, rs, n, p);
      }
    }

    /** A node joins the ring of its key. */
    static method JoinRing(node: Node, head: Node, ghost rs: map<nat, seq<Node>>, ghost ns: set<Node>)
      requires RingsOk(rs, ns) && node !in ns && node.key in rs && rs[node.key] != [] && head == rs[node.key][0]
      modifies ns`next, ns`prev, node`next, node`prev
      ensures RingsOk(rs[node.key := rs[node.key] + [node]], ns + {node})
    {
      ghost var ring, rs', ns' := rs[node.key], rs[node.key := rs[node.key] + [node]], ns + {node};
      assert OneRing(rs, ns, node.key);
      forall x | x in ns
        ensures x.key in rs && x in rs[x.key] && x in rs'[x.key]
      {
      }
      ListInsert(node, head, ring);
      forall k: nat | k in rs'
        ensures OneRing(rs', ns', k)
      {
        if k != node.key {
          assert old(OneRing(rs, ns, k));
          assert forall x :: x in rs[k] ==> x !in ring && x != node;
        }
      }
      assert (ring + [node])[|ring|] == node;
    }

    method Join(node: Node, head: Node, ghost p: Pos, ghost ns: set<Node>)
      requires Hooked(ns) && node in ns && Returns(nodes, rings, node, p) && nodes == ns - {node}
      requires p in lay.at && head == lay.at[p] && head.key == node.key
      modifies this`rings, this`nodes, ns`next, ns`prev
      ensures Valid() && nodes == ns
      ensures node.key in old(rings) && rings == old(rings)[node.key := old(rings)[node.key] + [node]]
    {
      hide Fits, Wired, Ok, Heads, RingsOk;
      HeadHere(lay, rings, p);
      KeyAt(rings, nodes, p);
      ghost var ring, rs := rings[node.key], rings;
      JoinRing(node, head, rings, nodes);
      assert nodes + {node} == ns;
      rings, nodes := rings[node.key := ring + [node]], ns;
      HeadsKeep(lay, rs, node.key, ring + [node]);
    }

    lemma Settled(n: Node, l: Layout, p: Pos)
      requires Hooked(nodes) && RingsOk(rings, nodes) && lay == Attach(l, p, n, n.key)
      requires Fits(l) && Arrives(l.shape, keyBits, p, n.key) && p !in l.at && n !in l.loc
      requires n.key in rings && rings[n.key] != [] && rings[n.key][0] == n && Heads(l, rings - {n.key})
      ensures Valid()
    {
      assert p !in l.shape;
      SettleOk(l.shape, keyBits, p, n.key);
      HeadsAttach(l, rings, p, n, n.key);
    }

    method Finish(link: Link, parent: Node?, n: Node, ghost p: Pos, ghost ns: set<Node>, ghost rs: map<nat, seq<Node>>)
      requires Points(ns, p, link, parent) && p !in lay.at && Travels(ns, rs, n, p)
      modifies this`root, this`lay, this`rings, this`nodes, ns`child, ns`parent, ns`link
      ensures Valid() && rings == rs && nodes == ns
    {
      hide Fits, Wired, RingsOk, Arrives, Ok, Heads;
      ghost var l := lay;
      Settle(link, parent, n, p, ns);
      rings, nodes := rs, ns;
      Settled(n, l, p);
    }

    /** A pointer to place `p`, and the node it belongs to. */
    ghost predicate Points(ns: set<Node>, p: Pos, link: Link, parent: Node?)
      reads this`root, this`lay, ns`child, ns`parent, ns`link
    {
      && Hooked(ns) && Topped(lay.at, p)
      && link == LinkTo(this, lay.at, p) && parent == if p.depth == 0 then null else Get(lay.at, Parent(p))
    }

    /** The loop body of radixTreeInsert. */
    method Descend(n: Node, cur: Node, curKeyBit: nat, ghost isNew: bool, ghost p: Pos, ghost ns: set<Node>,
        ghost rs: map<nat, seq<Node>>, ghost key: nat)
      returns (n': Node, parent: Node, link: Link, curKeyBit': nat, ghost p': Pos)
      requires Hooked(ns) && OnWay(isNew, ns, rs, n, p) && cur == Get(lay.at, p) && n in ns
        && curKeyBit + p.depth == keyBits
      requires n.key == key || (isNew && Passed(key, p))
      requires cur.key != key
      modifies this`root, this`lay, ns`child, ns`parent, ns`link
      ensures OnWay(isNew, ns, rs, n', p') && n' in ns && curKeyBit' + p'.depth == keyBits && curKeyBit' < curKeyBit
      ensures n' == n || (isNew && Passed(key, p'))
      ensures old(Passed(key, p)) ==> Passed(key, p')
      ensures Points(ns, p', link, parent)
    {
      hide Ok, Fits, Wired, RingsOk, Heads, Travels, Returns, OnWay, Passed;
      n' := n;
      var cur' := cur;
      WayKey(isNew, ns, rs, n, p);
      SameShape(p);
      if n'.key < cur'.key {
        WayBlocked(isNew, ns, rs, n, p);
        TakeOver(n, cur, p, ns, rs, key);
        n', cur' := cur', n';
      } else {
        WayDown(isNew, ns, rs, n, p, key);
      }
      parent := cur';
      curKeyBit' := curKeyBit - 1;
      var childToTake := Bit(n'.key, curKeyBit');
      link := ChildLink(cur', childToTake);
      p' := Child(p, childToTake);
    }

    /** radixTreeInsert */
    method Insert(node: Node, key: nat)
      requires Valid() && node !in nodes && key < Pow2(keyBits)
      modifies this`root, this`lay, this`rings, this`nodes, node, nodes
      ensures Valid() && nodes == old(nodes) + {node}
      ensures rings == old(rings)[key := (if key in old(rings) then old(rings)[key] else []) + [node]]
    {
      hide Ok, Fits, Wired, RingsOk, Heads, Travels, Returns, OnWay, Passed, Points, Hooked, Sound;
      node.child, node.parent, node.link := [null, null], null, NoLink;
      node.key := key;
      node.next, node.prev := node, node;
      var n: Node, parent: Node?, link: Link, curKeyBit: nat := node, null, RootLink(this), keyBits;
      ghost var isNew, ns, p := key !in rings, nodes + {node}, ROOT;
      ghost var rs := if isNew then rings[key := [node]] else rings;
      BeginInsert(node, isNew, ns, rs);
      DerefAt(ns, p, link, parent);
      while Deref(link) != null && Deref(link).key != key
        invariant Points(ns, p, link, parent) && OnWay(isNew, ns, rs, n, p)
        invariant link != NoLink && (link.RootLink? ==> link.tree == this) && Deref(link) == Get(lay.at, p)
        invariant n == node || (isNew && Passed(key, p))
        invariant n in ns && curKeyBit + p.depth == keyBits
        modifies this`root, this`lay, ns`child, ns`parent, ns`link
        decreases curKeyBit
      {
        IsHooked(ns, p, link, parent);
        n, parent, link, curKeyBit, p := Descend(n, Deref(link), curKeyBit, isNew, p, ns, rs, key);
        DerefAt(ns, p, link, parent);
      }
      IsHooked(ns, p, link, parent);
      WayEnd(isNew, ns, rs, n, p, key);
      if Deref(link) != null {
        Join(node, Deref(link), p, ns);
      } else {
        Finish(link, parent, n, p, ns, rs);
        assert [] + [node] == [node];
      }
    }

    lemma IsHooked(ns: set<Node>, p: Pos, link: Link, parent: Node?)
      requires Points(ns, p, link, parent)
      ensures Hooked(ns)
    {
    }

    lemma BeginInsert(node: Node, isNew: bool, ns: set<Node>, rs: map<nat, seq<Node>>)
      requires Valid() && node !in nodes && node.key < Pow2(keyBits) && node.Ptrs() == BARE
      requires node.next == node && node.prev == node && ns == nodes + {node}
      requires isNew == (node.key !in rings) && rs == if isNew then rings[node.key := [node]] else rings
      ensures Points(ns, ROOT, RootLink(this), null) && OnWay(isNew, ns, rs, node, ROOT)
    {
      hide Ok, Fits, Wired, RingsOk, Heads, Travels, Returns, OnWay;
      Enter(nodes, node);
      if isNew {
        NewRing(rings, nodes, node);
        assert rs - {node.key} == rings;
      } else {
        assert ns - {node} == nodes;
      }
      WayStart(isNew, ns, rs, node);
    }

    // ---------- removal ----------

    static lemma IsLeast(sh: Shape, p: Pos, side: Side)
      requires Child(p, side) in sh && (side == 1 ==> Child(p, 0) !in sh)
      ensures IsLeastChild(sh, p, Child(p, side))
    {
    }

    /** radixTreeGetSmallerChild */
    static method SmallerChild(node: Node) returns (r: Node?)
      ensures r == if node.child[0] != null then node.child[0] else node.child[1]
    {
      r := if node.child[0] != null then node.child[0] else node.child[1];
    }

    /** The first node of a longer ring gives its place to the second. */
    method StepAside(node: Node)
      requires Sound() && node in nodes && node.key in rings && node in rings[node.key] && rings[node.key] != [node]
      requires node.link != NoLink <==> node in lay.loc
      requires node in lay.loc ==>
        lay.loc[node] in lay.at && lay.at[lay.loc[node]] == node && node == rings[node.key][0]
      modifies this`root, this`lay, nodes`child, nodes`parent, nodes`link
      ensures Hooked(nodes - {node}) && |rings[node.key]| > 1
      ensures node in old(lay.loc) ==> old(lay.loc)[node] in old(lay.at)
      ensures lay == if node in old(lay.loc) then PutAt(old(lay), old(lay.loc)[node], rings[node.key][1], node.key)
        else old(lay)
    {
      hide Fits, Wired, RingsOk, Heads, PutAt;
      Second(node);
      if node.link != NoLink {
        Promote(node, node.next, lay.loc[node]);
      } else {
        DropLoose(this, lay, Mem(nodes), node);
        assert Mem(nodes) - {node} == Mem(nodes - {node});
      }
    }

    /** The branch of radixTreeRemove for a node with others of its key. */
    method RemoveFromRing(node: Node)
      requires Valid() && node in nodes && node.key in rings && rings[node.key] != [node]
      modifies this`root, this`lay, this`rings, this`nodes, nodes`child
      modifies nodes`parent, nodes`link, nodes`next, nodes`prev
      ensures Valid() && nodes == old(nodes) - {node}
      ensures
        var ring := old(rings)[node.key];
        exists i :: 0 <= i < |ring| && ring[i] == node && rings == old(rings)[node.key := ring[..i] + ring[i + 1..]]
    {
      hide Ok, Fits, Wired, RingsOk, Heads, HeadAt, HeadOf, PutAt, RingOk;
      FirstOrNot(node);
      Second(node);
      ghost var l := lay;
      StepAside(node);
      ghost var i := LeaveRing(node, rings, nodes);
      RingLeft(node, l, rings, i);
      rings, nodes := rings[node.key := rings[node.key][..i] + rings[node.key][i + 1..]], nodes - {node};
    }

    /** The node after the first one of a ring. */
    lemma Second(node: Node)
      requires Sound() && node in nodes && node.key in rings && node in rings[node.key] && rings[node.key] != [node]
      ensures |rings[node.key]| > 1 && rings[node.key][0] in lay.loc
      ensures var next := rings[node.key][1];
        next in nodes && next !in lay.loc && next.key == node.key && (node == rings[node.key][0] ==> node.next == next)
    {
      var ring := rings[node.key];
      assert OneRing(rings, nodes, node.key);
      assert |ring| == 1 ==> ring == [node];
      assert ring[0].next == ring[0 + 1] && ring[1].key == node.key;
      FirstOrNot(ring[1]);
      FirstOrNot(ring[0]);
    }

    /** Heads and places still agree when a node has left a longer ring. */
    lemma RingLeft(node: Node, l: Layout, rs: map<nat, seq<Node>>, i: nat)
      requires Fits(l) && Heads(l, rs) && Ok(l.shape, keyBits) && node.key in rs
      requires i < |rs[node.key]| && rs[node.key][i] == node && |rs[node.key]| > 1 && rs[node.key][0] in l.loc
      requires node == rs[node.key][0] ==> i == 0
      requires node in l.loc <==> node == rs[node.key][0]
      requires if node in l.loc
        then l.loc[node] in l.at && l.at[l.loc[node]] == node && l.loc[node] in l.shape
          && l.shape[l.loc[node]] == node.key
          && rs[node.key][1] !in l.loc && lay == PutAt(l, l.loc[node], rs[node.key][1], node.key)
        else lay == l
      ensures Ok(lay.shape, keyBits) && Heads(lay, rs[node.key := rs[node.key][..i] + rs[node.key][i + 1..]])
    {
      var ring := rs[node.key];
      var ring' := ring[..i] + ring[i + 1..];
      if node in l.loc {
        assert l.shape[l.loc[node] := node.key] == l.shape;
        HeadsPromote(l, rs, l.loc[node], node.key, ring');
      } else {
        HeadsKeep(l, rs, node.key, ring');
      }
    }

    /** The only node of its key is being pushed down. */
    ghost predicate Pushed(node: Node)
      reads this, node, nodes`key, nodes`next, nodes`prev, nodes`child, nodes`parent, nodes`link
    {
      && Sound() && node in lay.loc && node.key in rings && rings[node.key] == [node]
      && Sinking(lay.shape, keyBits, lay.loc[node])
    }

    /** radixListEmpty tells whether the node is the only one of its key. */
    lemma Alone(node: Node)
      requires Sound() && node in nodes
      ensures node.key in rings && (node.next == node <==> rings[node.key] == [node])
      ensures rings[node.key] == [node] ==>
        node in lay.loc && lay.loc[node] in lay.shape && lay.shape[lay.loc[node]] == node.key
    {
      hide Fits, Wired;
      var ring := rings[node.key];
      assert OneRing(rings, nodes, node.key) && HeadOf(lay, rings, node.key);
      var i :| 0 <= i < |ring| && ring[i] == node;
      assert i + 1 < |ring| ==> node.next == ring[i + 1];
      assert |ring| == 1 ==> ring == [node];
      assert i == |ring| - 1 ==> node.next == ring[0];
    }

    /** Only the first node of a ring has a pointer to itself in the tree. */
    lemma FirstOrNot(node: Node)
      requires Sound() && node in nodes
      ensures node.key in rings && rings[node.key] != [] && node in rings[node.key]
      ensures node.link != NoLink <==> node in lay.loc
      ensures node in lay.loc <==> node == rings[node.key][0]
      ensures node in lay.loc ==> lay.loc[node] in lay.at && lay.at[lay.loc[node]] == node
      ensures node in lay.loc ==> lay.loc[node] in lay.shape && lay.shape[lay.loc[node]] == node.key
    {
      hide RingsOk;
      InOwnRing(node);
      assert HeadOf(lay, rings, node.key);
      if node in lay.loc {
        assert HeadAt(lay, rings, lay.loc[node]);
        KeyAt(rings, nodes, lay.loc[node]);
        BeforeCut(lay.loc[node], nodes);
      } else {
        assert Mem(nodes)[node] == node.Ptrs();
      }
    }

    lemma InOwnRing(node: Node)
      requires RingsOk(rings, nodes) && node in nodes
      ensures node.key in rings && node in rings[node.key]
    {
    }

    /** The second node of a ring takes the place of the first. */
    method Promote(node: Node, repl: Node, ghost p: Pos)
      requires Hooked(nodes) && p in lay.at && node == lay.at[p] && repl in nodes && repl !in lay.loc
      modifies this`root, this`lay, nodes`child, nodes`parent, nodes`link
      ensures p in old(lay.at) && lay == PutAt(old(lay), p, repl, repl.key) && Hooked(nodes - {node})
    {
      hide Fits, Wired, Replaced;
      ghost var l, m := lay, Mem(nodes);
      BeforeReplace(repl, p, nodes);
      ReplaceNode(node, repl, nodes);
      node.link := NoLink;
      lay := PutAt(l, p, repl, repl.key);
      assert Mem(nodes - {node}).Keys == m.Keys - {node};
      ReplaceWired(this, l, m, Mem(nodes - {node}), p, repl, repl.key);
    }

    static lemma StillThere(rs: map<nat, seq<Node>>, ns: set<Node>, node: Node, i: nat)
      requires RingsOk(rs, ns) && node in ns && node.key in rs && i < |rs[node.key]| && rs[node.key][i] == node
      ensures RingOk(rs[node.key], node.key) && (node == rs[node.key][0] ==> i == 0)
      ensures var ring := rs[node.key];
        var ring' := ring[..i] + ring[i + 1..];
        && (forall x :: x in ring ==> x in ns)
        && (forall x :: x in ring' ==> x in ns - {node})
        && (forall x :: x in ns - {node} ==> x.key in rs && x in rs[node.key := ring'][x.key])
    {
      var ring := rs[node.key];
      var ring' := ring[..i] + ring[i + 1..];
      assert OneRing(rs, ns, node.key);
      forall x | x in ns && x != node
        ensures x.key in rs && x in rs[node.key := ring'][x.key]
      {
        assert x in rs[x.key];
        if x.key == node.key {
          var j :| 0 <= j < |ring| && ring[j] == x;
          assert ring'[if j < i then j else j - 1] == x;
        }
      }
    }

    static lemma OtherRing(rs: map<nat, seq<Node>>, ns: set<Node>, j: nat, k: nat)
      requires RingsOk(rs, ns) && j in rs && k in rs && j != k
      ensures RingOk(rs[j], j) && forall x :: x in rs[j] ==> x in ns && x !in rs[k]
    {
      assert OneRing(rs, ns, j) && OneRing(rs, ns, k);
    }

    /** A node leaves its ring, which goes on without it. */
    static method LeaveRing(node: Node, ghost rs: map<nat, seq<Node>>, ghost ns: set<Node>) returns (ghost i: nat)
      requires RingsOk(rs, ns) && node in ns && node.key in rs && rs[node.key] != [node]
      modifies ns`next, ns`prev
      ensures i < |rs[node.key]| && |rs[node.key]| > 1 && rs[node.key][i] == node
      ensures node == rs[node.key][0] ==> i == 0
      ensures RingsOk(rs[node.key := rs[node.key][..i] + rs[node.key][i + 1..]], ns - {node})
    {
      hide RingOk, OneRing;
      ghost var ring := rs[node.key];
      i :| 0 <= i < |ring| && ring[i] == node;
      StillThere(rs, ns, node, i);
      ghost var ring', ns' := ring[..i] + ring[i + 1..], ns - {node};
      ghost var rs' := rs[node.key := ring'];
      forall k: nat | k in rs && k != node.key
        ensures RingOk(rs[k], k) && forall x :: x in rs[k] ==> x in ns && x !in ring
      {
        OtherRing(rs, ns, k, node.key);
      }
      ListRemove(node, ring, i);
      forall k: nat | k in rs'
        ensures OneRing(rs', ns', k)
      {
        MakeRing(rs', ns', k);
      }
    }

    static lemma MakeRing(rs: map<nat, seq<Node>>, ns: set<Node>, k: nat)
      requires k in rs && (forall x :: x in rs[k] ==> x in ns) && RingOk(rs[k], k)
      ensures OneRing(rs, ns, k)
    {
    }

    /** How deep a node stands. */
    ghost function Depth(node: Node): nat
      reads this`lay
    {
      if node in lay.loc then lay.loc[node].depth else 0
    }

    /** A single node of its key can be pushed down, or is on its way already. */
    lemma CanPush(node: Node)
      requires node in nodes && (Valid() || Pushed(node)) && node.next == node
      ensures Pushed(node) && rings[node.key] == [node]
    {
      hide Fits, Wired, RingsOk, Heads;
      Alone(node);
      if Valid() {
        SinkStart(lay.shape, keyBits, lay.loc[node]);
      }
    }

    lemma CannotPush(node: Node)
      requires node in nodes && (Valid() || Pushed(node)) && node.next != node
      ensures Valid() && node.key in rings && rings[node.key] != [node]
    {
      hide Fits, Wired, RingsOk, Heads;
      Alone(node);
    }

    /** What a pushed node has around it. */
    lemma PushedAt(node: Node)
      requires Pushed(node)
      ensures var p := lay.loc[node];
        && p in lay.at && lay.at[p] == node && node in nodes && p in lay.shape && lay.shape[p] == node.key
          && p.depth <= keyBits
        && (forall i: Side {:trigger node.child[i]} :: node.child[i] == Get(lay.at, Child(p, i)))
        && Depth(node) == p.depth
    {
      assert HeadOf(lay, rings, node.key);
      PrimaryAt(lay.loc[node]);
    }

    /** One step down. */
    lemma PushedOn(node: Node, l: Layout, side: Side)
      requires Fits(l) && Hooked(nodes) && RingsOk(rings, nodes) && Heads(l, rings)
      requires node in l.loc && node.key in rings && rings[node.key] == [node]
      requires Sinking(l.shape, keyBits, l.loc[node]) && IsLeastChild(l.shape, l.loc[node], Child(l.loc[node], side))
      requires Child(l.loc[node], side) in l.at && lay == Exchange(l, l.loc[node], Child(l.loc[node], side))
      ensures Pushed(node) && l.loc[node].depth < Depth(node) <= keyBits
    {
      var p := l.loc[node];
      SinkStep(l.shape, keyBits, p, Child(p, side));
      HeadsExchange(l, rings, p, Child(p, side));
    }

    /** The last step. */
    lemma PushedOut(node: Node, l: Layout, rs: map<nat, seq<Node>>, ns: set<Node>)
      requires Fits(l) && RingsOk(rs, ns) && Heads(l, rs) && node in ns
      requires node in l.loc && node.key in rs && rs[node.key] == [node]
      requires Sinking(l.shape, keyBits, l.loc[node])
      requires Child(l.loc[node], 0) !in l.at && Child(l.loc[node], 1) !in l.at
      requires lay == Cut(l, l.loc[node]) && rings == rs - {node.key} && nodes == ns - {node} && Hooked(nodes)
      ensures Valid()
    {
      var p := l.loc[node];
      SinkEnd(l.shape, keyBits, p);
      assert HeadOf(l, rs, node.key);
      HeadsCut(l, rs, p);
      forall k: nat | k in rings
        ensures OneRing(rings, nodes, k)
      {
        OtherRing(rs, ns, k, node.key);
      }
      assert forall x :: x in nodes ==> x in ns && x in rs[x.key];
    }

    /** radixTreeRemove */
    method Remove(node: Node)
      requires node in nodes && (Valid() || Pushed(node))
      modifies this`root, this`lay, this`rings, this`nodes, nodes`child
      modifies nodes`parent, nodes`link, nodes`next, nodes`prev
      ensures Valid() && nodes == old(nodes) - {node}
      ensures node.key in old(rings)
      ensures old(rings)[node.key] == [node] ==> rings == old(rings) - {node.key}
      ensures old(rings)[node.key] != [node] ==>
        var ring := old(rings)[node.key];
        exists i :: 0 <= i < |ring| && ring[i] == node && rings == old(rings)[node.key := ring[..i] + ring[i + 1..]]
      decreases keyBits - Depth(node)
    {
      hide Ok, Fits, Wired, RingsOk, Heads, Sinking, IsLeastChild;
      if node.next == node {
        CanPush(node);
        PushedAt(node);
        var leastChild := SmallerChild(node);
        ghost var l, p := lay, lay.loc[node];
        SameShape(Child(p, 0));
        SameShape(Child(p, 1));
        if leastChild == null {
          CutLeaf(node, p, nodes);
          ghost var rs, ns := rings, nodes;
          rings, nodes := rings - {node.key}, nodes - {node};
          PushedOut(node, l, rs, ns);
        } else {
          ghost var side: Side := if node.child[0] != null then 0 else 1;
          IsLeast(l.shape, p, side);
          Sink(node, leastChild, p, side, nodes);
          PushedOn(node, l, side);
          Remove(node);
        }
      } else {
        CannotPush(node);
        RemoveFromRing(node);
      }
    }
  }
}
