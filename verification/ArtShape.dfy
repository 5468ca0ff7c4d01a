/** The radix tree as a value: which node branches where, and what hangs off each byte.

    A node is described by the string `branch` that leads to its branching byte, that is, everything
    its leaves share, and by `start`, the depth at which its compressed prefix begins. */
module ArtShape {
  import opened ArtNode

  datatype View = View(branch: Key, start: nat, kids: map<Byte, Ref>)

  datatype Shape = Shape(root: Ref, view: map<Node, View>, leaves: map<Key, Leaf>)

  /** Where a reference is stored: in the tree header, or under a byte of a node. */
  datatype Slot = RootSlot | KidSlot(owner: Node, byte: Byte)

  ghost predicate Under(keys: set<Key>, p: Key, k: Key) {
    k in keys && p <= k
  }

  ghost predicate Parts(keys: set<Key>, w: Key, k1: Key, k2: Key) {
    Under(keys, w, k1) && Under(keys, w, k2) && |w| < |k1| && |w| < |k2| && k1[|w|] != k2[|w|]
  }

  /** Two keys of `keys` agree up to `w` and then differ. */
  ghost predicate Branches(keys: set<Key>, w: Key) {
    exists k1, k2 :: Parts(keys, w, k1, k2)
  }

  /** All keys that start with `p` go on to start with `w`. */
  ghost predicate Covers(keys: set<Key>, p: Key, w: Key) {
    p <= w && forall k :: Under(keys, p, k) ==> Under(keys, w, k)
  }

  ghost predicate SlotIn(sh: Shape, older s: Slot) {
    s.KidSlot? ==> s.owner in sh.view
  }

  ghost function Position(sh: Shape, s: Slot): Key
    requires SlotIn(sh, s)
  {
    match s
    case RootSlot => []
    case KidSlot(n, c) => sh.view[n].branch + [c]
  }

  ghost function Get(sh: Shape, s: Slot): Ref
    requires SlotIn(sh, s)
  {
    match s
    case RootSlot => sh.root
    case KidSlot(n, c) => if c in sh.view[n].kids then sh.view[n].kids[c] else Null
  }

  ghost function Put(sh: Shape, s: Slot, r: Ref): Shape
    requires SlotIn(sh, s)
  {
    match s
    case RootSlot => sh.(root := r)
    case KidSlot(n, c) => sh.(view := sh.view[n := sh.view[n].(kids := sh.view[n].kids[c := r])])
  }

  /** What a reference stored at position `p` must be, given the keys present. */
  ghost predicate RefOk(sh: Shape, r: Ref, p: Key) {
    match r
    case Null => forall k :: !Under(sh.leaves.Keys, p, k)
    case LeafRef(l) =>
      && Under(sh.leaves.Keys, p, l.key) && sh.leaves[l.key] == l
      && forall k :: Under(sh.leaves.Keys, p, k) ==> k == l.key
    case NodeRef(n) => n in sh.view && sh.view[n].start == |p| && p <= sh.view[n].branch
  }

  ghost predicate ViewOk(keys: set<Key>, v: View) {
    && v.start <= |v.branch|
    && Branches(keys, v.branch)
    && Covers(keys, v.branch[..v.start], v.branch)
    && (v.start > 0 ==> Branches(keys, v.branch[..v.start - 1]))
    && (forall c :: c in v.kids ==> v.kids[c] != Null)
  }

  ghost predicate NodeOk(sh: Shape, n: Node)
    requires n in sh.view
  {
    ViewOk(sh.leaves.Keys, sh.view[n])
  }

  ghost predicate SlotOk(sh: Shape, s: Slot)
    requires SlotIn(sh, s)
  {
    RefOk(sh, Get(sh, s), Position(sh, s))
  }

  ghost predicate Twins(sh: Shape, older n1: Node, older n2: Node) {
    n1 in sh.view && n2 in sh.view && sh.view[n1].branch == sh.view[n2].branch
  }

  ghost predicate Ok(sh: Shape, keyLen: nat) {
    && (forall k :: k in sh.leaves ==> |k| == keyLen)
    && (forall n {:trigger NodeOk(sh, n)} :: n in sh.view ==> NodeOk(sh, n))
    && (forall s {:trigger SlotOk(sh, s)} :: SlotIn(sh, s) ==> SlotOk(sh, s))
    && (forall n1, n2 :: Twins(sh, n1, n2) ==> n1 == n2)
  }

  /** The string every key under a reference starts with. */
  ghost function Stem(sh: Shape, r: Ref): Key {
    match r
    case Null => []
    case LeafRef(l) => l.key
    case NodeRef(n) => if n in sh.view then sh.view[n].branch else []
  }

  lemma RefCovers(sh: Shape, keyLen: nat, s: Slot)
    requires Ok(sh, keyLen) && SlotIn(sh, s) && Get(sh, s) != Null
    ensures RefOk(sh, Get(sh, s), Position(sh, s))
    ensures Covers(sh.leaves.Keys, Position(sh, s), Stem(sh, Get(sh, s)))
  {
    var r := Get(sh, s);
    assert SlotOk(sh, s);
    if r.NodeRef? {
      assert NodeOk(sh, r.node);
      var v := sh.view[r.node];
      assert v.branch[..v.start] == Position(sh, s);
    }
  }

  lemma CommonStem(keys: set<Key>, k1: Key, k2: Key, b: Key, t: Key)
    requires Parts(keys, b, k1, k2) && t <= k1 && t <= k2
    ensures t <= b
  {
    assert forall i :: 0 <= i < |t| ==> k1[i] == t[i] == k2[i];
  }

  /** A branching string below a covered position continues the cover. */
  lemma CoverBranch(keys: set<Key>, p: Key, w: Key, b: Key)
    requires Covers(keys, p, w) && Branches(keys, b) && p <= b
    ensures w <= b
  {
    var k1, k2 :| Parts(keys, b, k1, k2);
    assert Under(keys, p, k1) && Under(keys, p, k2);
    CommonStem(keys, k1, k2, b, w);
  }

  lemma SlotUnique(sh: Shape, keyLen: nat, s1: Slot, s2: Slot)
    requires Ok(sh, keyLen) && SlotIn(sh, s1) && SlotIn(sh, s2)
    requires Position(sh, s1) == Position(sh, s2)
    ensures s1 == s2
  {
    if s1.KidSlot? && s2.KidSlot? {
      var b1, b2 := sh.view[s1.owner].branch, sh.view[s2.owner].branch;
      assert b1 == (b1 + [s1.byte])[..|b1|] == (b2 + [s2.byte])[..|b2|] == b2;
      assert s1.byte == (b1 + [s1.byte])[|b1|];
      assert s2.byte == (b2 + [s2.byte])[|b2|];
      assert Twins(sh, s1.owner, s2.owner);
    }
  }

  // ---------- insertion ----------

  /** Slot `s` is where the way of the absent key `k` leaves the tree. */
  ghost predicate Diverges(sh: Shape, keyLen: nat, s: Slot, k: Key) {
    && Ok(sh, keyLen) && SlotIn(sh, s) && |k| == keyLen && k !in sh.leaves
    && Position(sh, s) <= k
    && (Get(sh, s) != Null ==> !(Stem(sh, Get(sh, s)) <= k))
  }

  /** Every branching string on the way to the new key lies above the insertion point. */
  lemma BranchesAbove(sh: Shape, keyLen: nat, s: Slot, k: Key, b: Key)
    requires Diverges(sh, keyLen, s, k)
    requires b <= k && Branches(sh.leaves.Keys, b)
    ensures |b| < |Position(sh, s)|
  {
    var p := Position(sh, s);
    if |p| <= |b| {
      assert p <= b;
      if Get(sh, s) != Null {
        RefCovers(sh, keyLen, s);
        CoverBranch(sh.leaves.Keys, p, Stem(sh, Get(sh, s)), b);
      } else {
        var k1, k2 :| Parts(sh.leaves.Keys, b, k1, k2);
        NothingUnder(sh, keyLen, s, k1);
      }
    }
  }

  lemma NothingUnder(sh: Shape, keyLen: nat, s: Slot, k: Key)
    requires Ok(sh, keyLen) && SlotIn(sh, s) && Get(sh, s) == Null
    ensures !Under(sh.leaves.Keys, Position(sh, s), k)
  {
    assert SlotOk(sh, s);
  }

  /** A string that covers a proper prefix of the insertion point lies on the way of the new key. */
  lemma CoverAbove(sh: Shape, keyLen: nat, s: Slot, k: Key, p: Key, w: Key)
    requires Diverges(sh, keyLen, s, k)
    requires p <= k && |p| < |Position(sh, s)|
    requires Covers(sh.leaves.Keys, p, w)
    ensures w <= k
  {
    assert NodeOk(sh, s.owner);
    CoverBranch(sh.leaves.Keys, p, w, sh.view[s.owner].branch);
  }

  lemma BranchesMore(keys: set<Key>, k: Key, w: Key)
    requires Branches(keys, w)
    ensures Branches(keys + {k}, w)
  {
    var k1, k2 :| Parts(keys, w, k1, k2);
    assert Parts(keys + {k}, w, k1, k2);
  }

  lemma CoversMore(keys: set<Key>, k: Key, p: Key, w: Key)
    requires Covers(keys, p, w)
    requires p <= k ==> w <= k
    ensures Covers(keys + {k}, p, w)
  {
    forall k' | Under(keys + {k}, p, k')
      ensures Under(keys + {k}, w, k')
    {
      assert k' == k || (Under(keys, p, k') && Under(keys, w, k'));
    }
  }

  /** A node is found only at the position where its prefix starts. */
  lemma NodeAtStart(sh: Shape, keyLen: nat, s: Slot, x: Node)
    requires Ok(sh, keyLen) && SlotIn(sh, s) && x in sh.view
    requires Position(sh, s) <= sh.view[x].branch && sh.view[x].start == |Position(sh, s)|
    ensures Get(sh, s) == NodeRef(x)
  {
    var v, p, r, keys := sh.view[x], Position(sh, s), Get(sh, s), sh.leaves.Keys;
    assert NodeOk(sh, x);
    assert p == v.branch[..v.start];
    var k1, k2 :| Parts(keys, v.branch, k1, k2);
    assert Under(keys, p, k1) && Under(keys, p, k2);
    assert SlotOk(sh, s);
    RefCovers(sh, keyLen, s);
    if r.NodeRef? {
      CoverBranch(keys, p, Stem(sh, r), v.branch);
      assert NodeOk(sh, r.node);
      CoverBranch(keys, p, v.branch, Stem(sh, r));
      assert Twins(sh, r.node, x);
    }
  }

  lemma OldView(sh: Shape, keyLen: nat, s: Slot, k: Key, x: Node)
    requires Diverges(sh, keyLen, s, k)
    requires x in sh.view && NodeRef(x) != Get(sh, s)
    ensures ViewOk(sh.leaves.Keys + {k}, sh.view[x])
  {
    var v, keys, p := sh.view[x], sh.leaves.Keys, Position(sh, s);
    assert NodeOk(sh, x);
    BranchesMore(keys, k, v.branch);
    var q := v.branch[..v.start];
    if v.start > 0 {
      BranchesMore(keys, k, v.branch[..v.start - 1]);
    }
    if q <= k {
      if |p| < |q| {
        BranchesAbove(sh, keyLen, s, k, v.branch[..v.start - 1]);
      } else if |q| < |p| {
        CoverAbove(sh, keyLen, s, k, q, v.branch);
      } else {
        assert p == q;
        NodeAtStart(sh, keyLen, s, x);
      }
    }
    CoversMore(keys, k, q, v.branch);
  }

  /** Every other slot is off the way of the new key, or leads to a node that stays on it. */
  lemma OldRef(sh: Shape, keyLen: nat, s: Slot, k: Key, s': Slot)
    requires Diverges(sh, keyLen, s, k)
    requires SlotIn(sh, s') && s' != s
    ensures RefOk(sh, Get(sh, s'), Position(sh, s'))
    ensures !Get(sh, s').NodeRef? ==> !(Position(sh, s') <= k)
    ensures Get(sh, s').NodeRef? ==> Get(sh, s') != Get(sh, s)
  {
    var p, p', r, keys := Position(sh, s), Position(sh, s'), Get(sh, s'), sh.leaves.Keys;
    assert SlotOk(sh, s');
    assert p != p' by {
      if p == p' {
        SlotUnique(sh, keyLen, s, s');
      }
    }
    if r.NodeRef? {
      if r == Get(sh, s) {
        RefCovers(sh, keyLen, s);
        RefCovers(sh, keyLen, s');
      }
    } else if p' <= k {
      if |p| < |p'| {
        assert NodeOk(sh, s'.owner);
        BranchesAbove(sh, keyLen, s, k, sh.view[s'.owner].branch);
      } else if |p'| < |p| {
        assert NodeOk(sh, s.owner);
        TwoUnder(sh, keyLen, s', sh.view[s.owner].branch);
      }
    }
  }

  /** Above a branching string only nodes can be referenced. */
  lemma TwoUnder(sh: Shape, keyLen: nat, s: Slot, b: Key)
    requires Ok(sh, keyLen) && SlotIn(sh, s) && Position(sh, s) <= b && Branches(sh.leaves.Keys, b)
    ensures Get(sh, s).NodeRef?
  {
    var k1, k2 :| Parts(sh.leaves.Keys, b, k1, k2);
    assert Under(sh.leaves.Keys, Position(sh, s), k1) && Under(sh.leaves.Keys, Position(sh, s), k2);
    assert SlotOk(sh, s);
  }

  /** The new leaf goes where there was nothing. */
  ghost function Filled(sh: Shape, s: Slot, l: Leaf): Shape
    requires SlotIn(sh, s)
  {
    Put(sh, s, LeafRef(l)).(leaves := sh.leaves[l.key := l])
  }

  lemma FilledNode(sh: Shape, keyLen: nat, s: Slot, l: Leaf, n: Node)
    requires Diverges(sh, keyLen, s, l.key) && Get(sh, s) == Null && n in Filled(sh, s, l).view
    ensures NodeOk(Filled(sh, s, l), n)
  {
    assert Filled(sh, s, l).leaves.Keys == sh.leaves.Keys + {l.key};
    OldView(sh, keyLen, s, l.key, n);
  }

  lemma FilledOk(sh: Shape, keyLen: nat, s: Slot, l: Leaf)
    requires Diverges(sh, keyLen, s, l.key) && Get(sh, s) == Null
    ensures Ok(Filled(sh, s, l), keyLen)
  {
    hide NodeOk, RefOk;
    var sh', k := Filled(sh, s, l), l.key;
    forall n | n in sh'.view
      ensures NodeOk(sh', n)
    {
      FilledNode(sh, keyLen, s, l, n);
    }
    forall s' | SlotIn(sh', s')
      ensures SlotOk(sh', s')
    {
      FilledRef(sh, keyLen, s, l, s');
    }
    forall n1, n2 | Twins(sh', n1, n2)
      ensures n1 == n2
    {
      assert Twins(sh, n1, n2);
    }
  }

  lemma FilledRef(sh: Shape, keyLen: nat, s: Slot, l: Leaf, s': Slot)
    requires Diverges(sh, keyLen, s, l.key) && Get(sh, s) == Null && SlotIn(sh, s')
    ensures RefOk(Filled(sh, s, l), Get(Filled(sh, s, l), s'), Position(sh, s'))
  {
    var sh', p', r := Filled(sh, s, l), Position(sh, s'), Get(sh, s');
    if s' != s {
      OldRef(sh, keyLen, s, l.key, s');
      assert Get(sh', s') == r;
      RefMore(sh, sh', r, p', l.key);
    } else {
      assert SlotOk(sh, s);
      forall k | Under(sh'.leaves.Keys, p', k)
        ensures k == l.key
      {
        assert k == l.key || Under(sh.leaves.Keys, p', k);
      }
    }
  }

  /** A reference survives one more key that does not pass under it. */
  lemma RefMore(sh: Shape, sh': Shape, r: Ref, p: Key, k: Key)
    requires RefOk(sh, r, p) && k !in sh.leaves
    requires k in sh'.leaves && sh'.leaves == sh.leaves[k := sh'.leaves[k]]
    requires if r.NodeRef? then r.node in sh'.view && sh'.view[r.node].start == sh.view[r.node].start
      && sh'.view[r.node].branch == sh.view[r.node].branch else !(p <= k)
    ensures RefOk(sh', r, p)
  {
    if !r.NodeRef? {
      forall k' | Under(sh'.leaves.Keys, p, k')
        ensures Under(sh.leaves.Keys, p, k')
      {
      }
    }
  }

  /** Where slot `s` parts the old keys from the new one: at depth `d`. */
  ghost predicate SplitsAt(sh: Shape, keyLen: nat, s: Slot, k: Key, d: nat) {
    && Diverges(sh, keyLen, s, k) && Get(sh, s) != Null
    && var t := Stem(sh, Get(sh, s));
       |Position(sh, s)| <= d < |t| && d < |k| && k[..d] <= t && t[d] != k[d]
  }

  ghost function Restarted(sh: Shape, r: Ref, start: nat): Shape {
    if r.NodeRef? && r.node in sh.view
    then sh.(view := sh.view[r.node := sh.view[r.node].(start := start)])
    else sh
  }

  ghost function SplitNode(sh: Shape, s: Slot, l: Leaf, d: nat): View
    requires SlotIn(sh, s) && d < |Stem(sh, Get(sh, s))| && d < |l.key|
  {
    View(l.key[..d], |Position(sh, s)|, map[Stem(sh, Get(sh, s))[d] := Get(sh, s), l.key[d] := LeafRef(l)])
  }

  /** A new node takes over the slot; below it the old reference and the new leaf part ways. */
  ghost function Split(sh: Shape, keyLen: nat, s: Slot, l: Leaf, d: nat, n': Node): Shape
    requires SplitsAt(sh, keyLen, s, l.key, d) && n' !in sh.view
  {
    var moved := Restarted(Put(sh, s, NodeRef(n')), Get(sh, s), d + 1);
    Shape(moved.root, moved.view[n' := SplitNode(sh, s, l, d)], sh.leaves[l.key := l])
  }

  /** What Split does, node by node. */
  lemma SplitFrame(sh: Shape, keyLen: nat, s: Slot, l: Leaf, d: nat, n': Node, n: Node)
    requires SplitsAt(sh, keyLen, s, l.key, d) && n' !in sh.view && n in sh.view
    ensures var v := Split(sh, keyLen, s, l, d, n').view[n];
      && v.branch == sh.view[n].branch
      && v.start == (if NodeRef(n) == Get(sh, s) then d + 1 else sh.view[n].start)
      && v.kids == (if s.KidSlot? && s.owner == n then sh.view[n].kids[s.byte := NodeRef(n')] else sh.view[n].kids)
  {
    if s.KidSlot? && NodeRef(n) == Get(sh, s) {
      RefCovers(sh, keyLen, s);
      assert NodeOk(sh, s.owner);
    }
  }

  lemma SomeUnder(keys: set<Key>, w: Key) returns (k: Key)
    requires Branches(keys, w)
    ensures Under(keys, w, k)
  {
    var k1, k2 :| Parts(keys, w, k1, k2);
    k := k1;
  }

  /** The slot's old keys and the new key make a new branching string. */
  lemma SplitBranches(sh: Shape, keyLen: nat, s: Slot, k: Key, d: nat)
    requires SplitsAt(sh, keyLen, s, k, d)
    ensures Branches(sh.leaves.Keys + {k}, k[..d])
    ensures Covers(sh.leaves.Keys + {k}, Position(sh, s), k[..d])
    ensures !Branches(sh.leaves.Keys, k[..d])
    ensures |Position(sh, s)| > 0 ==> Branches(sh.leaves.Keys + {k}, k[..|Position(sh, s)| - 1])
  {
    var keys, r, p := sh.leaves.Keys, Get(sh, s), Position(sh, s);
    var t, w := Stem(sh, r), k[..d];
    RefCovers(sh, keyLen, s);
    var k1 := t;
    if r.NodeRef? {
      assert NodeOk(sh, r.node);
      k1 := SomeUnder(keys, t);
    }
    assert Parts(keys + {k}, w, k1, k);
    assert Covers(keys, p, w);
    CoversMore(keys, k, p, w);
    if Branches(keys, w) {
      CoverBranch(keys, p, t, w);
    }
    if s.KidSlot? {
      assert NodeOk(sh, s.owner);
      BranchesMore(keys, k, sh.view[s.owner].branch);
      assert sh.view[s.owner].branch == k[..|p| - 1];
    }
  }

  lemma SplitView(sh: Shape, keyLen: nat, s: Slot, l: Leaf, d: nat, n': Node, n: Node)
    requires SplitsAt(sh, keyLen, s, l.key, d) && n' !in sh.view
    requires n in sh.view || n == n'
    ensures ViewOk(sh.leaves.Keys + {l.key}, Split(sh, keyLen, s, l, d, n').view[n])
    ensures n != n' ==> sh.view[n].branch != l.key[..d]
  {
    hide ViewOk, SplitsAt, Branches, Covers;
    if n == n' {
      SplitNewView(sh, keyLen, s, l, d, n');
    } else {
      SplitOldView(sh, keyLen, s, l, d, n', n);
    }
  }

  /** The view of the new node. */
  lemma SplitNewView(sh: Shape, keyLen: nat, s: Slot, l: Leaf, d: nat, n': Node)
    requires SplitsAt(sh, keyLen, s, l.key, d) && n' !in sh.view
    ensures ViewOk(sh.leaves.Keys + {l.key}, Split(sh, keyLen, s, l, d, n').view[n'])
  {
    hide Ok, RefOk, Branches, Covers;
    var k, p := l.key, Position(sh, s);
    SplitBranches(sh, keyLen, s, k, d);
    assert p == k[..d][..|p|];
    assert |p| > 0 ==> k[..d][..|p| - 1] == k[..|p| - 1];
  }

  /** The view of a node that was there. */
  lemma SplitOldView(sh: Shape, keyLen: nat, s: Slot, l: Leaf, d: nat, n': Node, n: Node)
    requires SplitsAt(sh, keyLen, s, l.key, d) && n' !in sh.view && n in sh.view
    ensures ViewOk(sh.leaves.Keys + {l.key}, Split(sh, keyLen, s, l, d, n').view[n])
    ensures sh.view[n].branch != l.key[..d]
  {
    hide RefOk, Branches, Covers, Split;
    var keys, k := sh.leaves.Keys, l.key;
    SplitBranches(sh, keyLen, s, k, d);
    SplitFrame(sh, keyLen, s, l, d, n', n);
    assert NodeOk(sh, n);
    if NodeRef(n) == Get(sh, s) {
      RefCovers(sh, keyLen, s);
      RestartView(keys, k, sh.view[n].branch, d, Position(sh, s));
    } else {
      OldView(sh, keyLen, s, k, n);
    }
  }

  lemma RestartView(keys: set<Key>, k: Key, t: Key, d: nat, p: Key)
    requires Branches(keys, t) && Covers(keys, p, t) && |p| <= d < |t| && d < |k|
    requires Branches(keys + {k}, k[..d]) && k[..d] <= t && t[d] != k[d] && p <= k
    ensures Branches(keys + {k}, t) && Covers(keys + {k}, t[..d + 1], t) && Branches(keys + {k}, t[..d])
  {
    BranchesMore(keys, k, t);
    assert t[..d] == k[..d];
    forall k' | Under(keys + {k}, t[..d + 1], k')
      ensures Under(keys + {k}, t, k')
    {
      assert t[..d + 1][d] == k'[d];
      assert Under(keys, p, k');
      assert Under(keys, t, k');
    }
  }

  lemma SplitRef(sh: Shape, keyLen: nat, s: Slot, l: Leaf, d: nat, n': Node, s': Slot)
    requires SplitsAt(sh, keyLen, s, l.key, d) && n' !in sh.view
    requires SlotIn(Split(sh, keyLen, s, l, d, n'), s')
    ensures var sh' := Split(sh, keyLen, s, l, d, n'); RefOk(sh', Get(sh', s'), Position(sh', s'))
  {
    var sh', k := Split(sh, keyLen, s, l, d, n'), l.key;
    if s'.KidSlot? && s'.owner == n' {
      SplitKid(sh, keyLen, s, l, d, n', s'.byte);
    } else {
      if s'.KidSlot? {
        SplitFrame(sh, keyLen, s, l, d, n', s'.owner);
      }
      assert Position(sh', s') == Position(sh, s');
      if s' != s {
        OldRef(sh, keyLen, s, k, s');
        var r := Get(sh, s');
        assert Get(sh', s') == r;
        if r.NodeRef? {
          SplitFrame(sh, keyLen, s, l, d, n', r.node);
        }
        RefMore(sh, sh', r, Position(sh, s'), k);
      }
    }
  }

  lemma SplitKid(sh: Shape, keyLen: nat, s: Slot, l: Leaf, d: nat, n': Node, c: Byte)
    requires SplitsAt(sh, keyLen, s, l.key, d) && n' !in sh.view
    ensures var sh' := Split(sh, keyLen, s, l, d, n'); RefOk(sh', Get(sh', KidSlot(n', c)), l.key[..d] + [c])
  {
    var sh', k, r, keys, p := Split(sh, keyLen, s, l, d, n'), l.key, Get(sh, s), sh.leaves.Keys, Position(sh, s);
    var t, w := Stem(sh, r), k[..d];
    RefCovers(sh, keyLen, s);
    forall k' | Under(sh'.leaves.Keys, w + [c], k')
      ensures k' == k || (c == t[d] && Under(keys, p, k'))
    {
      assert k'[d] == (w + [c])[d];
      assert k' != k ==> Under(keys, p, k') && Under(keys, t, k');
    }
    if c == t[d] {
      assert w + [c] <= t;
      if r.NodeRef? {
        SplitFrame(sh, keyLen, s, l, d, n', r.node);
      }
    } else if c == k[d] {
      assert w + [c] <= k;
    }
  }

  lemma SplitOk(sh: Shape, keyLen: nat, s: Slot, l: Leaf, d: nat, n': Node)
    requires SplitsAt(sh, keyLen, s, l.key, d) && n' !in sh.view
    ensures Ok(Split(sh, keyLen, s, l, d, n'), keyLen)
  {
    var sh', k := Split(sh, keyLen, s, l, d, n'), l.key;
    assert sh'.leaves.Keys == sh.leaves.Keys + {k};
    assert sh'.view.Keys == sh.view.Keys + {n'};
    forall n | n in sh'.view
      ensures NodeOk(sh', n)
    {
      SplitView(sh, keyLen, s, l, d, n', n);
    }
    forall s' | SlotIn(sh', s')
      ensures SlotOk(sh', s')
    {
      SplitRef(sh, keyLen, s, l, d, n', s');
    }
    forall n1, n2 | Twins(sh', n1, n2)
      ensures n1 == n2
    {
      SplitTwins(sh, keyLen, s, l, d, n', n1, n2);
    }
  }

  lemma SplitTwins(sh: Shape, keyLen: nat, s: Slot, l: Leaf, d: nat, n': Node, n1: Node, n2: Node)
    requires SplitsAt(sh, keyLen, s, l.key, d) && n' !in sh.view
    requires Twins(Split(sh, keyLen, s, l, d, n'), n1, n2)
    ensures n1 == n2
  {
    if n1 != n' {
      SplitFrame(sh, keyLen, s, l, d, n', n1);
      SplitView(sh, keyLen, s, l, d, n', n1);
    }
    if n2 != n' {
      SplitFrame(sh, keyLen, s, l, d, n', n2);
      SplitView(sh, keyLen, s, l, d, n', n2);
    }
    if n1 != n' && n2 != n' {
      assert Twins(sh, n1, n2);
    }
  }

  // ---------- replacing a node by a larger or smaller one ----------

  lemma RefOnce(sh: Shape, keyLen: nat, s1: Slot, s2: Slot)
    requires Ok(sh, keyLen) && SlotIn(sh, s1) && SlotIn(sh, s2)
    requires Get(sh, s1) == Get(sh, s2) != Null
    ensures s1 == s2
  {
    var p1, p2 := Position(sh, s1), Position(sh, s2);
    RefCovers(sh, keyLen, s1);
    RefCovers(sh, keyLen, s2);
    if |p1| < |p2| {
      LowerRef(sh, keyLen, s1, s2);
    } else if |p2| < |p1| {
      LowerRef(sh, keyLen, s2, s1);
    }
    SlotUnique(sh, keyLen, s1, s2);
  }

  lemma LowerRef(sh: Shape, keyLen: nat, s1: Slot, s2: Slot)
    requires Ok(sh, keyLen) && SlotIn(sh, s1) && SlotIn(sh, s2) && Get(sh, s1) != Null
    requires Position(sh, s1) < Position(sh, s2)
    ensures Get(sh, s1) != Get(sh, s2)
  {
    assert NodeOk(sh, s2.owner);
    TwoUnder(sh, keyLen, s1, sh.view[s2.owner].branch);
    assert SlotOk(sh, s1) && SlotOk(sh, s2);
  }

  /** Node `n'` takes the place of the node that slot `s` refers to. */
  ghost function Renamed(sh: Shape, s: Slot, n': Node): Shape
    requires SlotIn(sh, s) && Get(sh, s).NodeRef? && Get(sh, s).node in sh.view && n' !in sh.view
  {
    var n := Get(sh, s).node;
    var moved := Put(sh, s, NodeRef(n'));
    moved.(view := (map x | x in moved.view && x != n :: moved.view[x])[n' := sh.view[n]])
  }

  ghost predicate CanRename(sh: Shape, keyLen: nat, s: Slot, n': Node) {
    Ok(sh, keyLen) && SlotIn(sh, s) && Get(sh, s).NodeRef? && Get(sh, s).node in sh.view && n' !in sh.view
  }

  lemma RenamedFrame(sh: Shape, keyLen: nat, s: Slot, n': Node, x: Node)
    requires CanRename(sh, keyLen, s, n') && x in Renamed(sh, s, n').view
    ensures var n := Get(sh, s).node;
      && n !in Renamed(sh, s, n').view
      && (s.KidSlot? ==> s.owner != n)
      && Renamed(sh, s, n').view.Keys == sh.view.Keys - {n} + {n'}
      && var v, v0 := Renamed(sh, s, n').view[x], sh.view[if x == n' then n else x];
         && v.branch == v0.branch && v.start == v0.start
         && v.kids == (if s.KidSlot? && s.owner == x then v0.kids[s.byte := NodeRef(n')] else v0.kids)
  {
    RefCovers(sh, keyLen, s);
  }

  lemma RenamedOk(sh: Shape, keyLen: nat, s: Slot, n': Node)
    requires CanRename(sh, keyLen, s, n')
    ensures Ok(Renamed(sh, s, n'), keyLen)
  {
    var sh', n := Renamed(sh, s, n'), Get(sh, s).node;
    forall x | x in sh'.view
      ensures NodeOk(sh', x)
    {
      RenamedFrame(sh, keyLen, s, n', x);
      assert NodeOk(sh, if x == n' then n else x);
    }
    forall s' | SlotIn(sh', s')
      ensures SlotOk(sh', s')
    {
      RenamedSlot(sh, keyLen, s, n', s');
    }
    forall n1, n2 | Twins(sh', n1, n2)
      ensures n1 == n2
    {
      RenamedFrame(sh, keyLen, s, n', n1);
      RenamedFrame(sh, keyLen, s, n', n2);
      assert Twins(sh, if n1 == n' then n else n1, if n2 == n' then n else n2);
    }
  }

  lemma RenamedSlot(sh: Shape, keyLen: nat, s: Slot, n': Node, s': Slot)
    requires CanRename(sh, keyLen, s, n') && SlotIn(Renamed(sh, s, n'), s')
    ensures SlotOk(Renamed(sh, s, n'), s')
  {
    var sh', n := Renamed(sh, s, n'), Get(sh, s).node;
    var s0 := if s' == RootSlot then s' else KidSlot(if s'.owner == n' then n else s'.owner, s'.byte);
    assert n' in sh'.view;
    RenamedFrame(sh, keyLen, s, n', n');
    if s'.KidSlot? {
      RenamedFrame(sh, keyLen, s, n', s'.owner);
    }
    assert Position(sh', s') == Position(sh, s0);
    assert SlotOk(sh, s0);
    if s0 != s {
      assert Get(sh', s') == Get(sh, s0);
      var r := Get(sh, s0);
      if r.NodeRef? {
        if r.node == n {
          RefOnce(sh, keyLen, s, s0);
        } else {
          RenamedFrame(sh, keyLen, s, n', r.node);
        }
      }
    }
  }

  // ---------- removal ----------

  /** The leaf that slot `s` refers to is about to go. */
  ghost predicate HasLeaf(sh: Shape, keyLen: nat, s: Slot) {
    Ok(sh, keyLen) && SlotIn(sh, s) && Get(sh, s).LeafRef?
  }

  lemma OnlyKey(sh: Shape, keyLen: nat, s: Slot, k: Key)
    requires HasLeaf(sh, keyLen, s) && Under(sh.leaves.Keys, Position(sh, s), k)
    ensures k == Get(sh, s).leaf.key
  {
    assert SlotOk(sh, s);
  }

  /** Losing one key leaves every other branching string a branching string. */
  lemma BranchSurvives(keys: set<Key>, k: Key, w: Key, b: Key)
    requires Branches(keys, w) && w < k && Branches(keys, b) && b != w
    requires forall k' :: Under(keys, w + [k[|w|]], k') ==> k' == k
    ensures Branches(keys - {k}, b)
  {
    var k1, k2 :| Parts(keys, b, k1, k2);
    if k1 == k {
      OtherWitness(keys, k, w, b, k2);
    } else if k2 == k {
      OtherWitness(keys, k, w, b, k1);
    } else {
      assert Parts(keys - {k}, b, k1, k2);
    }
  }

  lemma OtherWitness(keys: set<Key>, k: Key, w: Key, b: Key, k2: Key)
    requires Branches(keys, w) && w < k && b != w
    requires Parts(keys, b, k, k2)
    requires forall k' :: Under(keys, w + [k[|w|]], k') ==> k' == k
    ensures Branches(keys - {k}, b)
  {
    assert |b| == |w| ==> b == w;
    if |b| < |w| {
      assert b < w && w[|b|] == k[|b|];
      var j1, j2 :| Parts(keys, w, j1, j2);
      var j := if j1 == k then j2 else j1;
      assert Under(keys, w, j) && j[|b|] == w[|b|];
      assert Parts(keys - {k}, b, j, k2);
    } else if |w| < |b| {
      BelowBranch(keys, k, w, b, k2);
    }
  }

  lemma BelowBranch(keys: set<Key>, k: Key, w: Key, b: Key, k2: Key)
    requires w < k && b < k && |w| < |b| && Under(keys, b, k2)
    ensures Under(keys, w + [k[|w|]], k2)
  {
  }

  /** Everything but the branching string of the leaf's own node survives the leaf. */
  lemma Survives(sh: Shape, keyLen: nat, s: Slot, b: Key)
    requires HasLeaf(sh, keyLen, s) && Branches(sh.leaves.Keys, b)
    requires s.KidSlot? ==> b != sh.view[s.owner].branch
    ensures Branches(sh.leaves.Keys - {Get(sh, s).leaf.key}, b)
  {
    var k, keys := Get(sh, s).leaf.key, sh.leaves.Keys;
    assert SlotOk(sh, s);
    if s.KidSlot? {
      assert NodeOk(sh, s.owner);
      var w := sh.view[s.owner].branch;
      assert k[|w|] == (w + [s.byte])[|w|];
      BranchSurvives(keys, k, w, b);
    } else {
      TwoUnder(sh, keyLen, s, b);
    }
  }

  lemma CoversLess(keys: set<Key>, k: Key, p: Key, w: Key)
    requires Covers(keys, p, w)
    ensures Covers(keys - {k}, p, w)
  {
    forall k' | Under(keys - {k}, p, k')
      ensures Under(keys - {k}, w, k')
    {
      assert Under(keys, p, k') && Under(keys, w, k');
    }
  }

  /** A reference survives the loss of a key that is not its own leaf's. */
  lemma RefLess(sh: Shape, sh': Shape, r: Ref, p: Key, k: Key)
    requires RefOk(sh, r, p) && sh'.leaves == sh.leaves - {k}
    requires r.LeafRef? ==> r.leaf.key != k
    requires r.NodeRef? ==>
      r.node in sh'.view && sh'.view[r.node].start == sh.view[r.node].start
      && sh'.view[r.node].branch == sh.view[r.node].branch
    ensures RefOk(sh', r, p)
  {
    if !r.NodeRef? {
      forall k' | Under(sh'.leaves.Keys, p, k')
        ensures Under(sh.leaves.Keys, p, k')
      {
      }
    }
  }

  /** The leaf's node keeps two other children, or the leaf was the whole tree. */
  ghost function Dropped(sh: Shape, s: Slot): Shape
    requires SlotIn(sh, s) && Get(sh, s).LeafRef?
  {
    var less := sh.leaves - {Get(sh, s).leaf.key};
    match s
    case RootSlot => Shape(Null, sh.view, less)
    case KidSlot(n, c) => Shape(sh.root, sh.view[n := sh.view[n].(kids := sh.view[n].kids - {c})], less)
  }

  ghost predicate KeepsTwo(sh: Shape, n: Node, c: Byte, c1: Byte, c2: Byte)
    requires n in sh.view
  {
    c1 in sh.view[n].kids && c2 in sh.view[n].kids && c1 != c2 && c1 != c && c2 != c
  }

  lemma DroppedOk(sh: Shape, keyLen: nat, s: Slot)
    requires HasLeaf(sh, keyLen, s)
    requires s.KidSlot? ==> exists c1, c2 :: KeepsTwo(sh, s.owner, s.byte, c1, c2)
    ensures Ok(Dropped(sh, s), keyLen)
  {
    var sh', k := Dropped(sh, s), Get(sh, s).leaf.key;
    assert sh'.leaves.Keys == sh.leaves.Keys - {k};
    forall x | x in sh'.view
      ensures NodeOk(sh', x)
    {
      DroppedNode(sh, keyLen, s, x);
    }
    forall s' | SlotIn(sh', s')
      ensures SlotOk(sh', s')
    {
      DroppedSlot(sh, keyLen, s, s');
    }
    forall n1, n2 | Twins(sh', n1, n2)
      ensures n1 == n2
    {
      assert Twins(sh, n1, n2);
    }
  }

  lemma DroppedNode(sh: Shape, keyLen: nat, s: Slot, x: Node)
    requires HasLeaf(sh, keyLen, s) && x in sh.view
    requires s.KidSlot? ==> exists c1, c2 :: KeepsTwo(sh, s.owner, s.byte, c1, c2)
    ensures ViewOk(sh.leaves.Keys - {Get(sh, s).leaf.key}, Dropped(sh, s).view[x])
  {
    var k, v := Get(sh, s).leaf.key, sh.view[x];
    assert NodeOk(sh, x);
    CoversLess(sh.leaves.Keys, k, v.branch[..v.start], v.branch);
    DroppedBranch(sh, keyLen, s, v.branch);
    if v.start > 0 {
      DroppedBranch(sh, keyLen, s, v.branch[..v.start - 1]);
    }
  }

  lemma DroppedBranch(sh: Shape, keyLen: nat, s: Slot, b: Key)
    requires HasLeaf(sh, keyLen, s) && Branches(sh.leaves.Keys, b)
    requires s.KidSlot? ==> exists c1, c2 :: KeepsTwo(sh, s.owner, s.byte, c1, c2)
    ensures Branches(sh.leaves.Keys - {Get(sh, s).leaf.key}, b)
  {
    if s.KidSlot? && b == sh.view[s.owner].branch {
      var c1, c2 :| KeepsTwo(sh, s.owner, s.byte, c1, c2);
      var k1 := KidKey(sh, keyLen, s.owner, c1);
      var k2 := KidKey(sh, keyLen, s.owner, c2);
      assert SlotOk(sh, s);
      assert (b + [s.byte])[|b|] == s.byte;
      assert Parts(sh.leaves.Keys - {Get(sh, s).leaf.key}, b, k1, k2);
    } else {
      Survives(sh, keyLen, s, b);
    }
  }

  /** Every child leads to some key. */
  lemma KidKey(sh: Shape, keyLen: nat, n: Node, c: Byte) returns (k: Key)
    requires Ok(sh, keyLen) && n in sh.view && c in sh.view[n].kids
    ensures Under(sh.leaves.Keys, sh.view[n].branch, k) && |k| > |sh.view[n].branch| && k[|sh.view[n].branch|] == c
    ensures Under(sh.leaves.Keys, sh.view[n].branch + [c], k)
  {
    var s, b := KidSlot(n, c), sh.view[n].branch;
    assert NodeOk(sh, n);
    RefCovers(sh, keyLen, s);
    match Get(sh, s)
    case LeafRef(l) => k := l.key;
    case NodeRef(m) =>
      assert NodeOk(sh, m);
      k := SomeUnder(sh.leaves.Keys, sh.view[m].branch);
    assert (b + [c])[|b|] == c;
  }

  lemma DroppedSlot(sh: Shape, keyLen: nat, s: Slot, s': Slot)
    requires HasLeaf(sh, keyLen, s) && SlotIn(sh, s')
    ensures SlotOk(Dropped(sh, s), s')
  {
    var sh', r, p, k := Dropped(sh, s), Get(sh, s'), Position(sh, s'), Get(sh, s).leaf.key;
    assert SlotOk(sh, s') && SlotOk(sh, s);
    assert Position(sh', s') == p;
    if s == s' {
      forall k' | Under(sh'.leaves.Keys, p, k')
        ensures false
      {
        OnlyKey(sh, keyLen, s, k');
      }
    } else {
      if r == Get(sh, s) {
        RefOnce(sh, keyLen, s, s');
      }
      RefLess(sh, sh', r, p, k);
    }
  }

  /** The leaf's node keeps only one other child, `c'`, which takes the node's place at slot `s`. */
  ghost predicate Collapses(sh: Shape, keyLen: nat, s: Slot, n: Node, c: Byte, c': Byte) {
    && Ok(sh, keyLen) && SlotIn(sh, s) && Get(sh, s) == NodeRef(n) && n in sh.view
    && sh.view[n].kids.Keys == {c, c'} && c != c' && sh.view[n].kids[c].LeafRef?
  }

  ghost function Collapsed(sh: Shape, keyLen: nat, s: Slot, n: Node, c: Byte, c': Byte): Shape
    requires Collapses(sh, keyLen, s, n, c, c')
  {
    var r := sh.view[n].kids[c'];
    var moved := Restarted(Put(sh, s, r), r, sh.view[n].start);
    Shape(moved.root, map x | x in moved.view && x != n :: moved.view[x], sh.leaves - {sh.view[n].kids[c].leaf.key})
  }

  lemma CollapsedFrame(sh: Shape, keyLen: nat, s: Slot, n: Node, c: Byte, c': Byte, x: Node)
    requires Collapses(sh, keyLen, s, n, c, c') && x in sh.view && x != n
    ensures var v, v0, r := Collapsed(sh, keyLen, s, n, c, c').view[x], sh.view[x], sh.view[n].kids[c'];
      && v.branch == v0.branch
      && v.start == (if r == NodeRef(x) then sh.view[n].start else v0.start)
      && v.kids == (if s.KidSlot? && s.owner == x then v0.kids[s.byte := r] else v0.kids)
  {
  }

  /** The keys left under the node all pass through its other child. */
  lemma CollapseCovers(sh: Shape, keyLen: nat, s: Slot, n: Node, c: Byte, c': Byte)
    requires Collapses(sh, keyLen, s, n, c, c')
    ensures Covers(sh.leaves.Keys - {sh.view[n].kids[c].leaf.key}, Position(sh, s), Stem(sh, sh.view[n].kids[c']))
  {
    var w, k, keys, p := sh.view[n].branch, sh.view[n].kids[c].leaf.key, sh.leaves.Keys, Position(sh, s);
    var s', t := KidSlot(n, c'), Stem(sh, sh.view[n].kids[c']);
    RefCovers(sh, keyLen, s);
    assert NodeOk(sh, n);
    RefCovers(sh, keyLen, s');
    var k0 := SomeUnder(keys, w);
    assert |w| < keyLen by {
      var k1, k2 :| Parts(keys, w, k1, k2);
    }
    forall k' | Under(keys - {k}, p, k')
      ensures Under(keys - {k}, t, k')
    {
      assert Under(keys, p, k');
      assert Under(keys, w, k');
      var b := k'[|w|];
      assert w + [b] <= k';
      assert Under(keys, w + [b], k');
      assert SlotOk(sh, KidSlot(n, b));
      assert b in sh.view[n].kids;
      assert Get(sh, KidSlot(n, c)) == sh.view[n].kids[c];
    }
  }

  lemma CollapsedNode(sh: Shape, keyLen: nat, s: Slot, n: Node, c: Byte, c': Byte, x: Node)
    requires Collapses(sh, keyLen, s, n, c, c') && x in sh.view && x != n
    ensures ViewOk(sh.leaves.Keys - {sh.view[n].kids[c].leaf.key}, Collapsed(sh, keyLen, s, n, c, c').view[x])
  {
    hide Branches, Covers;
    CollapsedFrame(sh, keyLen, s, n, c, c', x);
    assert NodeOk(sh, x) && NodeOk(sh, n) && sh.view[n].kids[c'] != Null;
    if sh.view[n].kids[c'] == NodeRef(x) {
      CollapsedChild(sh, keyLen, s, n, c, c', x);
    } else {
      CollapsedOther(sh, keyLen, s, n, c, c', x);
    }
  }

  /** The node that takes the place of its parent starts where that started. */
  lemma CollapsedChild(sh: Shape, keyLen: nat, s: Slot, n: Node, c: Byte, c': Byte, x: Node)
    requires Collapses(sh, keyLen, s, n, c, c') && x in sh.view && x != n && sh.view[n].kids[c'] == NodeRef(x)
    ensures var keys, b, d := sh.leaves.Keys - {sh.view[n].kids[c].leaf.key}, sh.view[x].branch, sh.view[n].start;
      d <= |b| && Branches(keys, b) && Covers(keys, b[..d], b) && (d > 0 ==> Branches(keys, b[..d - 1]))
  {
    var sc, b, d := KidSlot(n, c), sh.view[x].branch, sh.view[n].start;
    assert NodeOk(sh, x) && NodeOk(sh, n);
    assert !Twins(sh, x, n);
    Survives(sh, keyLen, sc, b);
    RefCovers(sh, keyLen, s);
    CollapseCovers(sh, keyLen, s, n, c, c');
    assert b[..d] == Position(sh, s);
    if s.KidSlot? {
      assert NodeOk(sh, s.owner);
      assert sh.view[s.owner].branch == b[..d - 1];
      Survives(sh, keyLen, sc, sh.view[s.owner].branch);
    }
  }

  /** Every other node starts where it did. */
  lemma CollapsedOther(sh: Shape, keyLen: nat, s: Slot, n: Node, c: Byte, c': Byte, x: Node)
    requires Collapses(sh, keyLen, s, n, c, c') && x in sh.view && x != n && sh.view[n].kids[c'] != NodeRef(x)
    ensures var keys, b, d := sh.leaves.Keys - {sh.view[n].kids[c].leaf.key}, sh.view[x].branch, sh.view[x].start;
      d <= |b| && Branches(keys, b) && Covers(keys, b[..d], b) && (d > 0 ==> Branches(keys, b[..d - 1]))
  {
    var sc, b, d := KidSlot(n, c), sh.view[x].branch, sh.view[x].start;
    assert NodeOk(sh, x);
    assert !Twins(sh, x, n);
    Survives(sh, keyLen, sc, b);
    CoversLess(sh.leaves.Keys, sh.view[n].kids[c].leaf.key, b[..d], b);
    if d > 0 {
      if b[..d - 1] == sh.view[n].branch {
        NodeAtStart(sh, keyLen, KidSlot(n, b[d - 1]), x);
      }
      Survives(sh, keyLen, sc, b[..d - 1]);
    }
  }

  lemma CollapsedSlot(sh: Shape, keyLen: nat, s: Slot, n: Node, c: Byte, c': Byte, s': Slot)
    requires Collapses(sh, keyLen, s, n, c, c') && SlotIn(sh, s') && (s'.KidSlot? ==> s'.owner != n)
    ensures SlotIn(Collapsed(sh, keyLen, s, n, c, c'), s') && SlotOk(Collapsed(sh, keyLen, s, n, c, c'), s')
  {
    var sh', sc, r := Collapsed(sh, keyLen, s, n, c, c'), KidSlot(n, c), Get(sh, s');
    var k, o, p := Get(sh, sc).leaf.key, Get(sh, KidSlot(n, c')), Position(sh, s');
    if s'.KidSlot? {
      CollapsedFrame(sh, keyLen, s, n, c, c', s'.owner);
    }
    assert Position(sh', s') == p;
    if s' == s {
      RefCovers(sh, keyLen, s);
      assert NodeOk(sh, n);
      RefCovers(sh, keyLen, KidSlot(n, c'));
      CollapseCovers(sh, keyLen, s, n, c, c');
      CollapsedRef(sh, keyLen, s, n, c, c');
    } else {
      assert SlotOk(sh, s');
      assert Get(sh', s') == r;
      assert r != NodeRef(n) && r != Get(sh, sc) && (r != Null ==> r != o) by {
        OtherSlot(sh, keyLen, s, n, c, c', s');
      }
      if r.NodeRef? {
        CollapsedFrame(sh, keyLen, s, n, c, c', r.node);
      }
      assert SlotOk(sh, sc);
      RefLess(sh, sh', r, p, k);
    }
  }

  lemma OtherSlot(sh: Shape, keyLen: nat, s: Slot, n: Node, c: Byte, c': Byte, s': Slot)
    requires Collapses(sh, keyLen, s, n, c, c') && SlotIn(sh, s') && s' != s && (s'.KidSlot? ==> s'.owner != n)
    ensures var r := Get(sh, s');
      r != NodeRef(n) && r != sh.view[n].kids[c] && (r != Null ==> r != sh.view[n].kids[c'])
  {
    var r := Get(sh, s');
    if r != Null {
      if r == Get(sh, s) {
        RefOnce(sh, keyLen, s, s');
      } else if r == Get(sh, KidSlot(n, c)) {
        RefOnce(sh, keyLen, KidSlot(n, c), s');
      } else if r == Get(sh, KidSlot(n, c')) {
        RefOnce(sh, keyLen, KidSlot(n, c'), s');
      }
    }
  }

  lemma CollapsedRef(sh: Shape, keyLen: nat, s: Slot, n: Node, c: Byte, c': Byte)
    requires Collapses(sh, keyLen, s, n, c, c')
    ensures RefOk(Collapsed(sh, keyLen, s, n, c, c'), sh.view[n].kids[c'], Position(sh, s))
  {
    var sh', r, p := Collapsed(sh, keyLen, s, n, c, c'), sh.view[n].kids[c'], Position(sh, s);
    RefCovers(sh, keyLen, s);
    assert NodeOk(sh, n);
    assert Get(sh, KidSlot(n, c')) == r && Get(sh, KidSlot(n, c)) == sh.view[n].kids[c];
    RefCovers(sh, keyLen, KidSlot(n, c'));
    CollapseCovers(sh, keyLen, s, n, c, c');
    assert sh'.leaves.Keys == sh.leaves.Keys - {sh.view[n].kids[c].leaf.key};
    if r.NodeRef? {
      assert sh.view[r.node].start > sh.view[n].start;
      CollapsedFrame(sh, keyLen, s, n, c, c', r.node);
    } else {
      LeavesApart(sh, keyLen, KidSlot(n, c), KidSlot(n, c'));
    }
  }

  lemma LeavesApart(sh: Shape, keyLen: nat, s1: Slot, s2: Slot)
    requires HasLeaf(sh, keyLen, s1) && HasLeaf(sh, keyLen, s2) && s1 != s2
    ensures Get(sh, s1).leaf.key != Get(sh, s2).leaf.key
  {
    assert SlotOk(sh, s1) && SlotOk(sh, s2);
    if Get(sh, s1) == Get(sh, s2) {
      RefOnce(sh, keyLen, s1, s2);
    }
  }

  lemma CollapsedOk(sh: Shape, keyLen: nat, s: Slot, n: Node, c: Byte, c': Byte)
    requires Collapses(sh, keyLen, s, n, c, c')
    ensures Ok(Collapsed(sh, keyLen, s, n, c, c'), keyLen)
  {
    var sh' := Collapsed(sh, keyLen, s, n, c, c');
    assert sh'.leaves.Keys == sh.leaves.Keys - {sh.view[n].kids[c].leaf.key};
    forall x | x in sh'.view
      ensures NodeOk(sh', x)
      ensures sh'.view[x].branch == sh.view[x].branch
    {
      CollapsedNode(sh, keyLen, s, n, c, c', x);
      CollapsedFrame(sh, keyLen, s, n, c, c', x);
    }
    forall s' | SlotIn(sh', s')
      ensures SlotOk(sh', s')
    {
      CollapsedSlot(sh, keyLen, s, n, c, c', s');
    }
    forall n1, n2 | Twins(sh', n1, n2)
      ensures n1 == n2
    {
      assert Twins(sh, n1, n2);
    }
  }

  // ---------- the shape is a function of the key set ----------

  /** Every branching string has its node: the walk from a slot above reaches it. */
  lemma BranchNode(sh: Shape, keyLen: nat, s: Slot, w: Key) returns (n: Node)
    requires Ok(sh, keyLen) && SlotIn(sh, s) && Position(sh, s) <= w && Branches(sh.leaves.Keys, w)
    ensures n in sh.view && sh.view[n].branch == w
    decreases |w| - |Position(sh, s)|
  {
    TwoUnder(sh, keyLen, s, w);
    RefCovers(sh, keyLen, s);
    n := Get(sh, s).node;
    var b := sh.view[n].branch;
    CoverBranch(sh.leaves.Keys, Position(sh, s), b, w);
    if |b| < |w| {
      n := BranchNode(sh, keyLen, KidSlot(n, w[|b|]), w);
    } else {
      assert b == w;
    }
  }

  /** What a reference leads to, without naming the objects. */
  datatype Label = Nothing | KeyLabel(key: Key) | BranchLabel(branch: Key)

  ghost function LabelOf(sh: Shape, r: Ref): Label {
    match r
    case Null => Nothing
    case LeafRef(l) => KeyLabel(l.key)
    case NodeRef(n) => BranchLabel(Stem(sh, r))
  }

  lemma SameLabel(sh1: Shape, sh2: Shape, keyLen: nat, s1: Slot, s2: Slot)
    requires Ok(sh1, keyLen) && Ok(sh2, keyLen) && sh1.leaves.Keys == sh2.leaves.Keys
    requires SlotIn(sh1, s1) && SlotIn(sh2, s2) && Position(sh1, s1) == Position(sh2, s2)
    ensures LabelOf(sh1, Get(sh1, s1)) == LabelOf(sh2, Get(sh2, s2))
  {
    SameLabelHalf(sh1, sh2, keyLen, s1, s2);
    SameLabelHalf(sh2, sh1, keyLen, s2, s1);
    var r1, r2, keys, p := Get(sh1, s1), Get(sh2, s2), sh1.leaves.Keys, Position(sh1, s1);
    if r1.NodeRef? && r2.NodeRef? {
      RefCovers(sh1, keyLen, s1);
      RefCovers(sh2, keyLen, s2);
      assert NodeOk(sh1, r1.node) && NodeOk(sh2, r2.node);
      CoverBranch(keys, p, Stem(sh1, r1), Stem(sh2, r2));
      CoverBranch(keys, p, Stem(sh2, r2), Stem(sh1, r1));
    }
  }

  lemma SameLabelHalf(sh1: Shape, sh2: Shape, keyLen: nat, s1: Slot, s2: Slot)
    requires Ok(sh1, keyLen) && Ok(sh2, keyLen) && sh1.leaves.Keys == sh2.leaves.Keys
    requires SlotIn(sh1, s1) && SlotIn(sh2, s2) && Position(sh1, s1) == Position(sh2, s2)
    ensures var r1, r2 := Get(sh1, s1), Get(sh2, s2);
      && (r1.NodeRef? ==> r2.NodeRef?)
      && (r1.LeafRef? ==> r2 == Null || r2.NodeRef? || (r2.LeafRef? && r2.leaf.key == r1.leaf.key))
      && (r1 == Null ==> r2 == Null)
  {
    var r1, r2 := Get(sh1, s1), Get(sh2, s2);
    assert SlotOk(sh1, s1) && SlotOk(sh2, s2);
    if r1.NodeRef? {
      RefCovers(sh1, keyLen, s1);
      assert NodeOk(sh1, r1.node);
      TwoUnder(sh2, keyLen, s2, sh1.view[r1.node].branch);
    }
    if r2.NodeRef? {
      RefCovers(sh2, keyLen, s2);
      assert NodeOk(sh2, r2.node);
      TwoUnder(sh1, keyLen, s1, sh2.view[r2.node].branch);
    }
  }

  /** Two starts of a prefix that lead to the same branching string coincide. */
  lemma StartUnique(keys: set<Key>, w: Key, a: nat, b: nat)
    requires Branches(keys, w) && a <= |w| && b <= |w|
    requires Covers(keys, w[..a], w) && Covers(keys, w[..b], w)
    requires a > 0 ==> Branches(keys, w[..a - 1])
    requires b > 0 ==> Branches(keys, w[..b - 1])
    ensures a == b
  {
    if a < b {
      CoverBranch(keys, w[..a], w, w[..b - 1]);
    } else if b < a {
      CoverBranch(keys, w[..b], w, w[..a - 1]);
    }
  }

  ghost predicate Counterparts(sh1: Shape, sh2: Shape, n1: Node, n2: Node)
    requires n1 in sh1.view && n2 in sh2.view
  {
    var v1, v2 := sh1.view[n1], sh2.view[n2];
    && v1.branch == v2.branch && v1.start == v2.start && v1.kids.Keys == v2.kids.Keys
    && forall c :: c in v1.kids ==> LabelOf(sh1, v1.kids[c]) == LabelOf(sh2, v2.kids[c])
  }

  lemma NodesMatch(sh1: Shape, sh2: Shape, keyLen: nat, n1: Node, n2: Node)
    requires Ok(sh1, keyLen) && Ok(sh2, keyLen) && sh1.leaves.Keys == sh2.leaves.Keys
    requires n1 in sh1.view && n2 in sh2.view && sh1.view[n1].branch == sh2.view[n2].branch
    ensures Counterparts(sh1, sh2, n1, n2)
  {
    var v1, v2 := sh1.view[n1], sh2.view[n2];
    assert NodeOk(sh1, n1) && NodeOk(sh2, n2);
    StartUnique(sh1.leaves.Keys, v1.branch, v1.start, v2.start);
    forall c: Byte
      ensures c in v1.kids <==> c in v2.kids
      ensures c in v1.kids ==> LabelOf(sh1, v1.kids[c]) == LabelOf(sh2, v2.kids[c])
    {
      SameLabel(sh1, sh2, keyLen, KidSlot(n1, c), KidSlot(n2, c));
    }
  }

  /** The skeleton depends on the stored keys alone: same root, and every node has its counterpart. */
  lemma Canonical(sh1: Shape, sh2: Shape, keyLen: nat)
    requires Ok(sh1, keyLen) && Ok(sh2, keyLen) && sh1.leaves.Keys == sh2.leaves.Keys
    ensures LabelOf(sh1, sh1.root) == LabelOf(sh2, sh2.root)
    ensures forall n1 :: n1 in sh1.view ==> exists n2 :: n2 in sh2.view && Counterparts(sh1, sh2, n1, n2)
  {
    SameLabel(sh1, sh2, keyLen, RootSlot, RootSlot);
    forall n1 | n1 in sh1.view
      ensures exists n2 :: n2 in sh2.view && Counterparts(sh1, sh2, n1, n2)
    {
      assert NodeOk(sh1, n1);
      var n2 := BranchNode(sh2, keyLen, RootSlot, sh1.view[n1].branch);
      NodesMatch(sh1, sh2, keyLen, n1, n2);
    }
  }
}
