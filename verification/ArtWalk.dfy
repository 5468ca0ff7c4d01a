/** Walking the shape towards a key, and the order of the keys found on the way. */
module ArtWalk {
  import opened ArtNode
  import opened ArtShape
  import opened Sets

  /** memcmp order of keys of one length. */
  ghost predicate LexLess(a: Key, b: Key) {
    exists i: nat :: LessAt(a, b, i)
  }

  ghost predicate LessAt(a: Key, b: Key, i: nat) {
    i < |a| && i < |b| && a[i] < b[i] && forall j :: 0 <= j < i ==> a[j] == b[j]
  }

  lemma LexAsymmetric(a: Key, b: Key)
    requires LexLess(a, b)
    ensures a != b && !LexLess(b, a)
  {
    var i: nat :| LessAt(a, b, i);
    forall j: nat
      ensures !LessAt(b, a, j)
    {
      assert i < j ==> a[i] != b[i];
    }
  }

  /** Keys under a smaller child come first. */
  lemma KidsInOrder(w: Key, c1: Byte, c2: Byte, k1: Key, k2: Key)
    requires c1 < c2 && w + [c1] <= k1 && w + [c2] <= k2
    ensures LexLess(k1, k2)
  {
    assert (w + [c1])[|w|] == c1 && (w + [c2])[|w|] == c2;
    assert forall j :: 0 <= j < |w| ==> k1[j] == (w + [c1])[j] == (w + [c2])[j] == k2[j];
    assert LessAt(k1, k2, |w|);
  }

  /** The branching byte always lies inside the keys. */
  lemma BranchShort(sh: Shape, keyLen: nat, n: Node)
    requires Ok(sh, keyLen) && n in sh.view
    ensures |sh.view[n].branch| < keyLen && sh.view[n].start <= |sh.view[n].branch|
  {
    assert NodeOk(sh, n);
    var k1, k2 :| Parts(sh.leaves.Keys, sh.view[n].branch, k1, k2);
  }

  /** A stored key below a slot also passes the node there, and goes on through the child for its byte. */
  lemma StepDown(sh: Shape, keyLen: nat, s: Slot, k: Key)
    requires Ok(sh, keyLen) && SlotIn(sh, s) && Get(sh, s).NodeRef? && |k| == keyLen
    requires k in sh.leaves ==> Position(sh, s) <= k
    ensures var n := Get(sh, s).node;
      && n in sh.view && sh.view[n].start == |Position(sh, s)| && Position(sh, s) <= sh.view[n].branch
      && |sh.view[n].branch| < keyLen
      && (k in sh.leaves ==> sh.view[n].branch <= k)
      && (sh.view[n].branch <= k ==> Position(sh, KidSlot(n, k[|sh.view[n].branch|])) <= k)
  {
    RefCovers(sh, keyLen, s);
    BranchShort(sh, keyLen, Get(sh, s).node);
    assert k in sh.leaves ==> Under(sh.leaves.Keys, Position(sh, s), k);
  }

  /** What a null pointer or a leaf says about the key that led there. */
  lemma WalkEnds(sh: Shape, keyLen: nat, s: Slot, k: Key)
    requires Ok(sh, keyLen) && SlotIn(sh, s) && !Get(sh, s).NodeRef?
    requires k in sh.leaves ==> Position(sh, s) <= k
    ensures Get(sh, s) == Null ==> k !in sh.leaves
    ensures Get(sh, s).LeafRef? ==> (k in sh.leaves <==> Get(sh, s).leaf.key == k)
    ensures Get(sh, s).LeafRef? && k in sh.leaves ==> sh.leaves[k] == Get(sh, s).leaf
  {
    assert SlotOk(sh, s);
    assert k in sh.leaves ==> Under(sh.leaves.Keys, Position(sh, s), k);
  }

  /** Every node has at least two children. */
  lemma TwoKids(sh: Shape, keyLen: nat, n: Node) returns (c1: Byte, c2: Byte)
    requires Ok(sh, keyLen) && n in sh.view
    ensures c1 in sh.view[n].kids && c2 in sh.view[n].kids && c1 != c2
    ensures |sh.view[n].kids| >= 2
  {
    assert NodeOk(sh, n);
    var b, keys := sh.view[n].branch, sh.leaves.Keys;
    var k1, k2 :| Parts(keys, b, k1, k2);
    c1, c2 := k1[|b|], k2[|b|];
    assert SlotOk(sh, KidSlot(n, c1)) && SlotOk(sh, KidSlot(n, c2));
    assert b + [c1] <= k1 && b + [c2] <= k2;
    assert Under(keys, b + [c1], k1) && Under(keys, b + [c2], k2);
    assert {c1, c2} <= sh.view[n].kids.Keys;
    SubsetSize({c1, c2}, sh.view[n].kids.Keys);
  }

  /** Each key under a node is under one of its children. */
  lemma ChildOfKey(sh: Shape, keyLen: nat, n: Node, k: Key) returns (c: Byte)
    requires Ok(sh, keyLen) && n in sh.view && Under(sh.leaves.Keys, sh.view[n].branch, k)
    ensures c in sh.view[n].kids && Under(sh.leaves.Keys, sh.view[n].branch + [c], k)
  {
    BranchShort(sh, keyLen, n);
    c := k[|sh.view[n].branch|];
    assert SlotOk(sh, KidSlot(n, c));
    assert Under(sh.leaves.Keys, sh.view[n].branch + [c], k);
  }

  /** `l` is the smallest leaf below slot `s`. */
  ghost predicate Least(sh: Shape, s: Slot, l: Leaf)
    requires SlotIn(sh, s)
  {
    && Under(sh.leaves.Keys, Position(sh, s), l.key) && sh.leaves[l.key] == l
    && forall k :: Under(sh.leaves.Keys, Position(sh, s), k) ==> k == l.key || LexLess(l.key, k)
  }

  /** `l` is the greatest leaf below slot `s`. */
  ghost predicate Greatest(sh: Shape, s: Slot, l: Leaf)
    requires SlotIn(sh, s)
  {
    && Under(sh.leaves.Keys, Position(sh, s), l.key) && sh.leaves[l.key] == l
    && forall k :: Under(sh.leaves.Keys, Position(sh, s), k) ==> k == l.key || LexLess(k, l.key)
  }

  lemma LeastOfFirst(sh: Shape, keyLen: nat, s: Slot, n: Node, c: Byte, l: Leaf)
    requires Ok(sh, keyLen) && SlotIn(sh, s) && Get(sh, s) == NodeRef(n) && n in sh.view
    requires forall c' :: c' in sh.view[n].kids ==> c <= c'
    requires Least(sh, KidSlot(n, c), l)
    ensures Least(sh, s, l)
  {
    var b, keys := sh.view[n].branch, sh.leaves.Keys;
    RefCovers(sh, keyLen, s);
    assert b <= b + [c];
    forall k | Under(keys, Position(sh, s), k)
      ensures k == l.key || LexLess(l.key, k)
    {
      assert Under(keys, b, k);
      var c' := ChildOfKey(sh, keyLen, n, k);
      if c < c' {
        KidsInOrder(b, c, c', l.key, k);
      }
    }
  }

  lemma GreatestOfLast(sh: Shape, keyLen: nat, s: Slot, n: Node, c: Byte, l: Leaf)
    requires Ok(sh, keyLen) && SlotIn(sh, s) && Get(sh, s) == NodeRef(n) && n in sh.view
    requires forall c' :: c' in sh.view[n].kids ==> c' <= c
    requires Greatest(sh, KidSlot(n, c), l)
    ensures Greatest(sh, s, l)
  {
    var b, keys := sh.view[n].branch, sh.leaves.Keys;
    RefCovers(sh, keyLen, s);
    assert b <= b + [c];
    forall k | Under(keys, Position(sh, s), k)
      ensures k == l.key || LexLess(k, l.key)
    {
      assert Under(keys, b, k);
      var c' := ChildOfKey(sh, keyLen, n, k);
      if c' < c {
        KidsInOrder(b, c', c, k, l.key);
      }
    }
  }
}
