/** The adaptive radix tree over keys of one length. */
module Art {
  import opened ArtNode
  import opened ArtShape
  import opened ArtWalk
  import opened ArtIter

  /** An `art_node**`: where the parent keeps the pointer to a node. */
  datatype RefPtr = RootPtr | ChildPtr(owner: Node, index: nat)

  /** The nodes that a method writes to, among all nodes. */
  datatype Writes = Writes(view: map<Node, View>, written: set<Node>)

  class Tree {
    const keyLen: nat
    var root: Ref
    var size: nat
    ghost var sh: Shape
    ghost var Repr: set<object>

    /** The layout of `n` holds the children that the shape gives it. */
    static ghost predicate HasKids(n: Node, kids: map<Byte, Ref>)
      reads n, n.keys, n.children
    {
      n.Holds(kids) && Sized(n.kind, |kids|)
    }

    /** The header of `n` stores its prefix: the length in full, the bytes up to the tenth. */
    static ghost predicate HasPrefix(n: Node, branch: Key, start: nat)
      reads n, n.partial
    {
      && n.Allocated() && start <= |branch| && n.partialLen == |branch| - start
      && Stores(n.partial[..], branch[start..])
    }

    static ghost predicate Backs(n: Node, v: View)
      reads n, n.partial, n.keys, n.children
    {
      HasKids(n, v.kids) && HasPrefix(n, v.branch, v.start)
    }

    static ghost predicate Apart(n1: Node, n2: Node) {
      n1 != n2 ==>
        && n1.partial != n2.partial && n1.keys != n2.keys && n1.partial != n2.keys && n1.keys != n2.partial
        && n1.children != n2.children
    }

    /** The nodes other than `a` and `b` back their views. */
    static ghost predicate Intact(view: map<Node, View>, a: Node?, b: Node?, repr: set<object>)
      reads repr
    {
      forall x {:trigger x.Within(repr)} :: x in view && x != a && x != b ==> x.Within(repr) && Backs(x, view[x])
    }

    static ghost predicate AllApart(view: map<Node, View>) {
      forall n1, n2 {:trigger Apart(n1, n2)} :: n1 in view && n2 in view ==> Apart(n1, n2)
    }

    static ghost predicate LeavesOwned(leaves: map<Key, Leaf>, repr: set<object>) {
      forall k :: k in leaves ==> leaves[k] in repr && leaves[k].key == k
    }

    ghost predicate Linked()
      reads this, Repr
    {
      && this !in Repr && root == sh.root && Ok(sh, keyLen)
      && Intact(sh.view, null, null, Repr) && AllApart(sh.view) && LeavesOwned(sh.leaves, Repr)
    }

    ghost predicate Valid()
      reads this, Repr
    {
      Linked() && size == |sh.leaves|
    }

    static ghost function ValuesOf(leaves: map<Key, Leaf>): (m: map<Key, Value>)
      reads set k | k in leaves :: leaves[k]
      ensures m.Keys == leaves.Keys
    {
      map k | k in leaves :: leaves[k].value
    }

    /** The finite map that the tree stands for. */
    ghost function Contents(): (m: map<Key, Value>)
      reads this, set k | k in sh.leaves :: sh.leaves[k]
    {
      ValuesOf(sh.leaves)
    }

    constructor (keyLen: nat)
      ensures Valid() && fresh(Repr) && this.keyLen == keyLen && Contents() == map[]
    {
      this.keyLen := keyLen;
      root := Null;
      size := 0;
      sh := Shape(Null, map[], map[]);
      Repr := {};
    }

    /** check_prefix: how many of the stored prefix bytes the key repeats. */
    method CheckPrefix(n: Node, key: Key, depth: nat) returns (idx: nat)
      requires n.Allocated() && depth <= |key|
      ensures idx <= Min(Min(n.partialLen, MAX_PREFIX_LEN), |key| - depth)
      ensures forall i :: 0 <= i < idx ==> n.partial[i] == key[depth + i]
      ensures idx < Min(Min(n.partialLen, MAX_PREFIX_LEN), |key| - depth) ==> n.partial[idx] != key[depth + idx]
    {
      var maxCmp := Min(Min(n.partialLen, MAX_PREFIX_LEN), |key| - depth);
      idx := 0;
      while idx < maxCmp
        invariant idx <= maxCmp
        invariant forall i :: 0 <= i < idx ==> n.partial[i] == key[depth + i]
      {
        if n.partial[idx] != key[depth + idx] {
          return;
        }
        idx := idx + 1;
      }
    }

    /** The stored bytes decide nothing wrongly: a key that passes the node passes the check. */
    lemma CheckPasses(n: Node, v: View, key: Key, depth: nat)
      requires HasPrefix(n, v.branch, v.start) && depth == v.start && v.branch <= key
      ensures forall i {:trigger n.partial[i]} :: 0 <= i < Min(n.partialLen, MAX_PREFIX_LEN) ==>
        n.partial[i] == key[depth + i]
    {
      StoredPrefix(n, v);
    }

    /** art_search */
    method Search(key: Key) returns (r: Value)
      requires Valid() && |key| == keyLen
      ensures r == if key in Contents() then Contents()[key] else 0
    {
      hide HoldsLayout, Ok, RefOk, Intact, AllApart, LeavesOwned;
      var n, depth := root, 0;
      ghost var s := RootSlot;
      while n != Null
        invariant SlotIn(sh, s) && n == Get(sh, s) && depth == |Position(sh, s)| <= keyLen
        invariant key in sh.leaves ==> Position(sh, s) <= key
        decreases keyLen - depth
      {
        if n.LeafRef? {
          WalkEnds(sh, keyLen, s, key);
          return if n.leaf.key == key then n.leaf.value else 0;
        }
        var x := n.node;
        StepDown(sh, keyLen, s, key);
        Unlink(x);
        if x.partialLen != 0 {
          var prefixLen := CheckPrefix(x, key, depth);
          if prefixLen != Min(MAX_PREFIX_LEN, x.partialLen) {
            if key in sh.leaves {
              CheckPasses(x, sh.view[x], key, depth);
            }
            return 0;
          }
          depth := depth + x.partialLen;
        }
        var child := x.FindChild(key[depth], sh.view[x].kids);
        n := if child.Some? then x.children[child.value] else Null;
        s := KidSlot(x, key[depth]);
        depth := depth + 1;
      }
      WalkEnds(sh, keyLen, s, key);
      return 0;
    }

    /** minimum, below a pointer that is not null. */
    method Minimum(n: Ref, ghost s: Slot) returns (l: Leaf)
      requires Linked() && SlotIn(sh, s) && Get(sh, s) == n != Null
      ensures Least(sh, s, l)
      decreases keyLen - |Position(sh, s)|
    {
      assert SlotOk(sh, s);
      if n.LeafRef? {
        return n.leaf;
      }
      var x := n.node;
      BranchShort(sh, keyLen, x);
      assert x.Within(Repr);
      var child, c := x.FirstChild(sh.view[x].kids);
      l := Minimum(child, KidSlot(x, c));
      LeastOfFirst(sh, keyLen, s, x, c, l);
    }

    /** maximum, below a pointer that is not null. */
    method Maximum(n: Ref, ghost s: Slot) returns (l: Leaf)
      requires Linked() && SlotIn(sh, s) && Get(sh, s) == n != Null
      ensures Greatest(sh, s, l)
      decreases keyLen - |Position(sh, s)|
    {
      assert SlotOk(sh, s);
      if n.LeafRef? {
        return n.leaf;
      }
      var x := n.node;
      BranchShort(sh, keyLen, x);
      assert x.Within(Repr);
      var child, c := x.LastChild(sh.view[x].kids);
      l := Maximum(child, KidSlot(x, c));
      GreatestOfLast(sh, keyLen, s, x, c, l);
    }

    /** art_minimum: the leaf of the smallest key, or null when the tree is empty. */
    method First() returns (l: Leaf?)
      requires Valid()
      ensures l == null <==> Contents() == map[]
      ensures l != null ==> l.key in Contents() && l.value == Contents()[l.key]
      ensures l != null ==> forall k :: k in Contents() && k != l.key ==> LexLess(l.key, k)
    {
      assert SlotOk(sh, RootSlot);
      if root == Null {
        forall k | k in Contents()
          ensures false
        {
          assert Under(sh.leaves.Keys, [], k);
        }
        return null;
      }
      l := Minimum(root, RootSlot);
      assert l.key in Contents();
      assert forall k :: k in Contents() ==> Under(sh.leaves.Keys, [], k);
    }

    /** art_maximum */
    method Last() returns (l: Leaf?)
      requires Valid()
      ensures l == null <==> Contents() == map[]
      ensures l != null ==> l.key in Contents() && l.value == Contents()[l.key]
      ensures l != null ==> forall k :: k in Contents() && k != l.key ==> LexLess(k, l.key)
    {
      assert SlotOk(sh, RootSlot);
      if root == Null {
        forall k | k in Contents()
          ensures false
        {
          assert Under(sh.leaves.Keys, [], k);
        }
        return null;
      }
      l := Maximum(root, RootSlot);
      assert l.key in Contents();
      assert forall k :: k in Contents() ==> Under(sh.leaves.Keys, [], k);
    }

    /** The second loop of prefix_mismatch: how far the leaf repeats the key, after `from` bytes. */
    static method LeafMismatch(l: Leaf, key: Key, depth: nat, from: nat) returns (idx: nat)
      requires depth + from <= |key| == |l.key|
      requires forall i :: 0 <= i < depth + from ==> l.key[i] == key[i]
      ensures depth + idx <= |key|
      ensures forall i :: 0 <= i < depth + idx ==> l.key[i] == key[i]
      ensures depth + idx < |key| ==> l.key[depth + idx] != key[depth + idx]
    {
      var maxCmp := Min(|l.key|, |key|) - depth;
      idx := from;
      while idx < maxCmp
        invariant idx <= maxCmp
        invariant forall i :: 0 <= i < depth + idx ==> l.key[i] == key[i]
      {
        if l.key[depth + idx] != key[depth + idx] {
          return;
        }
        idx := idx + 1;
      }
    }

    /** prefix_mismatch: at most 10 bytes are compared here, the others against the smallest leaf. */
    method PrefixMismatch(n: Node, key: Key, depth: nat, ghost s: Slot) returns (idx: nat)
      requires Linked() && SlotIn(sh, s) && Get(sh, s) == NodeRef(n) && |key| == keyLen
      requires depth == |Position(sh, s)| && Position(sh, s) <= key
      ensures n in sh.view && n.partialLen == |sh.view[n].branch| - depth && |sh.view[n].branch| < keyLen
      ensures idx >= n.partialLen ==> sh.view[n].branch <= key
      ensures idx < n.partialLen ==>
        key[..depth + idx] <= sh.view[n].branch && sh.view[n].branch[depth + idx] != key[depth + idx]
    {
      hide Ok, Intact, AllApart, AllWithin, LeavesOwned, HasPrefix, HasKids, Linked;
      Unlink(n);
      RefCovers(sh, keyLen, s);
      BranchShort(sh, keyLen, n);
      ghost var v := sh.view[n];
      HeaderOf(n, v);
      idx := CheckPrefix(n, key, depth);
      PrefixAgrees(n, v, key, depth, idx);
      if n.partialLen > MAX_PREFIX_LEN && idx == MAX_PREFIX_LEN {
        var l := Minimum(NodeRef(n), s);
        assert Under(sh.leaves.Keys, v.branch, l.key);
        LeafPasses(l, v.branch, key, depth + idx);
        idx := LeafMismatch(l, key, depth, idx);
        LeafAgrees(v.branch, l.key, key, depth + idx);
      }
    }

    /** What the stored bytes say about the whole prefix. */
    lemma PrefixAgrees(n: Node, v: View, key: Key, depth: nat, idx: nat)
      requires HasPrefix(n, v.branch, v.start) && depth == v.start && |v.branch| < |key| && v.branch[..depth] <= key
      requires idx <= Min(n.partialLen, MAX_PREFIX_LEN)
      requires forall i :: 0 <= i < idx ==> n.partial[i] == key[depth + i]
      ensures key[..depth + idx] <= v.branch
      ensures idx < Min(n.partialLen, MAX_PREFIX_LEN) ==> v.branch[depth + idx] == n.partial[idx]
      ensures idx == n.partialLen ==> v.branch <= key
    {
      StoredPrefix(n, v);
      forall i | 0 <= i < depth + idx
        ensures v.branch[i] == key[i]
      {
        if i < depth {
          assert v.branch[..depth][i] == key[i];
        } else {
          assert n.partial[i - depth] == key[depth + (i - depth)];
        }
      }
    }

    lemma LeafPasses(l: Leaf, branch: Key, key: Key, end: nat)
      requires Ok(sh, keyLen) && l.key in sh.leaves && branch <= l.key && end <= |branch| && |key| == keyLen
      requires end <= |key| && key[..end] <= branch
      ensures |l.key| == |key| && forall i :: 0 <= i < end ==> l.key[i] == key[i]
    {
      forall i | 0 <= i < end
        ensures l.key[i] == key[i]
      {
        assert key[..end][i] == branch[i];
      }
    }

    /** A leaf below the node stands for the prefix. */
    lemma LeafAgrees(branch: Key, leafKey: Key, key: Key, end: nat)
      requires branch <= leafKey && |branch| < |key| == |leafKey| && end <= |key|
      requires forall i :: 0 <= i < end ==> leafKey[i] == key[i]
      requires end < |key| ==> leafKey[end] != key[end]
      ensures end >= |branch| ==> branch <= key
      ensures end < |branch| ==> key[..end] <= branch && branch[end] != key[end]
    {
    }

    /** The stored bytes are the first ones of the prefix. */
    static lemma StoredPrefix(n: Node, v: View)
      requires HasPrefix(n, v.branch, v.start)
      ensures forall i {:trigger n.partial[i]} :: 0 <= i < Min(n.partialLen, MAX_PREFIX_LEN) ==>
        n.partial[i] == v.branch[v.start + i]
    {
      assert forall i :: 0 <= i < Min(n.partialLen, MAX_PREFIX_LEN) ==> n.partial[..][i] == v.branch[v.start..][i];
    }

    // ---------- insertion ----------

    /** `ref` is the pointer stored at slot `s`. */
    static ghost predicate Points(ref: RefPtr, s: Slot, view: map<Node, View>)
      reads if ref.ChildPtr? then {ref.owner, ref.owner.keys} else {}
    {
      match ref
      case RootPtr => s == RootSlot
      case ChildPtr(n, i) =>
        s.KidSlot? && s.owner == n && n in view && s.byte in view[n].kids && n.At(i, s.byte)
    }

    lemma PointsTo(ref: RefPtr, s: Slot)
      requires Points(ref, s, sh.view)
      ensures ref.ChildPtr? <==> s.KidSlot?
      ensures ref.ChildPtr? ==> ref.owner == s.owner
    {
    }

    /** From `view0` to `view1` only the views of `a` and `b` changed, and only `n'` may be new. */
    static ghost predicate Changes(view0: map<Node, View>, view1: map<Node, View>, a: Node, b: Node, n': Node) {
      forall x {:trigger x in view1} :: x in view1 ==>
        && (x in view0 || x == n')
        && (x != a && x != b && x != n' ==> x in view0 && view1[x] == view0[x])
    }

    static ghost predicate AllWithin(view: map<Node, View>, repr: set<object>) {
      forall x :: x in view ==> x.Within(repr)
    }

    /** Node `x`, if it is in `view`, backs it. */
    static ghost predicate BacksIn(view: map<Node, View>, x: Node, repr: set<object>)
      reads x, x.partial, x.keys, x.children
    {
      x in view ==> x.Within(repr) && Backs(x, view[x])
    }

    /** A new shape is linked when the changed nodes back it and the others are as they were. */
    lemma Relink(view0: map<Node, View>, repr0: set<object>, a: Node, b: Node, n': Node)
      requires this !in Repr && root == sh.root && Ok(sh, keyLen) && LeavesOwned(sh.leaves, Repr)
      requires AllApart(view0) && AllWithin(view0, repr0) && Intact(view0, a, b, Repr)
      requires Changes(view0, sh.view, a, b, n')
      requires BacksIn(sh.view, a, Repr) && BacksIn(sh.view, b, Repr) && BacksIn(sh.view, n', Repr)
      requires n' in sh.view ==> n' in view0 || n'.Outside(repr0)
      ensures Linked()
    {
      hide HasKids, HasPrefix, Ok;
      forall x | x in sh.view
        ensures x.Within(Repr) && Backs(x, sh.view[x])
      {
      }
      forall n1, n2 | n1 in sh.view && n2 in sh.view
        ensures Apart(n1, n2)
      {
        assert n1 in view0 && n2 in view0 ==> Apart(n1, n2);
      }
    }

    /** What must hold before a write through a reference makes the tree match shape `sh'`: node `a`
        and the new node `n'` already do, everything else is as it was. */
    ghost predicate Pending(sh': Shape, a: Node, n': Node, repr0: set<object>)
      reads this, Repr, a, a.partial, a.keys, a.children, n', n'.partial, n'.keys, n'.children
    {
      && this !in Repr && Ok(sh', keyLen) && LeavesOwned(sh'.leaves, Repr)
      && AllApart(sh.view) && AllWithin(sh.view, repr0) && Intact(sh.view, a, a, Repr)
      && BacksIn(sh'.view, a, Repr) && BacksIn(sh'.view, n', Repr)
      && (n' in sh'.view ==> n' in sh.view || n'.Outside(repr0))
    }

    /** `*ref = r`, where `ref` is the root pointer. */
    method StoreRoot(r: Ref, ghost sh': Shape, ghost a: Node, ghost n': Node, ghost repr0: set<object>)
      requires Pending(sh', a, n', repr0) && Changes(sh.view, sh'.view, a, a, n') && sh'.root == r
      modifies this`root, this`sh
      ensures Linked() && sh == sh' && ValuesOf(sh'.leaves) == old(ValuesOf(sh'.leaves))
    {
      hide HasKids, HasPrefix, Ok, AllApart, AllWithin, Intact, LeavesOwned, Changes;
      ghost var view0 := sh.view;
      root := r;
      sh := sh';
      Relink(view0, repr0, a, a, n');
    }

    /** `*ref = r`, where `ref` points into the children of node `p`. */
    method StoreChild(p: Node, i: nat, r: Ref, ghost c: Byte, ghost sh': Shape, ghost a: Node, ghost n': Node,
        ghost repr0: set<object>)
      requires Pending(sh', a, n', repr0) && Changes(sh.view, sh'.view, a, p, n') && root == sh'.root
      requires p in sh.view && p != a && p in sh'.view && c in sh.view[p].kids && p.At(i, c) && r != Null
      requires sh'.view[p] == Put(sh, KidSlot(p, c), r).view[p]
      requires Apart(p, a) && Apart(p, n') && p != n'
      modifies p.children, this`sh
      ensures Linked() && sh == sh' && ValuesOf(sh'.leaves) == old(ValuesOf(sh'.leaves))
    {
      hide HasKids, HasPrefix, Ok, AllApart, AllWithin, Intact, LeavesOwned, Changes, ValuesOf;
      ghost var view0, leaves' := sh.view, sh'.leaves;
      IntactAt(p, a);
      SetKid(p, i, r, c, a, leaves');
      sh := sh';
      Relink(view0, repr0, a, p, n');
    }

    lemma IntactAt(p: Node, a: Node)
      requires Intact(sh.view, a, a, Repr) && p in sh.view && p != a
      ensures p.Within(Repr) && Backs(p, sh.view[p])
    {
      hide HasKids, HasPrefix;
    }

    method SetKid(p: Node, i: nat, r: Ref, ghost c: Byte, ghost a: Node, ghost leaves: map<Key, Leaf>)
      requires p in sh.view && c in sh.view[p].kids && p.At(i, c) && r != Null
      requires AllApart(sh.view) && Intact(sh.view, a, a, Repr) && p.Within(Repr) && Backs(p, sh.view[p])
      modifies p.children
      ensures Intact(sh.view, a, p, Repr)
      ensures Backs(p, sh.view[p].(kids := sh.view[p].kids[c := r]))
      ensures ValuesOf(leaves) == old(ValuesOf(leaves))
    {
      assert sh.view[p].kids[c := r].Keys == sh.view[p].kids.Keys;
      ghost var kids := sh.view[p].kids;
      hide HoldsLayout, HasPrefix;
      p.SetChild(i, r, c, kids);
      forall x | x in sh.view && x != a && x != p
        ensures x.Within(Repr) && Backs(x, sh.view[x])
      {
        assert Apart(x, p);
        assert old(x.Within(Repr) && Backs(x, sh.view[x]));
      }
    }

    /** `*ref = r`: the write that completes an update. */
    method Store(ref: RefPtr, r: Ref, ghost s: Slot, ghost sh': Shape, ghost a: Node, ghost n': Node,
        ghost repr0: set<object>)
      requires Points(ref, s, sh.view) && r != Null && Pending(sh', a, n', repr0) && (s == RootSlot || root == sh'.root)
      requires Changes(sh.view, sh'.view, a, if s.KidSlot? then s.owner else a, n')
      requires s == RootSlot ==> sh'.root == r
      requires s.KidSlot? ==> s.owner != a && s.owner in sh'.view && sh'.view[s.owner] == Put(sh, s, r).view[s.owner]
      requires s.KidSlot? ==> Apart(s.owner, a) && Apart(s.owner, n') && s.owner != n'
      modifies this`root, this`sh, if ref.ChildPtr? then {ref.owner.children} else {}
      ensures Linked() && sh == sh' && ValuesOf(sh'.leaves) == old(ValuesOf(sh'.leaves))
    {
      hide HasKids, HasPrefix, Ok, AllApart, AllWithin, Intact, LeavesOwned, Changes, Pending, Linked;
      match ref
      case RootPtr => StoreRoot(r, sh', a, n', repr0);
      case ChildPtr(p, i) => StoreChild(p, i, r, s.byte, sh', a, n', repr0);
    }

    /** Which views a renaming changes. */
    lemma RenamedViews(sh0: Shape, sh1: Shape, n: Node, r: Node, s: Slot)
      requires CanRename(sh1, keyLen, s, r) && Get(sh1, s) == NodeRef(n) && n in sh0.view
      requires sh1.view.Keys == sh0.view.Keys && forall x :: x in sh0.view && x != n ==> sh1.view[x] == sh0.view[x]
      ensures s.KidSlot? ==> s.owner in sh0.view && s.owner != n && s.owner in Renamed(sh1, s, r).view
      ensures Changes(sh0.view, Renamed(sh1, s, r).view, n, if s.KidSlot? then s.owner else n, r)
      ensures n !in Renamed(sh1, s, r).view && r in Renamed(sh1, s, r).view
      ensures Renamed(sh1, s, r).view[r] == sh1.view[n]
      ensures s.KidSlot? ==> Renamed(sh1, s, r).view[s.owner] == Put(sh0, s, NodeRef(r)).view[s.owner]
      ensures Renamed(sh1, s, r).root == if s == RootSlot then NodeRef(r) else sh1.root
    {
      forall x | x in Renamed(sh1, s, r).view
        ensures x in sh0.view || x == r
        ensures x != n && x != r && (s.KidSlot? ==> x != s.owner) ==>
          x in sh0.view && Renamed(sh1, s, r).view[x] == sh0.view[x]
      {
        RenamedFrame(sh1, keyLen, s, r, x);
      }
      assert r in Renamed(sh1, s, r).view;
      RenamedFrame(sh1, keyLen, s, r, r);
    }

    /** A header copied with its first bytes stores the same prefix. */
    lemma HeaderKept(n: Node, v: View, bytes: seq<Byte>)
      requires v.start <= |v.branch| && Stores(bytes, v.branch[v.start..]) && n.Allocated()
      requires n.SameHeader(|v.branch| - v.start, bytes)
      ensures HasPrefix(n, v.branch, v.start)
    {
    }

    lemma KidsAdded(n: Node, kids: map<Byte, Ref>, c: Byte, r: Ref)
      requires n.Holds(kids[c := r]) && c !in kids
      requires Sized(n.kind, |kids| + 1) || (n.kind == Node256 && |kids| >= 38)
      ensures HasKids(n, kids[c := r])
    {
      hide HoldsLayout;
      var kids' := kids[c := r];
      assert kids'.Keys == kids.Keys + {c};
      assert |kids'| == |kids| + 1;
      ByteSetSize(kids'.Keys, 256);
    }

    method AddKid(n: Node, c: Byte, child: Ref, ghost ref: RefPtr, ghost s: Slot) returns (r: Node)
      requires n in sh.view && c !in sh.view[n].kids && child != Null
      requires AllApart(sh.view) && Intact(sh.view, null, null, Repr)
      requires Points(ref, s, sh.view) && (s.KidSlot? ==> s.owner != n && Apart(s.owner, n))
      modifies n, n.keys, n.children
      ensures Backs(r, sh.view[n].(kids := sh.view[n].kids[c := child]))
      ensures r == n || fresh(r.Owned())
      ensures Intact(sh.view, n, n, Repr)
      ensures ValuesOf(sh.leaves) == old(ValuesOf(sh.leaves))
      ensures Points(ref, s, sh.view)
    {
      hide HoldsLayout, Stores, AllApart;
      ghost var v := sh.view[n];
      assert n.Within(Repr) && Backs(n, v);
      ghost var bytes := n.partial[..];
      r := n.AddChild(c, child, v.kids);
      HeaderKept(r, v, bytes);
      KidsAdded(r, v.kids, c, child);
      forall x | x in sh.view && x != n
        ensures x.Within(Repr) && Backs(x, sh.view[x])
      {
        TwoApart(x, n);
        assert old(x.Within(Repr) && Backs(x, sh.view[x]));
      }
    }

    lemma OneMoreLeaf(leaves: map<Key, Leaf>, l: Leaf, repr0: set<object>, repr: set<object>)
      requires l.key !in leaves && LeavesOwned(leaves, repr0) && repr0 <= repr && l in repr
      ensures ValuesOf(leaves[l.key := l]) == ValuesOf(leaves)[l.key := l.value]
      ensures LeavesOwned(leaves[l.key := l], repr)
    {
    }

    /** What the tree being linked says, with node `n` as an example. */
    lemma Unlink(n: Node)
      requires Linked()
      ensures this !in Repr && root == sh.root && Ok(sh, keyLen) && LeavesOwned(sh.leaves, Repr)
      ensures Intact(sh.view, null, null, Repr) && AllApart(sh.view) && AllWithin(sh.view, Repr)
      ensures n in sh.view ==> n.Within(Repr) && Backs(n, sh.view[n])
    {
      hide Ok, HasKids, HasPrefix;
    }

    lemma Open0()
      requires Linked()
      ensures this !in Repr && root == sh.root && Ok(sh, keyLen) && LeavesOwned(sh.leaves, Repr)
      ensures Intact(sh.view, null, null, Repr) && AllApart(sh.view) && AllWithin(sh.view, Repr)
    {
      hide Ok, HasKids, HasPrefix;
    }

    /** What it says where a reference is about to be changed. */
    lemma Open(ref: RefPtr, s: Slot)
      requires Linked() && SlotIn(sh, s) && Points(ref, s, sh.view)
      ensures this !in Repr && root == sh.root && Ok(sh, keyLen) && LeavesOwned(sh.leaves, Repr)
      ensures Intact(sh.view, null, null, Repr) && AllApart(sh.view) && AllWithin(sh.view, Repr)
      ensures s.KidSlot? ==> s.owner in sh.view && s.owner.Within(Repr)
      ensures ref.ChildPtr? <==> s.KidSlot?
      ensures ref.ChildPtr? ==> ref.owner == s.owner
    {
      hide Ok, HasKids, HasPrefix, Intact, LeavesOwned, AllApart, AllWithin, Linked;
      Open0();
      PointsTo(ref, s);
      if s.KidSlot? {
        Unlink(s.owner);
      }
    }

    /** And where it is the reference to node `n`. */
    lemma OpenNode(n: Node, ref: RefPtr, s: Slot)
      requires Linked() && SlotIn(sh, s) && Get(sh, s) == NodeRef(n) && n in sh.view && Points(ref, s, sh.view)
      ensures n.Within(Repr) && Backs(n, sh.view[n])
      ensures s.KidSlot? ==> s.owner != n && Apart(s.owner, n) && Apart(n, s.owner)
    {
      hide HasKids, HasPrefix, Intact, LeavesOwned, AllApart, AllWithin, Linked;
      Open(ref, s);
      Unlink(n);
      NotOwner(n, s);
      if s.KidSlot? {
        TwoApart(s.owner, n);
        TwoApart(n, s.owner);
      }
    }

    /** Two nodes share nothing. */
    lemma TwoApart(n: Node, m: Node)
      requires AllApart(sh.view) && n in sh.view && m in sh.view
      ensures Apart(n, m)
    {
    }

    lemma IntactMore(a: Node?, a': Node, repr0: set<object>, repr: set<object>)
      requires Intact(sh.view, a, a, repr0) && repr0 <= repr && (a == null || a == a')
      ensures Intact(sh.view, a', a', repr)
    {
      hide HasKids, HasPrefix;
      forall x | x in sh.view && x != a'
        ensures x.Within(repr) && Backs(x, sh.view[x])
      {
        assert x.Within(repr0);
      }
    }

    /** No node is its own parent. */
    lemma NotOwner(n: Node, s: Slot)
      requires Ok(sh, keyLen) && SlotIn(sh, s) && Get(sh, s) == NodeRef(n) && n in sh.view
      ensures s.KidSlot? ==> s.owner != n
    {
      RefCovers(sh, keyLen, s);
      BranchShort(sh, keyLen, n);
    }

    lemma FillHere(n: Node, l: Leaf, s: Slot)
      requires Ok(sh, keyLen) && |l.key| == keyLen && l.key !in sh.leaves
      requires SlotIn(sh, s) && Get(sh, s) == NodeRef(n) && n in sh.view
      requires sh.view[n].branch < l.key && l.key[|sh.view[n].branch|] !in sh.view[n].kids
      ensures var c := l.key[|sh.view[n].branch|]; var sh1 := Filled(sh, KidSlot(n, c), l);
        && Ok(sh1, keyLen)
        && SlotIn(sh1, s) && Get(sh1, s) == NodeRef(n) && (s.KidSlot? ==> s.owner != n)
        && sh1.view.Keys == sh.view.Keys && sh1.root == sh.root && sh1.leaves == sh.leaves[l.key := l]
        && sh1.view[n] == sh.view[n].(kids := sh.view[n].kids[c := LeafRef(l)])
        && (forall x :: x in sh.view && x != n ==> sh1.view[x] == sh.view[x])
        && Changes(sh.view, sh1.view, n, n, n)
    {
      hide RefOk, ViewOk, NodeOk, SlotOk;
      FilledOk(sh, keyLen, KidSlot(n, l.key[|sh.view[n].branch|]), l);
      NotOwner(n, s);
    }

    /** The tree already matches shape `sh'`. */
    method Adopt(ghost sh': Shape, ghost a: Node, ghost repr0: set<object>)
      requires Pending(sh', a, a, repr0) && Changes(sh.view, sh'.view, a, a, a) && a in sh.view && root == sh'.root
      modifies this`sh
      ensures Linked() && sh == sh' && ValuesOf(sh'.leaves) == old(ValuesOf(sh'.leaves))
    {
      hide HasKids, HasPrefix, Ok, AllApart, AllWithin, Intact, LeavesOwned, Changes;
      ghost var view0 := sh.view;
      sh := sh';
      Relink(view0, repr0, a, a, a);
    }

    /** `*ref = r`, where `r` is the node that takes the place of `n`, which shape `sh1` still has. */
    method Replace(n: Node, r: Node, ref: RefPtr, ghost s: Slot, ghost sh1: Shape, ghost repr0: set<object>)
      requires this !in Repr && root == sh.root == sh1.root && LeavesOwned(sh1.leaves, Repr)
      requires AllApart(sh.view) && Intact(sh.view, n, n, Repr) && AllWithin(sh.view, repr0)
      requires n in sh.view && Ok(sh1, keyLen) && SlotIn(sh1, s) && Get(sh1, s) == NodeRef(n)
      requires sh1.view.Keys == sh.view.Keys && forall x :: x in sh.view && x != n ==> sh1.view[x] == sh.view[x]
      requires Points(ref, s, sh.view) && r.Within(Repr) && r.Outside(repr0) && Backs(r, sh1.view[n])
      modifies this`root, this`sh, if ref.ChildPtr? then {ref.owner.children} else {}
      ensures r !in sh1.view && Linked() && sh == Renamed(sh1, s, r) && sh.leaves == sh1.leaves
      ensures ValuesOf(sh1.leaves) == old(ValuesOf(sh1.leaves))
    {
      hide HasKids, HasPrefix, Ok, AllApart, AllWithin, Intact, LeavesOwned, Changes, RefOk, ValuesOf;
      NewApart(r, repr0);
      RenamedOk(sh1, keyLen, s, r);
      RenamedViews(sh, sh1, n, r, s);
      if s.KidSlot? {
        WithinApart(s.owner, r, repr0);
        TwoApart(s.owner, n);
      }
      Store(ref, NodeRef(r), s, Renamed(sh1, s, r), n, r, repr0);
    }

    lemma NewApart(r: Node, repr0: set<object>)
      requires AllWithin(sh.view, repr0) && r.Outside(repr0)
      ensures r !in sh.view
    {
    }

    /** A new node shares nothing with an old one. */
    lemma WithinApart(p: Node, r: Node, repr0: set<object>)
      requires AllWithin(sh.view, repr0) && p in sh.view && r.Outside(repr0)
      ensures Apart(p, r) && p != r
    {
    }

    /** Takes the new objects among `l`, `r` and its arrays into the tree. */
    ghost method Claim(l: Leaf, r: Node)
      modifies this`Repr
      ensures Repr == old(Repr) + {l} + r.Owned() && l in Repr && r.Within(Repr)
    {
      Repr := Repr + {l} + r.Owned();
    }

    /** The node with the new leaf, or the larger one that replaces it, is in the tree. */
    method Enlarge(n: Node, r: Node, ref: RefPtr, ghost l: Leaf, ghost s: Slot, ghost sh1: Shape)
      requires this !in Repr && root == sh.root == sh1.root && l.key !in sh.leaves && LeavesOwned(sh.leaves, Repr)
      requires AllApart(sh.view) && AllWithin(sh.view, Repr) && Intact(sh.view, n, n, Repr)
      requires n in sh.view && SlotIn(sh, s) && Points(ref, s, sh.view)
      requires Ok(sh1, keyLen) && SlotIn(sh1, s) && Get(sh1, s) == NodeRef(n) && Changes(sh.view, sh1.view, n, n, n)
      requires sh1.view.Keys == sh.view.Keys && sh1.leaves == sh.leaves[l.key := l]
      requires forall x :: x in sh.view && x != n ==> sh1.view[x] == sh.view[x]
      requires (r == n || r.Outside(Repr)) && Backs(r, sh1.view[n])
      modifies this`root, this`sh, this`Repr, if ref.ChildPtr? then {ref.owner.children} else {}
      ensures Linked() && Repr == old(Repr) + {l} + r.Owned()
      ensures ValuesOf(sh.leaves) == old(ValuesOf(sh.leaves))[l.key := l.value]
    {
      hide HasKids, HasPrefix, Ok, Intact, AllApart, AllWithin, LeavesOwned, ValuesOf, RefOk, Linked, Changes, Renamed,
        Put, Backs, Points, SlotIn;
      ghost var repr0, leaves0 := Repr, sh.leaves;
      Claim(l, r);
      OneMoreLeaf(leaves0, l, repr0, Repr);
      IntactMore(n, n, repr0, Repr);
      if r == n {
        Adopt(sh1, n, repr0);
      } else {
        Replace(n, r, ref, s, sh1, repr0);
      }
    }

    /** Ends recursive_insert where the node has no child for the key's byte. */
    method AddLeaf(n: Node, ref: RefPtr, key: Key, value: Value, depth: nat, ghost s: Slot)
      requires Linked() && |key| == keyLen && key !in sh.leaves
      requires SlotIn(sh, s) && Get(sh, s) == NodeRef(n) && Points(ref, s, sh.view)
      requires n in sh.view && depth == |sh.view[n].branch| < keyLen && sh.view[n].branch <= key
      requires key[depth] !in sh.view[n].kids
      modifies this, Repr
      ensures Linked() && fresh(Repr - old(Repr)) && size == old(size)
      ensures ValuesOf(sh.leaves) == old(ValuesOf(sh.leaves))[key := value]
    {
      hide HasKids, HasPrefix, Ok, Intact, AllApart, AllWithin, LeavesOwned, ValuesOf, RefOk, Linked, Points, Get;
      var l := new Leaf(key, value);
      AddNewLeaf(n, ref, l, key[depth], s);
    }

    method AddNewLeaf(n: Node, ref: RefPtr, l: Leaf, c: Byte, ghost s: Slot)
      requires Linked() && |l.key| == keyLen && l.key !in sh.leaves
      requires SlotIn(sh, s) && Get(sh, s) == NodeRef(n) && Points(ref, s, sh.view)
      requires n in sh.view && sh.view[n].branch < l.key && c == l.key[|sh.view[n].branch|] && c !in sh.view[n].kids
      modifies this, Repr
      ensures Linked() && fresh(Repr - old(Repr) - {l}) && size == old(size)
      ensures ValuesOf(sh.leaves) == old(ValuesOf(sh.leaves))[l.key := l.value]
    {
      hide HasKids, HasPrefix, Ok, Intact, AllApart, AllWithin, LeavesOwned, ValuesOf, RefOk, Filled, Linked, Changes,
        Put, Backs, Points, Apart, Get;
      Open(ref, s);
      OpenNode(n, ref, s);
      ghost var sh1 := Filled(sh, KidSlot(n, c), l);
      FillHere(n, l, s);
      var r := AddKid(n, c, LeafRef(l), ref, s);
      Enlarge(n, r, ref, l, s, sh1);
    }

    /** A node4 for a branching string with two children. */
    static method NewBranch(bytes: seq<Byte>, len: nat, c1: Byte, r1: Ref, c2: Byte, r2: Ref, ghost v: View)
        returns (n': Node)
      requires v.start <= |v.branch| && len == |v.branch| - v.start && |bytes| == Min(MAX_PREFIX_LEN, len)
      requires forall i :: 0 <= i < |bytes| ==> bytes[i] == v.branch[v.start + i]
      requires c1 != c2 && r1 != Null && r2 != Null && v.kids == map[c1 := r1][c2 := r2]
      ensures fresh(n'.Owned()) && Backs(n', v)
    {
      hide HoldsLayout;
      n' := new Node(Node4);
      n'.partialLen := len;
      forall i | 0 <= i < |bytes| {
        n'.partial[i] := bytes[i];
      }
      var same := n'.AddChild4(c1, r1, map[]);
      same := n'.AddChild4(c2, r2, map[c1 := r1]);
      assert v.kids.Keys == {c1, c2};
    }

    /** The first part of the split in recursive_insert: the old node's prefix loses its first `diff`
        bytes and the byte after them, which is returned. The leaf for a long prefix is looked up
        before the header is written; minimum does not read the header. */
    method CutPrefix(n: Node, depth: nat, diff: nat, ghost s: Slot, ghost ref: RefPtr) returns (c: Byte)
      requires Linked() && SlotIn(sh, s) && Get(sh, s) == NodeRef(n) && n in sh.view
      requires depth == sh.view[n].start && diff < n.partialLen
      requires Points(ref, s, sh.view) && (s.KidSlot? ==> s.owner != n && Apart(s.owner, n))
      modifies n, n.partial
      ensures depth + diff < |sh.view[n].branch| && c == sh.view[n].branch[depth + diff]
      ensures Backs(n, sh.view[n].(start := depth + diff + 1))
      ensures Intact(sh.view, n, n, Repr)
      ensures ValuesOf(sh.leaves) == old(ValuesOf(sh.leaves))
      ensures Points(ref, s, sh.view)
    {
      hide Ok, HoldsLayout, RefOk, HasPrefix, HasKids;
      ghost var v := sh.view[n];
      Unlink(n);
      HeaderFacts(n, v);
      if n.partialLen <= MAX_PREFIX_LEN {
        c := CutShort(n, diff, v);
      } else {
        var l := Minimum(NodeRef(n), s);
        LeastUnder(s, n, l);
        c := CutLong(n, depth, diff, l, v);
      }
      forall x | x in sh.view && x != n
        ensures x.Within(Repr) && Backs(x, sh.view[x])
      {
        TwoApart(x, n);
        assert old(x.Within(Repr) && Backs(x, sh.view[x]));
      }
    }

    static lemma HeaderFacts(n: Node, v: View)
      requires HasPrefix(n, v.branch, v.start)
      ensures v.start <= |v.branch| && n.partialLen == |v.branch| - v.start
    {
    }

    /** The whole prefix is stored. */
    static method CutShort(n: Node, diff: nat, ghost v: View) returns (c: Byte)
      requires Backs(n, v) && diff < n.partialLen <= MAX_PREFIX_LEN
      modifies n, n.partial
      ensures v.start + diff < |v.branch| && c == v.branch[v.start + diff]
      ensures Backs(n, v.(start := v.start + diff + 1))
    {
      hide HoldsLayout, HasPrefix;
      HeaderFacts(n, v);
      StoredPrefix(n, v);
      c := n.partial[diff];
      n.partialLen := n.partialLen - (diff + 1);
      forall i | 0 <= i < Min(MAX_PREFIX_LEN, n.partialLen) {
        n.partial[i] := n.partial[i + diff + 1];
      }
      assert n.keys[..] == old(n.keys[..]) && n.children[..] == old(n.children[..]);
      MakePrefix(n, v.branch, v.start + diff + 1);
    }

    /** Only ten bytes of the prefix are stored; the leaf supplies the rest. */
    static method CutLong(n: Node, depth: nat, diff: nat, l: Leaf, ghost v: View) returns (c: Byte)
      requires Backs(n, v) && depth == v.start && diff < n.partialLen && v.branch <= l.key
      modifies n, n.partial
      ensures v.start + diff < |v.branch| && c == v.branch[v.start + diff]
      ensures Backs(n, v.(start := v.start + diff + 1))
    {
      hide HoldsLayout, HasPrefix;
      HeaderFacts(n, v);
      n.partialLen := n.partialLen - (diff + 1);
      c := l.key[depth + diff];
      forall i | 0 <= i < Min(MAX_PREFIX_LEN, n.partialLen) {
        n.partial[i] := l.key[depth + diff + 1 + i];
      }
      assert n.keys[..] == old(n.keys[..]) && n.children[..] == old(n.children[..]);
      MakePrefix(n, v.branch, v.start + diff + 1);
    }

    static lemma MakePrefix(n: Node, branch: Key, start: nat)
      requires n.Allocated() && start <= |branch| && n.partialLen == |branch| - start
      requires forall i {:trigger n.partial[i]} :: 0 <= i < Min(n.partialLen, MAX_PREFIX_LEN) ==>
        n.partial[i] == branch[start + i]
      ensures HasPrefix(n, branch, start)
    {
    }

    lemma LeastUnder(s: Slot, n: Node, l: Leaf)
      requires Ok(sh, keyLen) && SlotIn(sh, s) && Get(sh, s) == NodeRef(n) && n in sh.view && Least(sh, s, l)
      ensures sh.view[n].branch <= l.key
    {
      hide NodeOk, SlotOk, ViewOk, RefOk;
      RefCovers(sh, keyLen, s);
      assert Under(sh.leaves.Keys, sh.view[n].branch, l.key);
    }

    /** How Split changes the views; `a` is the node split off, or the new node when a leaf is. */
    lemma SplitViews(s: Slot, l: Leaf, d: nat, n': Node, a: Node)
      requires SplitsAt(sh, keyLen, s, l.key, d) && n' !in sh.view
      requires a == if Get(sh, s).NodeRef? then Get(sh, s).node else n'
      ensures var sh' := Split(sh, keyLen, s, l, d, n');
        && Ok(sh', keyLen) && sh'.leaves == sh.leaves[l.key := l]
        && sh'.root == (if s == RootSlot then NodeRef(n') else sh.root)
        && Changes(sh.view, sh'.view, a, if s.KidSlot? then s.owner else a, n')
        && n' in sh'.view && sh'.view[n'] == SplitNode(sh, s, l, d)
        && (a != n' ==> a in sh.view && a in sh'.view && sh'.view[a] == sh.view[a].(start := d + 1))
        && (s.KidSlot? ==>
          s.owner != a && s.owner != n' && s.owner in sh'.view
          && sh'.view[s.owner] == Put(sh, s, NodeRef(n')).view[s.owner])
    {
      hide RefOk, ViewOk, NodeOk, SlotOk;
      SplitOk(sh, keyLen, s, l, d, n');
      RefCovers(sh, keyLen, s);
      if a != n' {
        NotOwner(a, s);
        SplitFrame(sh, keyLen, s, l, d, n', a);
      }
      if s.KidSlot? {
        SplitFrame(sh, keyLen, s, l, d, n', s.owner);
      }
    }

    /** longest_common_prefix */
    static method LongestCommonPrefix(l1: Leaf, l2: Leaf, depth: nat) returns (idx: nat)
      requires depth <= |l1.key| == |l2.key| && l1.key[..depth] == l2.key[..depth] && l1.key != l2.key
      ensures depth + idx < |l1.key| && l1.key[..depth + idx] == l2.key[..depth + idx]
      ensures l1.key[depth + idx] != l2.key[depth + idx]
    {
      ghost var k1, k2 := l1.key, l2.key;
      var maxCmp := Min(|l1.key|, |l2.key|) - depth;
      idx := 0;
      while idx < maxCmp
        invariant idx <= maxCmp && l1.key[..depth + idx] == l2.key[..depth + idx]
      {
        if l1.key[depth + idx] != l2.key[depth + idx] {
          return;
        }
        idx := idx + 1;
        assert l1.key[..depth + idx] == l1.key[..depth + idx - 1] + [l1.key[depth + idx - 1]];
        assert l2.key[..depth + idx] == l2.key[..depth + idx - 1] + [l2.key[depth + idx - 1]];
      }
      WholePrefix(k1, k2);
    }

    static lemma WholePrefix(a: Key, b: Key)
      requires |a| == |b| && a[..|a|] == b[..|a|]
      ensures a == b
    {
      assert a == a[..|a|] && b == b[..|a|];
    }

    /** `*ref = n'`: the new node holds the new leaf and what `ref` pointed to, its prefix cut if it
        is node `a`. */
    method Graft(ref: RefPtr, l: Leaf, ghost d: nat, n': Node, ghost a: Node?, ghost s: Slot)
      requires this !in Repr && root == sh.root && Points(ref, s, sh.view)
      requires SplitsAt(sh, keyLen, s, l.key, d) && l.key !in sh.leaves
      requires LeavesOwned(sh.leaves, Repr) && AllApart(sh.view) && AllWithin(sh.view, Repr)
        && Intact(sh.view, a, a, Repr)
      requires a == if Get(sh, s).NodeRef? then Get(sh, s).node else null
      requires a != null ==> a in sh.view && Backs(a, sh.view[a].(start := d + 1))
      requires n'.Outside(Repr) && Backs(n', SplitNode(sh, s, l, d))
      modifies this`root, this`sh, this`Repr, if ref.ChildPtr? then {ref.owner.children} else {}
      ensures Linked() && Repr == old(Repr) + {l} + n'.Owned()
      ensures ValuesOf(sh.leaves) == old(ValuesOf(sh.leaves))[l.key := l.value]
    {
      hide HasKids, HasPrefix, Ok, Intact, AllApart, LeavesOwned, ValuesOf, RefOk, Linked, Changes, Put, Backs, Split,
        SplitsAt, SplitNode;
      ghost var repr0, leaves0 := Repr, sh.leaves;
      ghost var a' := if a == null then n' else a;
      PointsTo(ref, s);
      NewApart(n', repr0);
      SplitViews(s, l, d, n', a');
      Claim(l, n');
      OneMoreLeaf(leaves0, l, repr0, Repr);
      IntactMore(a, a', repr0, Repr);
      if s.KidSlot? {
        WithinApart(s.owner, n', repr0);
        if a != null {
          TwoApart(s.owner, a);
        }
      }
      Store(ref, NodeRef(n'), s, Split(sh, keyLen, s, l, d, n'), a', n', repr0);
    }

    /** recursive_insert at another key's leaf: both leaves go under a new node. */
    method SplitLeaf(l: Leaf, ref: RefPtr, key: Key, value: Value, depth: nat, ghost s: Slot)
      requires Linked() && |key| == keyLen && key !in sh.leaves
      requires SlotIn(sh, s) && Get(sh, s) == LeafRef(l) && Points(ref, s, sh.view)
      requires depth == |Position(sh, s)| && Position(sh, s) <= key
      modifies this, Repr
      ensures Linked() && fresh(Repr - old(Repr)) && size == old(size)
      ensures ValuesOf(sh.leaves) == old(ValuesOf(sh.leaves))[key := value]
    {
      hide HasKids, HasPrefix, Ok, Intact, AllApart, AllWithin, LeavesOwned, ValuesOf, RefOk, Linked, Changes, Put,
        Backs, Split, SplitsAt, SplitNode, Diverges, Points;
      Open(ref, s);
      var l2 := new Leaf(key, value);
      LeafHere(l, s, key);
      var longest := LongestCommonPrefix(l, l2, depth);
      var d := depth + longest;
      SplitHere(l, s, l2, d);
      var n' := BranchLeaves(l, l2, depth, longest, SplitNode(sh, s, l2, d));
      Graft(ref, l2, d, n', null, s);
    }

    lemma LeafHere(l: Leaf, s: Slot, key: Key)
      requires Linked() && SlotIn(sh, s) && Get(sh, s) == LeafRef(l) && key !in sh.leaves
      requires |key| == keyLen && Position(sh, s) <= key
      ensures l.key in sh.leaves && |l.key| == keyLen && Position(sh, s) <= l.key && l.key != key
      ensures Ok(sh, keyLen)
    {
      hide Intact, AllApart, LeavesOwned;
      assert SlotOk(sh, s);
    }

    /** The new node of this split. */
    static method BranchLeaves(l: Leaf, l2: Leaf, depth: nat, longest: nat, ghost v: View) returns (n': Node)
      requires depth + longest < |l.key| == |l2.key| && l.key[depth + longest] != l2.key[depth + longest]
      requires v == View(l2.key[..depth + longest], depth,
        map[l.key[depth + longest] := LeafRef(l), l2.key[depth + longest] := LeafRef(l2)])
      ensures fresh(n'.Owned()) && Backs(n', v)
    {
      hide Backs;
      var d := depth + longest;
      n' := NewBranch(l2.key[depth..depth + Min(MAX_PREFIX_LEN, longest)], longest, l.key[d], LeafRef(l), l2.key[d],
        LeafRef(l2), v);
    }

    lemma SplitHere(l: Leaf, s: Slot, l2: Leaf, d: nat)
      requires Ok(sh, keyLen) && SlotIn(sh, s) && Get(sh, s) == LeafRef(l) && l2.key !in sh.leaves
      requires |l2.key| == keyLen == |l.key| && Position(sh, s) <= l2.key && l.key != l2.key
      requires |Position(sh, s)| <= d < keyLen && l.key[..d] == l2.key[..d] && l.key[d] != l2.key[d]
      ensures SplitsAt(sh, keyLen, s, l2.key, d) && SplitNode(sh, s, l2, d)
        == View(l2.key[..d], |Position(sh, s)|, map[l.key[d] := LeafRef(l), l2.key[d] := LeafRef(l2)])
    {
      hide Ok;
    }

    /** recursive_insert inside a node's prefix. */
    method SplitInner(n: Node, ref: RefPtr, key: Key, value: Value, depth: nat, diff: nat, ghost s: Slot)
      requires Linked() && |key| == keyLen && key !in sh.leaves
      requires SlotIn(sh, s) && Get(sh, s) == NodeRef(n) && n in sh.view && Points(ref, s, sh.view)
      requires depth == |Position(sh, s)| && Position(sh, s) <= key && depth == sh.view[n].start
        && depth + diff < keyLen
      requires diff < n.partialLen && n.partialLen == |sh.view[n].branch| - depth
      requires key[..depth + diff] <= sh.view[n].branch && sh.view[n].branch[depth + diff] != key[depth + diff]
      modifies this, Repr
      ensures Linked() && fresh(Repr - old(Repr)) && size == old(size)
      ensures ValuesOf(sh.leaves) == old(ValuesOf(sh.leaves))[key := value]
    {
      hide HasKids, HasPrefix, Ok, Intact, AllApart, AllWithin, LeavesOwned, ValuesOf, RefOk, Linked, Changes, Put,
        Split, SplitsAt, Diverges, Backs, Apart, Points;
      ghost var v := sh.view[n];
      Open(ref, s);
      OpenNode(n, ref, s);
      HeaderOf(n, v);
      SplitNodeHere(n, s, key, depth + diff);
      var bytes := PrefixBytes(n, diff, v);
      var c := CutPrefix(n, depth, diff, s, ref);
      BranchAbove(n, ref, key, value, bytes, depth, diff, c, s);
    }

    /** The rest of this split: a new node above the old one and the new leaf. */
    method BranchAbove(n: Node, ref: RefPtr, key: Key, value: Value, bytes: seq<Byte>, depth: nat, diff: nat, c: Byte,
        ghost s: Slot)
      requires this !in Repr && root == sh.root && Points(ref, s, sh.view) && key !in sh.leaves
      requires LeavesOwned(sh.leaves, Repr) && AllApart(sh.view) && AllWithin(sh.view, Repr)
        && Intact(sh.view, n, n, Repr)
      requires SlotIn(sh, s) && Get(sh, s) == NodeRef(n) && n in sh.view && |key| == keyLen && depth + diff < keyLen
      requires SplitsAt(sh, keyLen, s, key, depth + diff)
      requires depth == |Position(sh, s)| && Backs(n, sh.view[n].(start := depth + diff + 1))
      requires depth + diff < |sh.view[n].branch| && c == sh.view[n].branch[depth + diff]
      requires |bytes| == Min(MAX_PREFIX_LEN, diff) && forall i :: 0 <= i < |bytes| ==> bytes[i] == key[depth + i]
      modifies this`root, this`sh, this`Repr, if ref.ChildPtr? then {ref.owner.children} else {}
      ensures Linked() && fresh(Repr - old(Repr))
      ensures ValuesOf(sh.leaves) == old(ValuesOf(sh.leaves))[key := value]
    {
      hide HasKids, HasPrefix, Ok, Intact, AllApart, AllWithin, LeavesOwned, ValuesOf, RefOk, Linked, Changes, Put,
        Split, Diverges, Backs, Points;
      var d := depth + diff;
      var l := new Leaf(key, value);
      var n' := NewBranch(bytes, diff, c, NodeRef(n), key[d], LeafRef(l), SplitNode(sh, s, l, d));
      Graft(ref, l, d, n', n, s);
    }

    static lemma HeaderOf(n: Node, v: View)
      requires Backs(n, v)
      ensures HasPrefix(n, v.branch, v.start)
    {
    }

    lemma SplitNodeHere(n: Node, s: Slot, key: Key, d: nat)
      requires Ok(sh, keyLen) && SlotIn(sh, s) && Get(sh, s) == NodeRef(n) && n in sh.view && key !in sh.leaves
      requires |key| == keyLen && Position(sh, s) <= key
      requires |Position(sh, s)| <= d < keyLen && d < |sh.view[n].branch|
      requires key[..d] <= sh.view[n].branch && sh.view[n].branch[d] != key[d]
      ensures SplitsAt(sh, keyLen, s, key, d)
    {
      hide Ok;
    }

    /** The stored prefix bytes that the new node takes over. */
    static method PrefixBytes(n: Node, len: nat, ghost v: View) returns (bytes: seq<Byte>)
      requires HasPrefix(n, v.branch, v.start) && len <= n.partialLen
      ensures |bytes| == Min(MAX_PREFIX_LEN, len)
      ensures forall i :: 0 <= i < |bytes| ==> bytes[i] == v.branch[v.start + i]
    {
      StoredPrefix(n, v);
      bytes := n.partial[..Min(MAX_PREFIX_LEN, len)];
    }

    /** recursive_insert; `found` is its `*old`. */
    method RecursiveInsert(n: Ref, ref: RefPtr, key: Key, value: Value, depth: nat, replace: bool, ghost s: Slot)
      returns (old_: Value, found: bool)
      requires Linked() && |key| == keyLen
      requires SlotIn(sh, s) && Get(sh, s) == n && Points(ref, s, sh.view)
      requires depth == |Position(sh, s)| && Position(sh, s) <= key
      requires n == Null ==> ref == RootPtr
      modifies this, Repr
      ensures Linked() && fresh(Repr - old(Repr)) && size == old(size)
      ensures found == (key in old(sh.leaves))
      ensures old_ == if found then old(ValuesOf(sh.leaves))[key] else 0
      ensures ValuesOf(sh.leaves) == if found && !replace then old(ValuesOf(sh.leaves))
        else old(ValuesOf(sh.leaves))[key := value]
      decreases keyLen - depth, 1
    {
      hide Ok, Intact, AllApart, LeavesOwned, RefOk, HoldsLayout, Stores, Linked, ValuesOf;
      if n == Null {
        FirstLeaf(key, value);
        return 0, false;
      }
      if n.LeafRef? {
        old_, found := InsertAtLeaf(n.leaf, ref, key, value, depth, replace, s);
        return;
      }
      var x, d := n.node, depth;
      Unlink(x);
      StepDown(sh, keyLen, s, key);
      if x.partialLen != 0 {
        var prefixDiff := PrefixMismatch(x, key, depth, s);
        if prefixDiff < x.partialLen {
          SplitInner(x, ref, key, value, depth, prefixDiff, s);
          return 0, false;
        }
        d := depth + x.partialLen;
      }
      old_, found := InsertBelow(x, ref, key, value, d, replace, s);
    }

    /** recursive_insert once the prefix has passed. */
    method InsertBelow(x: Node, ref: RefPtr, key: Key, value: Value, d: nat, replace: bool, ghost s: Slot)
      returns (old_: Value, found: bool)
      requires Linked() && |key| == keyLen
      requires SlotIn(sh, s) && Get(sh, s) == NodeRef(x) && x in sh.view && Points(ref, s, sh.view)
      requires d == |sh.view[x].branch| < keyLen && |Position(sh, s)| <= d && sh.view[x].branch <= key
      modifies this, Repr
      ensures Linked() && fresh(Repr - old(Repr)) && size == old(size)
      ensures found == (key in old(sh.leaves))
      ensures old_ == if found then old(ValuesOf(sh.leaves))[key] else 0
      ensures ValuesOf(sh.leaves) == if found && !replace then old(ValuesOf(sh.leaves))
        else old(ValuesOf(sh.leaves))[key := value]
      decreases keyLen - |Position(sh, s)|, 0
    {
      hide Ok, Intact, AllApart, LeavesOwned, RefOk, HoldsLayout, Stores, Linked, ValuesOf;
      Unlink(x);
      KidOf(x, key);
      var child := x.FindChild(key[d], sh.view[x].kids);
      if child.Some? {
        old_, found := RecursiveInsert(x.children[child.value], ChildPtr(x, child.value), key, value, d + 1, replace,
          KidSlot(x, key[d]));
      } else {
        AddLeaf(x, ref, key, value, d, s);
        return 0, false;
      }
    }

    /** The child for the key's byte is there, or the key is not. */
    lemma KidOf(n: Node, key: Key)
      requires Ok(sh, keyLen) && n in sh.view && sh.view[n].branch < key
      ensures var c := key[|sh.view[n].branch|];
        if c in sh.view[n].kids then sh.view[n].kids[c] != Null else key !in sh.leaves
    {
      hide RefOk;
      var b := sh.view[n].branch;
      var c := key[|b|];
      assert NodeOk(sh, n);
      if c !in sh.view[n].kids {
        NothingUnder(sh, keyLen, KidSlot(n, c), key);
        assert key in sh.leaves ==> Under(sh.leaves.Keys, b + [c], key);
      }
    }

    /** A first leaf becomes the root. */
    method FirstLeaf(key: Key, value: Value)
      requires Linked() && |key| == keyLen && sh.root == Null
      modifies this
      ensures Linked() && fresh(Repr - old(Repr)) && size == old(size)
      ensures key !in old(sh.leaves)
      ensures ValuesOf(sh.leaves) == old(ValuesOf(sh.leaves))[key := value]
    {
      hide Ok, HasKids, HasPrefix, RefOk, ValuesOf;
      ghost var repr0, leaves0, view0 := Repr, sh.leaves, sh.view;
      NoKeys(key);
      var l := new Leaf(key, value);
      root := LeafRef(l);
      FilledOk(sh, keyLen, RootSlot, l);
      sh := Filled(sh, RootSlot, l);
      Repr := Repr + {l};
      OneMoreLeaf(leaves0, l, repr0, Repr);
      forall x | x in view0
        ensures x.Within(Repr) && Backs(x, view0[x])
      {
        assert x.Within(repr0);
      }
    }

    lemma NoKeys(key: Key)
      requires Ok(sh, keyLen) && sh.root == Null
      ensures key !in sh.leaves
    {
      hide Ok;
      NothingUnder(sh, keyLen, RootSlot, key);
      assert key in sh.leaves ==> Under(sh.leaves.Keys, [], key);
    }

    method InsertAtLeaf(l: Leaf, ref: RefPtr, key: Key, value: Value, depth: nat, replace: bool, ghost s: Slot)
      returns (old_: Value, found: bool)
      requires Linked() && |key| == keyLen
      requires SlotIn(sh, s) && Get(sh, s) == LeafRef(l) && Points(ref, s, sh.view)
      requires depth == |Position(sh, s)| && Position(sh, s) <= key
      modifies this, Repr
      ensures Linked() && fresh(Repr - old(Repr)) && size == old(size)
      ensures found == (key in old(sh.leaves))
      ensures old_ == if found then old(ValuesOf(sh.leaves))[key] else 0
      ensures ValuesOf(sh.leaves) == if found && !replace then old(ValuesOf(sh.leaves))
        else old(ValuesOf(sh.leaves))[key := value]
    {
      hide Ok, Intact, AllApart, LeavesOwned, RefOk, HasKids, HasPrefix, Linked;
      Unlink3(key);
      WalkEnds(sh, keyLen, s, key);
      if l.key == key {
        old_, found := l.value, true;
        if replace {
          Overwrite(l, value);
        }
      } else {
        SplitLeaf(l, ref, key, value, depth, s);
        old_, found := 0, false;
      }
    }

    lemma Unlink3(k: Key)
      requires Linked()
      ensures Ok(sh, keyLen)
      ensures k in sh.leaves ==> sh.leaves[k] in Repr && sh.leaves[k].key == k
    {
      hide Ok, HasKids, HasPrefix;
    }

    method Overwrite(l: Leaf, value: Value)
      requires Linked() && l.key in sh.leaves && sh.leaves[l.key] == l
      modifies l
      ensures Linked() && l.value == value
      ensures ValuesOf(sh.leaves) == old(ValuesOf(sh.leaves))[l.key := value]
    {
      hide Ok, HasKids, HasPrefix;
      l.value := value;
      forall x | x in sh.view
        ensures x.Within(Repr) && Backs(x, sh.view[x])
      {
        assert old(x.Within(Repr) && Backs(x, sh.view[x]));
      }
    }

    /** art_insert: the old value, or null when the key is new. */
    method Insert(key: Key, value: Value) returns (old_: Value)
      requires Valid() && |key| == keyLen
      modifies this, Repr
      ensures Valid() && fresh(Repr - old(Repr))
      ensures old_ == if key in old(Contents()) then old(Contents())[key] else 0
      ensures Contents() == old(Contents())[key := value]
    {
      old_ := InsertCounted(key, value, true);
    }

    /** art_insert_no_replace */
    method InsertNoReplace(key: Key, value: Value) returns (old_: Value)
      requires Valid() && |key| == keyLen
      modifies this, Repr
      ensures Valid() && fresh(Repr - old(Repr))
      ensures old_ == if key in old(Contents()) then old(Contents())[key] else 0
      ensures Contents() == if key in old(Contents()) then old(Contents()) else old(Contents())[key := value]
    {
      old_ := InsertCounted(key, value, false);
    }

    /** The body that art_insert and art_insert_no_replace share. */
    method InsertCounted(key: Key, value: Value, replace: bool) returns (old_: Value)
      requires Valid() && |key| == keyLen
      modifies this, Repr
      ensures Valid() && fresh(Repr - old(Repr))
      ensures old_ == if key in old(Contents()) then old(Contents())[key] else 0
      ensures Contents() == if key in old(Contents()) && !replace then old(Contents())
        else old(Contents())[key := value]
    {
      hide Ok, Intact, AllApart, LeavesOwned, HasKids, HasPrefix, ValuesOf;
      ghost var before := sh.leaves;
      var found;
      old_, found := RecursiveInsert(root, RootPtr, key, value, 0, replace, RootSlot);
      KeysOf(before);
      KeysOf(sh.leaves);
      assert |before| == |before.Keys| && |sh.leaves| == |sh.leaves.Keys|;
      if !found {
        size := size + 1;
      }
    }

    lemma KeysOf(leaves: map<Key, Leaf>)
      ensures ValuesOf(leaves).Keys == leaves.Keys
    {
    }

    // ---------- removal ----------

    method DropKid(n: Node, index: nat, c: Byte, ghost ref: RefPtr, ghost s: Slot) returns (r: Node)
      requires n in sh.view && c in sh.view[n].kids && n.At(index, c)
      requires AllApart(sh.view) && Intact(sh.view, null, null, Repr)
      requires Points(ref, s, sh.view) && (s.KidSlot? ==> s.owner != n && Apart(s.owner, n))
      modifies n, n.keys, n.children
      ensures r.Holds(sh.view[n].kids - {c})
      ensures |sh.view[n].kids| > 2 ==> Sized(r.kind, |sh.view[n].kids| - 1)
      ensures HasPrefix(r, sh.view[n].branch, sh.view[n].start)
      ensures r == n || fresh(r.Owned())
      ensures |sh.view[n].kids| <= 2 ==> n.kind == Node4 && r == n
      ensures Intact(sh.view, n, n, Repr)
      ensures ValuesOf(sh.leaves) == old(ValuesOf(sh.leaves))
      ensures Points(ref, s, sh.view)
    {
      hide HoldsLayout, Stores, AllApart;
      ghost var v := sh.view[n];
      assert n.Within(Repr) && Backs(n, v);
      ghost var bytes := n.partial[..];
      r := n.RemoveChild(index, c, v.kids);
      HeaderKept(r, v, bytes);
      forall x | x in sh.view && x != n
        ensures x.Within(Repr) && Backs(x, sh.view[x])
      {
        TwoApart(x, n);
        assert old(x.Within(Repr) && Backs(x, sh.view[x]));
      }
    }

    /** remove_child4: the prefix of a node with one child left and the branching byte go in front of
        the child's prefix, as far as ten bytes hold them. */
    static method JoinPrefix(n: Node, m: Node, ghost v: View, ghost w: View)
      requires n != m && Apart(n, m) && HasPrefix(n, v.branch, v.start) && n.keys.Length > 0
      requires v.branch + [n.keys[0]] <= w.branch && w.start == |v.branch| + 1 && Backs(m, w)
      modifies n.partial, m, m.partial
      ensures Backs(m, w.(start := v.start))
    {
      hide HoldsLayout;
      assert forall i :: 0 <= i < |v.branch| ==> v.branch[i] == (v.branch + [n.keys[0]])[i] == w.branch[i];
      assert (v.branch + [n.keys[0]])[|v.branch|] == w.branch[|v.branch|];
      ghost var ks, cs := m.keys[..], m.children[..];
      JoinBytes(n, m, v, w.branch);
      m.partialLen := m.partialLen + n.partialLen + 1;
      assert m.keys[..] == ks && m.children[..] == cs;
      MakePrefix(m, w.branch, v.start);
    }

    static method JoinBytes(n: Node, m: Node, ghost v: View, ghost branch: Key)
      requires n != m && Apart(n, m) && HasPrefix(n, v.branch, v.start) && n.keys.Length > 0
      requires |v.branch| < |branch| && HasPrefix(m, branch, |v.branch| + 1)
      requires forall i :: 0 <= i < |v.branch| ==> v.branch[i] == branch[i]
      requires n.keys[0] == branch[|v.branch|]
      modifies n.partial, m.partial
      ensures forall i {:trigger m.partial[i]} :: 0 <= i < MAX_PREFIX_LEN && v.start + i < |branch| ==>
        m.partial[i] == branch[v.start + i]
    {
      StoredPrefix(n, v);
      StoredPrefix(m, View(branch, |v.branch| + 1, map[]));
      var prefix := n.partialLen;
      if prefix < MAX_PREFIX_LEN {
        n.partial[prefix] := n.keys[0];
        prefix := prefix + 1;
      }
      if prefix < MAX_PREFIX_LEN {
        var subPrefix := Min(m.partialLen, MAX_PREFIX_LEN - prefix);
        forall i | 0 <= i < subPrefix {
          n.partial[prefix + i] := m.partial[i];
        }
        prefix := prefix + subPrefix;
      }
      assert forall i {:trigger n.partial[i]} :: 0 <= i < Min(prefix, MAX_PREFIX_LEN) ==>
        n.partial[i] == branch[v.start + i];
      forall i | 0 <= i < Min(prefix, MAX_PREFIX_LEN) {
        m.partial[i] := n.partial[i];
      }
    }

    /** The leaf under byte `c` of `n` is removed: the end of recursive_delete. */
    method RemoveLeaf(n: Node, ref: RefPtr, index: nat, c: Byte, ghost l: Leaf, ghost s: Slot)
      requires Linked() && SlotIn(sh, s) && Get(sh, s) == NodeRef(n) && n in sh.view && Points(ref, s, sh.view)
      requires c in sh.view[n].kids && sh.view[n].kids[c] == LeafRef(l) && n.At(index, c)
      modifies this, Repr
      ensures Linked() && fresh(Repr - old(Repr)) && size == old(size)
      ensures ValuesOf(sh.leaves) == old(ValuesOf(sh.leaves)) - {l.key}
      ensures l.value == old(l.value)
    {
      hide HasKids, HasPrefix, Ok, Intact, AllApart, AllWithin, LeavesOwned, ValuesOf, RefOk, Linked, Changes, Renamed,
        Put, Dropped, HoldsLayout, Points, Apart;
      ghost var repr0, leaves0, kids := Repr, sh.leaves, sh.view[n].kids;
      Open(ref, s);
      OpenNode(n, ref, s);
      ghost var c1, c2 := TwoKids(sh, keyLen, n);
      var r := DropKid(n, index, c, ref, s);
      OneLessLeaf(leaves0, l.key, repr0, repr0);
      CountOf(r, kids, c);
      if r.kind == Node4 && r.numChildren == 1 {
        Collapse(n, ref, c, l, s);
      } else {
        KidsDropped(r, kids, c);
        Shrink(n, r, ref, c, l, s);
      }
    }

    /** The node without the child, or the smaller one that replaces it, stays in the tree. */
    method Shrink(n: Node, r: Node, ref: RefPtr, ghost c: Byte, ghost l: Leaf, ghost s: Slot)
      requires this !in Repr && root == sh.root && Ok(sh, keyLen) && LeavesOwned(sh.leaves - {l.key}, Repr)
      requires AllApart(sh.view) && AllWithin(sh.view, Repr) && Intact(sh.view, n, n, Repr)
      requires SlotIn(sh, s) && Get(sh, s) == NodeRef(n) && n in sh.view && Points(ref, s, sh.view)
      requires c in sh.view[n].kids && sh.view[n].kids[c] == LeafRef(l) && |sh.view[n].kids| > 2
      requires (r == n || r.Outside(Repr)) && Backs(r, sh.view[n].(kids := sh.view[n].kids - {c}))
      modifies this`root, this`sh, this`Repr, if ref.ChildPtr? then {ref.owner.children} else {}
      ensures Linked() && sh.leaves == old(sh.leaves) - {l.key}
      ensures ValuesOf(sh.leaves) == old(ValuesOf(sh.leaves - {l.key}))
      ensures Repr == old(Repr) + r.Owned()
    {
      hide HasKids, HasPrefix, Ok, Intact, AllApart, AllWithin, LeavesOwned, ValuesOf, RefOk, Linked, Changes, Renamed,
        Put, Backs, Dropped, Points;
      ghost var repr0 := Repr;
      DropHere(n, c, l, s);
      ClaimNode(r);
      OwnedMore(sh.leaves - {l.key}, repr0, Repr);
      IntactMore(n, n, repr0, Repr);
      if r == n {
        Adopt(Dropped(sh, KidSlot(n, c)), n, repr0);
      } else {
        Replace(n, r, ref, s, Dropped(sh, KidSlot(n, c)), repr0);
      }
    }

    lemma OwnedMore(leaves: map<Key, Leaf>, repr0: set<object>, repr: set<object>)
      requires LeavesOwned(leaves, repr0) && repr0 <= repr
      ensures LeavesOwned(leaves, repr)
    {
    }

    static lemma CountOf(r: Node, kids: map<Byte, Ref>, c: Byte)
      requires r.Holds(kids - {c}) && c in kids
      ensures |kids - {c}| == |kids| - 1
      ensures r.kind == Node4 ==> r.numChildren == |kids| - 1
    {
      assert (kids - {c}).Keys == kids.Keys - {c};
      assert |(kids - {c}).Keys| == |kids.Keys| - 1;
    }

    static lemma KidsDropped(r: Node, kids: map<Byte, Ref>, c: Byte)
      requires r.Holds(kids - {c}) && c in kids && |kids - {c}| == |kids| - 1 && Sized(r.kind, |kids| - 1)
      ensures HasKids(r, kids - {c})
    {
      hide HoldsLayout;
    }

    lemma OneLessLeaf(leaves: map<Key, Leaf>, k: Key, repr0: set<object>, repr: set<object>)
      requires LeavesOwned(leaves, repr0) && repr0 <= repr
      ensures ValuesOf(leaves - {k}) == ValuesOf(leaves) - {k}
      ensures LeavesOwned(leaves - {k}, repr)
    {
    }

    ghost method ClaimNode(r: Node)
      modifies this`Repr
      ensures Repr == old(Repr) + r.Owned() && r.Within(Repr)
    {
      Repr := Repr + r.Owned();
    }

    lemma DropHere(n: Node, c: Byte, l: Leaf, s: Slot)
      requires Ok(sh, keyLen) && SlotIn(sh, s) && Get(sh, s) == NodeRef(n) && n in sh.view
      requires c in sh.view[n].kids && sh.view[n].kids[c] == LeafRef(l) && |sh.view[n].kids| > 2
      ensures var sh1 := Dropped(sh, KidSlot(n, c));
        && Ok(sh1, keyLen)
        && SlotIn(sh1, s) && Get(sh1, s) == NodeRef(n)
        && sh1.view.Keys == sh.view.Keys && sh1.root == sh.root && sh1.leaves == sh.leaves - {l.key}
        && sh1.view[n] == sh.view[n].(kids := sh.view[n].kids - {c})
        && (forall x :: x in sh.view && x != n ==> sh1.view[x] == sh.view[x])
        && Changes(sh.view, sh1.view, n, n, n)
    {
      hide RefOk, ViewOk, NodeOk, SlotOk;
      var rest := sh.view[n].kids.Keys - {c};
      assert |rest| == |sh.view[n].kids.Keys| - 1;
      var c1 :| c1 in rest;
      var rest2 := rest - {c1};
      assert |rest2| == |rest| - 1;
      var c2 :| c2 in rest2;
      assert KeepsTwo(sh, n, c, c1, c2);
      DroppedOk(sh, keyLen, KidSlot(n, c));
      NotOwner(n, s);
    }

    /** remove_child4 when one child is left: it takes the place of the node. */
    method Collapse(n: Node, ref: RefPtr, ghost c: Byte, ghost l: Leaf, ghost s: Slot)
      requires this !in Repr && root == sh.root && Ok(sh, keyLen) && LeavesOwned(sh.leaves - {l.key}, Repr)
      requires AllApart(sh.view) && AllWithin(sh.view, Repr) && Intact(sh.view, n, n, Repr)
      requires SlotIn(sh, s) && Get(sh, s) == NodeRef(n) && n in sh.view && Points(ref, s, sh.view)
      requires c in sh.view[n].kids && sh.view[n].kids[c] == LeafRef(l) && |sh.view[n].kids| == 2
      requires n.kind == Node4 && n.Holds(sh.view[n].kids - {c}) && HasPrefix(n, sh.view[n].branch, sh.view[n].start)
      modifies this`root, this`sh, Repr
      ensures Linked()
      ensures ValuesOf(sh.leaves) == old(ValuesOf(sh.leaves - {l.key}))
      ensures l.value == old(l.value)
    {
      hide HasKids, HasPrefix, Ok, Intact, AllApart, AllWithin, LeavesOwned, ValuesOf, RefOk, Linked, Changes, Put,
        Backs, Collapsed, HoldsLayout;
      ghost var c' := OnlyKid(n, c, sh.view[n].kids);
      var child := n.children[0];
      CollapseHere(s, n, c, c');
      ghost var sh', a := Collapsed(sh, keyLen, s, n, c, c'), if child.NodeRef? then child.node else n;
      ghost var leaves := sh.leaves - {l.key};
      Surroundings(n, a, ref, s);
      if child.NodeRef? {
        JoinKid(n, child.node, c', ref, s, leaves);
      }
      Lift(n, child, ref, s, sh', a);
    }

    /** The nodes around the one that goes. */
    lemma Surroundings(n: Node, a: Node, ref: RefPtr, s: Slot)
      requires AllApart(sh.view) && AllWithin(sh.view, Repr) && n in sh.view && a in sh.view
      requires SlotIn(sh, s) && Points(ref, s, sh.view)
      ensures n.Within(Repr) && a.Within(Repr)
      ensures ref.ChildPtr? <==> s.KidSlot?
      ensures ref.ChildPtr? ==> ref.owner == s.owner
      ensures s.KidSlot? ==> s.owner.Within(Repr) && Apart(s.owner, n) && Apart(s.owner, a)
    {
      hide Points, Apart, AllApart, AllWithin;
      PointsTo(ref, s);
      WithinAt(n);
      WithinAt(a);
      if s.KidSlot? {
        WithinAt(s.owner);
        TwoApart(s.owner, n);
        TwoApart(s.owner, a);
      }
    }

    /** `*ref = r`, where `r` is the only child of `n`, which goes. */
    method Lift(n: Node, r: Ref, ref: RefPtr, ghost s: Slot, ghost sh': Shape, ghost a: Node)
      requires this !in Repr && AllApart(sh.view) && AllWithin(sh.view, Repr) && Intact(sh.view, n, a, Repr)
      requires n in sh.view && a in sh.view && SlotIn(sh, s) && Points(ref, s, sh.view) && r != Null
      requires Ok(sh', keyLen) && LeavesOwned(sh'.leaves, Repr) && BacksIn(sh'.view, a, Repr)
      requires Changes(sh.view - {n}, sh'.view, a, if s.KidSlot? then s.owner else a, a)
      requires sh'.root == (if s == RootSlot then r else root) && (a in sh'.view ==> a != n)
      requires s.KidSlot? ==>
        && s.owner != n && s.owner != a && s.owner in sh'.view
        && sh'.view[s.owner] == Put(sh.(view := sh.view - {n}), s, r).view[s.owner]
      modifies this`root, this`sh, if ref.ChildPtr? then {ref.owner.children} else {}
      ensures Linked() && ValuesOf(sh.leaves) == old(ValuesOf(sh'.leaves))
    {
      hide HasKids, HasPrefix, Ok, Intact, AllApart, AllWithin, LeavesOwned, ValuesOf, RefOk, Linked, Changes, Put,
        Backs, BacksIn;
      Surroundings(n, a, ref, s);
      ForgetNode(n, a);
      sh := sh.(view := sh.view - {n});
      Store(ref, r, s, sh', a, a, Repr);
    }

    /** The child that is left comes first. */
    static lemma OnlyKid(n: Node, c: Byte, kids: map<Byte, Ref>) returns (c': Byte)
      requires n.kind == Node4 && n.Holds(kids - {c}) && c in kids && |kids| == 2
      ensures kids.Keys == {c, c'} && c != c'
      ensures n.keys.Length > 0 && n.children.Length > 0 && n.keys[0] == c' && n.children[0] == kids[c']
    {
      CountOf(n, kids, c);
      FirstSorted(n.keys[..], n.children[..], n.numChildren, kids - {c});
      c' := n.keys[0];
      var rest := kids.Keys - {c};
      assert |rest| == 1 && c' in rest;
      assert |rest - {c'}| == 0;
      assert kids.Keys == {c, c'};
    }

    /** What Collapsed changes, apart from the node that goes. */
    lemma CollapseHere(s: Slot, n: Node, c: Byte, c': Byte)
      requires Collapses(sh, keyLen, s, n, c, c')
      ensures var sh', r := Collapsed(sh, keyLen, s, n, c, c'), sh.view[n].kids[c'];
        var a := if r.NodeRef? then r.node else n;
        && Ok(sh', keyLen) && sh'.leaves == sh.leaves - {sh.view[n].kids[c].leaf.key} && r != Null
        && sh'.root == (if s == RootSlot then r else sh.root)
        && Changes(sh.view - {n}, sh'.view, a, if s.KidSlot? then s.owner else a, a)
        && n !in sh'.view && (s.KidSlot? ==> s.owner != n && s.owner != a)
        && (r.NodeRef? ==> a != n && a in sh.view && a in sh'.view)
        && (r.NodeRef? ==> sh'.view[a] == sh.view[a].(start := sh.view[n].start))
        && (r.NodeRef? ==> sh.view[a].start == |sh.view[n].branch| + 1 && sh.view[n].branch + [c'] <= sh.view[a].branch)
        && (s.KidSlot? ==>
          s.owner in sh'.view && sh'.view[s.owner] == Put(sh.(view := sh.view - {n}), s, r).view[s.owner])
    {
      hide ViewOk, NodeOk;
      CollapsedOk(sh, keyLen, s, n, c, c');
      NotOwner(n, s);
      var r := sh.view[n].kids[c'];
      RefCovers(sh, keyLen, s);
      BranchShort(sh, keyLen, n);
      assert Get(sh, KidSlot(n, c')) == r;
      assert SlotOk(sh, KidSlot(n, c'));
      KidNotNull(n, c');
      if r.NodeRef? {
        CollapsedFrame(sh, keyLen, s, n, c, c', r.node);
        if s.KidSlot? {
          BranchShort(sh, keyLen, s.owner);
        }
      }
      if s.KidSlot? {
        CollapsedFrame(sh, keyLen, s, n, c, c', s.owner);
      }
    }

    lemma WithinAt(x: Node)
      requires AllWithin(sh.view, Repr) && x in sh.view
      ensures x.Within(Repr)
    {
    }

    lemma KidNotNull(n: Node, c: Byte)
      requires Ok(sh, keyLen) && n in sh.view && c in sh.view[n].kids
      ensures sh.view[n].kids[c] != Null
    {
      assert NodeOk(sh, n);
    }

    lemma ForgetNode(n: Node, a: Node)
      requires Intact(sh.view, n, a, Repr) && AllApart(sh.view) && AllWithin(sh.view, Repr)
      ensures Intact(sh.view - {n}, a, a, Repr) && AllApart(sh.view - {n}) && AllWithin(sh.view - {n}, Repr)
    {
      hide HasKids, HasPrefix;
    }

    method JoinKid(n: Node, m: Node, ghost c': Byte, ghost ref: RefPtr, ghost s: Slot, ghost leaves: map<Key, Leaf>)
      requires n in sh.view && m in sh.view && n != m && AllApart(sh.view) && AllWithin(sh.view, Repr)
        && Intact(sh.view, n, n, Repr)
      requires HasPrefix(n, sh.view[n].branch, sh.view[n].start) && n.keys.Length > 0 && n.keys[0] == c'
      requires sh.view[m].start == |sh.view[n].branch| + 1 && sh.view[n].branch + [c'] <= sh.view[m].branch
      requires Points(ref, s, sh.view)
        && (s.KidSlot? ==> s.owner != n && s.owner != m && Apart(s.owner, n) && Apart(s.owner, m))
      modifies n.partial, m, m.partial
      ensures Intact(sh.view, n, m, Repr) && m.Within(Repr) && Backs(m, sh.view[m].(start := sh.view[n].start))
      ensures Points(ref, s, sh.view)
      ensures ValuesOf(leaves) == old(ValuesOf(leaves))
    {
      hide HasKids, HasPrefix;
      IntactAt(m, n);
      TwoApart(n, m);
      JoinPrefix(n, m, sh.view[n], sh.view[m]);
      forall x | x in sh.view && x != n && x != m
        ensures x.Within(Repr) && Backs(x, sh.view[x])
      {
        assert Apart(x, n) && Apart(x, m);
        assert old(x.Within(Repr) && Backs(x, sh.view[x]));
      }
    }

    /** recursive_delete: the removed leaf, or null when the key is absent. */
    method RecursiveDelete(n: Ref, ref: RefPtr, key: Key, depth: nat, ghost s: Slot) returns (l: Leaf?)
      requires Linked() && |key| == keyLen
      requires SlotIn(sh, s) && Get(sh, s) == n && Points(ref, s, sh.view)
      requires depth == |Position(sh, s)| <= keyLen && (key in sh.leaves ==> Position(sh, s) <= key)
      requires !n.NodeRef? ==> ref == RootPtr
      modifies this, Repr
      ensures Linked() && fresh(Repr - old(Repr)) && size == old(size)
      ensures l != null <==> key in old(sh.leaves)
      ensures l != null ==> l == old(sh.leaves)[key] && l.value == old(ValuesOf(sh.leaves))[key]
      ensures ValuesOf(sh.leaves) == old(ValuesOf(sh.leaves)) - {key}
      decreases keyLen - depth
    {
      hide Ok, Intact, AllApart, LeavesOwned, RefOk, HoldsLayout, Stores, Linked;
      Unlink3(key);
      if !n.NodeRef? {
        WalkEnds(sh, keyLen, s, key);
        l := null;
        if n.LeafRef? && n.leaf.key == key {
          l := n.leaf;
          RemoveRoot(l);
        }
        return;
      }
      var x, d := n.node, depth;
      Unlink(x);
      StepDown(sh, keyLen, s, key);
      if x.partialLen != 0 {
        var prefixLen := CheckPrefix(x, key, depth);
        if prefixLen != Min(MAX_PREFIX_LEN, x.partialLen) {
          if key in sh.leaves {
            CheckPasses(x, sh.view[x], key, depth);
          }
          return null;
        }
        d := depth + x.partialLen;
      }
      l := DeleteBelow(x, ref, key, d, s);
    }

    /** recursive_delete once the prefix has passed. */
    method DeleteBelow(x: Node, ref: RefPtr, key: Key, d: nat, ghost s: Slot) returns (l: Leaf?)
      requires Linked() && |key| == keyLen
      requires SlotIn(sh, s) && Get(sh, s) == NodeRef(x) && x in sh.view && Points(ref, s, sh.view)
      requires d == |sh.view[x].branch| < keyLen && |Position(sh, s)| <= d
        && (key in sh.leaves ==> sh.view[x].branch <= key)
      modifies this, Repr
      ensures Linked() && fresh(Repr - old(Repr)) && size == old(size)
      ensures l != null <==> key in old(sh.leaves)
      ensures l != null ==> l == old(sh.leaves)[key] && l.value == old(ValuesOf(sh.leaves))[key]
      ensures ValuesOf(sh.leaves) == old(ValuesOf(sh.leaves)) - {key}
      decreases keyLen - |Position(sh, s)|, 0
    {
      hide Ok, Intact, AllApart, LeavesOwned, RefOk, HoldsLayout, HasPrefix, Linked;
      Unlink(x);
      var child := x.FindChild(key[d], sh.view[x].kids);
      ghost var s' := KidSlot(x, key[d]);
      if child.None? {
        WalkEnds(sh, keyLen, s', key);
        return null;
      }
      var r := x.children[child.value];
      if r.LeafRef? {
        WalkEnds(sh, keyLen, s', key);
        if r.leaf.key == key {
          l := r.leaf;
          RemoveLeaf(x, ref, child.value, key[d], l, s);
        } else {
          l := null;
        }
      } else {
        KidNotNull(x, key[d]);
        l := RecursiveDelete(r, ChildPtr(x, child.value), key, d + 1, s');
      }
    }

    /** The leaf was the whole tree. */
    method RemoveRoot(l: Leaf)
      requires Linked() && sh.root == LeafRef(l)
      modifies this`root, this`sh
      ensures Linked()
      ensures ValuesOf(sh.leaves) == old(ValuesOf(sh.leaves)) - {l.key}
    {
      hide Ok, Intact, AllApart, RefOk;
      DroppedOk(sh, keyLen, RootSlot);
      root := Null;
      sh := Dropped(sh, RootSlot);
    }

    lemma RootLinked()
      requires Linked()
      ensures SlotIn(sh, RootSlot) && Get(sh, RootSlot) == root && Points(RootPtr, RootSlot, sh.view)
      ensures Position(sh, RootSlot) == []
    {
      hide Ok, Intact, AllApart, AllWithin, LeavesOwned;
    }

    /** One key less. */
    method CountDown()
      requires Linked() && size == |sh.leaves| + 1
      modifies this`size
      ensures Valid()
    {
      hide Ok, Intact, AllApart, AllWithin, LeavesOwned, HasKids, HasPrefix;
      size := size - 1;
    }

    static lemma OneLess(leaves: map<Key, Leaf>, leaves': map<Key, Leaf>, key: Key)
      requires leaves'.Keys == leaves.Keys - {key}
      ensures |leaves| == |leaves'| + if key in leaves then 1 else 0
    {
      assert |leaves| == |leaves.Keys| && |leaves'| == |leaves'.Keys|;
    }

    /** art_delete: the value of the removed key, or null. */
    method Delete(key: Key) returns (old_: Value)
      requires Valid() && |key| == keyLen
      modifies this, Repr
      ensures Valid() && fresh(Repr - old(Repr))
      ensures old_ == if key in old(Contents()) then old(Contents())[key] else 0
      ensures Contents() == old(Contents()) - {key}
    {
      hide Ok, Intact, AllApart, AllWithin, LeavesOwned, HasKids, HasPrefix, ValuesOf, Linked;
      ghost var before := sh.leaves;
      KeysOf(before);
      RootLinked();
      var l := RecursiveDelete(root, RootPtr, key, 0, RootSlot);
      KeysOf(sh.leaves);
      OneLess(before, sh.leaves, key);
      if l != null {
        CountDown();
        return l.value;
      }
      return 0;
    }

    // ---------- iteration ----------

    /** recursive_iter below slot `s`; `es` are the entries it visits, after those of `before`. */
    method RecursiveIter(n: Ref, cb: Callback, before: seq<Entry>, ghost s: Slot) returns (res: int, es: seq<Entry>)
      requires Linked() && SlotIn(sh, s) && Get(sh, s) == n
      ensures Visits(es, KeysUnder(sh, Position(sh, s)), ValuesOf(sh.leaves), res) && Answers(cb, before, es, res)
      decreases keyLen - |Position(sh, s)|, 1
    {
      hide Ok, Intact, AllApart, LeavesOwned, HasKids, HasPrefix;
      SlotFacts(s);
      if n == Null {
        return 0, [];
      }
      if n.LeafRef? {
        var e := (n.leaf.key, n.leaf.value);
        es := [e];
        res := cb(before, e);
        assert before + [] == before;
        assert Among(es, n.leaf.key) by {
          assert es[0].0 == n.leaf.key;
        }
        return;
      }
      res, es := IterNode(n.node, cb, before, s);
    }

    lemma SlotFacts(s: Slot)
      requires Linked() && SlotIn(sh, s)
      ensures var ks := KeysUnder(sh, Position(sh, s));
        match Get(sh, s)
        case Null => ks == {}
        case LeafRef(l) => ks == {l.key} && sh.leaves[l.key] == l
        case NodeRef(n) => n in sh.view
    {
      hide Intact, AllApart, LeavesOwned;
      assert SlotOk(sh, s);
      assert forall k :: k in KeysUnder(sh, Position(sh, s)) ==> Under(sh.leaves.Keys, Position(sh, s), k);
    }

    method IterNode(n: Node, cb: Callback, before: seq<Entry>, ghost s: Slot) returns (res: int, es: seq<Entry>)
      requires Linked() && SlotIn(sh, s) && Get(sh, s) == NodeRef(n) && n in sh.view
      ensures Visits(es, KeysUnder(sh, Position(sh, s)), ValuesOf(sh.leaves), res) && Answers(cb, before, es, res)
      decreases keyLen - |Position(sh, s)|, 0
    {
      hide Ok, Intact, AllApart, LeavesOwned, HasPrefix, Visits, Answers, KeysUnder, KeysBefore, Linked, Backs,
        RefOk, Node.Holds;
      ghost var values, b := ValuesOf(sh.leaves), sh.view[n].branch;
      EmptyVisit(cb, before, sh, b, values);
      Descends(s, n);
      Unlink(n);
      HoldsKids(n, sh.view[n]);
      es := [];
      ghost var done: nat := 0;
      var i := 0;
      var places := n.Places();
      while i < places
        invariant 0 <= i <= places && done <= 256 && n.Passed(i, done)
        invariant Visits(es, KeysBefore(sh, b, done), values, 0) && Answers(cb, before, es, 0)
      {
        var child;
        ghost var c: Byte;
        child, c := n.ChildAt(i, sh.view[n].kids, done);
        if child != Null {
          var more;
          res, more := RecursiveIter(child, cb, before + es, KidSlot(n, c));
          NextVisit(sh, keyLen, s, n, done, c, es, more, values, res);
          AnswersJoin(cb, before, es, more, res);
          AnswersEmpty(cb, before + es, more, res);
          es := es + more;
          if res != 0 {
            return;
          }
        } else {
          SkipKids(sh, keyLen, n, done, c + 1);
        }
        done := c + 1;
        i := i + 1;
      }
      n.NoMore(sh.view[n].kids, done);
      SkipKids(sh, keyLen, n, done, 256);
      AllKids(sh, keyLen, s, n);
      res := 0;
    }

    static lemma HoldsKids(n: Node, v: View)
      requires Backs(n, v)
      ensures n.Holds(v.kids)
    {
    }

    lemma Descends(s: Slot, n: Node)
      requires Linked() && SlotIn(sh, s) && Get(sh, s) == NodeRef(n) && n in sh.view
      ensures |Position(sh, s)| <= |sh.view[n].branch| < keyLen
    {
      hide Intact, AllApart, LeavesOwned, RefOk;
      RefCovers(sh, keyLen, s);
      BranchShort(sh, keyLen, n);
    }

    lemma AnswersEmpty(cb: Callback, before: seq<Entry>, es: seq<Entry>, res: int)
      requires Answers(cb, before, es, res)
      ensures es == [] ==> res == 0
    {
    }

    /** art_iter: in key order and without gaps, to the end or until the callback stops it. */
    method Iter(cb: Callback) returns (res: int, es: seq<Entry>)
      requires Valid()
      ensures Visits(es, Contents().Keys, Contents(), res) && Answers(cb, [], es, res)
    {
      hide Ok, Intact, AllApart, LeavesOwned, Visits, Answers;
      res, es := RecursiveIter(root, cb, [], RootSlot);
      assert KeysUnder(sh, []) == sh.leaves.Keys;
    }
  }
}
