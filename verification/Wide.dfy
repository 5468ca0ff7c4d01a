/** The wide radix tree over its two object pools. */
module Wide {
  import opened Bits
  import opened Pool
  import opened Word
  import opened WideShape
  import opened WideSeek

  /** A `WideRadixNode *`: the root, or a node of a group. */
  datatype NodeRef = Root | Inner(group: Ptr<seq<WNode>>, index: nat)

  /** `ks` with the same keys at every level. */
  ghost function Uniform(n: nat, keys: Keys): (r: seq<Keys>)
    ensures |r| == n && forall i :: 0 <= i < n ==> r[i] == keys
  {
    if n == 0 then [] else Uniform(n - 1, keys) + [keys]
  }

  class Tree {
    const numLevels: nat
    var root: WNode
    const nonLeafPool: ObjectPool<seq<WNode>>
    const leafPool: ObjectPool<seq<Value>>
    ghost var at: map<GPos, Child>
    ghost var loc: map<Child, GPos>
    ghost var vals: map<nat, Value>

    ghost predicate PoolsOk()
      reads nonLeafPool, nonLeafPool.blocks, nonLeafPool.Repr, leafPool, leafPool.blocks, leafPool.Repr
    {
      && nonLeafPool.Valid() && leafPool.Valid() && nonLeafPool.Repr !! leafPool.Repr
      && this !in nonLeafPool.Repr && this !in leafPool.Repr
      && nonLeafPool.Clean() && leafPool.Clean()
      && nonLeafPool.zero == EmptyGroup() && leafPool.zero == NoValues()
    }

    ghost function St(): State
      requires PoolsOk()
      reads this`root, this`at, this`loc, nonLeafPool, nonLeafPool.blocks
      reads nonLeafPool.Repr, leafPool, leafPool.blocks, leafPool.Repr
    {
      State(numLevels, root, nonLeafPool.Contents(), leafPool.Contents(), at, loc)
    }

    /** In order, where level `j` stands for the keys `ks[j]`. */
    ghost predicate Stands(ks: seq<Keys>)
      reads this`root, this`at, this`loc, this`vals, nonLeafPool
      reads nonLeafPool.blocks, nonLeafPool.Repr, leafPool, leafPool.blocks, leafPool.Repr
    {
      && PoolsOk() && Sound(St(), ks) && Holds(St(), vals)
      && forall k {:trigger k in vals} :: k in vals ==> k < Pow2(8 * numLevels)
    }

    ghost predicate Valid()
      reads this, nonLeafPool, nonLeafPool.blocks, nonLeafPool.Repr, leafPool, leafPool.blocks, leafPool.Repr
    {
      Stands(Uniform(numLevels, vals.Keys))
    }

    /** The node reference for a place. */
    ghost predicate Denotes(r: NodeRef, level: nat, p: nat)
      reads this`at
    {
      if level == 0 then r == Root && p == 0
      else
        && GPos(level - 1, p / 64) in at && r.Inner?
        && at[GPos(level - 1, p / 64)] == Nodes(r.group) && r.index == p % 64
    }

    lemma Footprints()
      requires PoolsOk()
      ensures this !in nonLeafPool.Repr && this !in leafPool.Repr && nonLeafPool.Repr !! leafPool.Repr
      ensures nonLeafPool in nonLeafPool.Repr && (forall b :: b in nonLeafPool.blocks ==> b in nonLeafPool.Repr)
      ensures leafPool in leafPool.Repr && (forall b :: b in leafPool.blocks ==> b in leafPool.Repr)
      ensures nonLeafPool.live == St().groups.Keys && leafPool.live == St().leaves.Keys
      ensures forall o {:trigger o in nonLeafPool.live} :: o in nonLeafPool.live ==>
        && o.Obj? && o.block in nonLeafPool.Repr
        && o.block.pool in nonLeafPool.Repr && o.block.freeList in nonLeafPool.Repr
      ensures forall o {:trigger o in leafPool.live} :: o in leafPool.live ==>
        o.Obj? && o.block in leafPool.Repr && o.block.pool in leafPool.Repr && o.block.freeList in leafPool.Repr
    {
      hide ObjectPool.Valid, ObjectPool.Contents, ObjectPool.Clean;
      nonLeafPool.Footprint();
      leafPool.Footprint();
    }

    /** treeInit */
    constructor (log2Max: nat, log2Align: nat)
      requires log2Align < log2Max <= log2Align + 64
      ensures Valid() && 8 * (numLevels - 1) < log2Max - log2Align <= 8 * numLevels && vals == map[] && RootExact()
        && root == EMPTY
      ensures fresh(nonLeafPool.Repr) && fresh(leafPool.Repr)
      ensures nonLeafPool.initialCapacity == 100 && leafPool.initialCapacity == 1000
    {
      hide ObjectPool.Valid, ObjectPool.Contents, ObjectPool.Clean, Sound, Holds, EmptyGroup, NoValues;
      numLevels := (log2Max - log2Align + 7) / 8;
      root := EMPTY;
      nonLeafPool := new ObjectPool(100, EmptyGroup());
      leafPool := new ObjectPool(1000, NoValues());
      at, loc, vals := map[], map[], map[];
      new;
      EmptySound(St(), numLevels);
      BlankRoot(root);
      assert vals.Keys == {};
    }

    static lemma BlankRoot(w: WNode)
      requires w == EMPTY
      ensures forall b: nat {:trigger HasAt(w.bits, b)} :: !HasAt(w.bits, b)
    {
      forall b: nat
        ensures !HasAt(w.bits, b)
      {
        EmptyBits(b);
      }
    }

    static lemma EmptySound(s: State, n: nat)
      requires n > 0 && s == State(n, EMPTY, map[], map[], map[], map[])
      ensures Sound(s, Uniform(n, {})) && Holds(s, map[])
    {
      forall b: nat
        ensures !HasAt(EMPTY.bits, b)
      {
        EmptyBits(b);
      }
    }

    // ---------- nodes and values in the pools ----------

    /** `r` refers to node `p` of a level. */
    ghost predicate Here(r: NodeRef, level: nat, p: nat)
      reads this`root, this`at, this`loc, nonLeafPool, nonLeafPool.blocks
      reads nonLeafPool.Repr, leafPool, leafPool.blocks, leafPool.Repr
    {
      PoolsOk() && Fits(St()) && Exists(St(), level, p) && Denotes(r, level, p)
    }

    /** `*node` */
    method Load(r: NodeRef, ghost level: nat, ghost p: nat) returns (w: WNode)
      requires Here(r, level, p)
      ensures PoolsOk() && Fits(St()) && Exists(St(), level, p) && w == NodeAt(St(), level, p)
    {
      hide ObjectPool.Valid, ObjectPool.Contents, ObjectPool.Clean, EmptyGroup, NoValues, Fits;
      Footprints();
      match r
      case Root => w := root;
      case Inner(o, i) =>
        GroupHere(St(), GPos(level - 1, p / 64));
        var group := nonLeafPool.Read(o);
        w := group[i];
    }

    static lemma GroupHere(s: State, gp: GPos)
      requires Fits(s) && gp in s.at
      ensures GroupOk(s, gp)
    {
    }

    /** `*node = w` */
    method Store(r: NodeRef, w: WNode, ghost level: nat, ghost p: nat)
      requires Here(r, level, p)
      modifies this`root, nonLeafPool.Repr
      ensures PoolsOk() && nonLeafPool.Repr == old(nonLeafPool.Repr)
      ensures St() == PutNode(old(St()), level, p, w)
    {
      hide ObjectPool.Valid, ObjectPool.Contents, ObjectPool.Clean, EmptyGroup, NoValues, Fits;
      Footprints();
      match r
      case Root => root := w;
      case Inner(o, i) =>
        GroupHere(St(), GPos(level - 1, p / 64));
        var group := nonLeafPool.Read(o);
        nonLeafPool.Write(o, group[i := w]);
    }

    /** A fresh pool object, which is clean although it is not cleared. */
    method NewChild(isLastLevel: bool, ghost gp: GPos) returns (c: Child)
      requires PoolsOk() && Fits(St()) && gp !in at && gp.level < numLevels
        && isLastLevel == (gp.level == numLevels - 1)
      modifies this`at, this`loc, nonLeafPool.Repr, leafPool.Repr
      ensures PoolsOk() && fresh(nonLeafPool.Repr - old(nonLeafPool.Repr)) && fresh(leafPool.Repr - old(leafPool.Repr))
      ensures Unused(old(St()), c, isLastLevel) && c != NoChild && St() == AddGroup(old(St()), gp, c)
    {
      hide ObjectPool.Valid, ObjectPool.Contents, ObjectPool.Clean, EmptyGroup, NoValues, Fits, PoolsOk;
      ghost var s := St();
      if isLastLevel {
        c := NewLeaves();
      } else {
        c := NewNodes();
      }
      NotPlaced(s, c);
      Footprints();
      at, loc := at[gp := c], loc[c := gp];
    }

    method NewNodes() returns (c: Child)
      requires PoolsOk()
      modifies nonLeafPool.Repr
      ensures PoolsOk() && fresh(nonLeafPool.Repr - old(nonLeafPool.Repr)) && leafPool.Repr == old(leafPool.Repr)
      ensures c.Nodes? && c.group !in old(St()).groups
      ensures St() == old(St()).(groups := old(St()).groups[c.group := EmptyGroup()])
    {
      hide ObjectPool.Valid, ObjectPool.Contents, ObjectPool.Clean, EmptyGroup, NoValues;
      Footprints();
      var o := nonLeafPool.Alloc();
      c := Nodes(o);
    }

    method NewLeaves() returns (c: Child)
      requires PoolsOk()
      modifies leafPool.Repr
      ensures PoolsOk() && fresh(leafPool.Repr - old(leafPool.Repr)) && nonLeafPool.Repr == old(nonLeafPool.Repr)
      ensures c.Leaves? && c.values !in old(St()).leaves
      ensures St() == old(St()).(leaves := old(St()).leaves[c.values := NoValues()])
    {
      hide ObjectPool.Valid, ObjectPool.Contents, ObjectPool.Clean, EmptyGroup, NoValues;
      Footprints();
      var o := leafPool.Alloc();
      c := Leaves(o);
    }

    /** What is not allocated has no place. */
    static lemma NotPlaced(s: State, c: Child)
      requires Fits(s) && c != NoChild && (c.Leaves? ==> c.values !in s.leaves) && (c.Nodes? ==> c.group !in s.groups)
      ensures c !in s.loc
    {
      assert c in s.loc ==> s.loc[c] in s.at && GroupOk(s, s.loc[c]);
    }

    /** objectPoolFree, for a group that is clean again. */
    method FreeChild(c: Child, ghost gp: GPos)
      requires PoolsOk() && Fits(St()) && gp in at && at[gp] == c
      requires c.Nodes? ==> c.group in St().groups && St().groups[c.group] == EmptyGroup()
      requires c.Leaves? ==> c.values in St().leaves && St().leaves[c.values] == NoValues()
      modifies this`at, this`loc, nonLeafPool.Repr, leafPool.Repr
      ensures PoolsOk() && nonLeafPool.Repr == old(nonLeafPool.Repr) && leafPool.Repr == old(leafPool.Repr)
      ensures St() == DropGroup(old(St()), gp)
    {
      hide PoolsOk, EmptyGroup, NoValues, Fits;
      GroupHere(St(), gp);
      FreeGroup(c);
      Footprints();
      at, loc := at - {gp}, loc - {c};
    }

    method FreeGroup(c: Child)
      requires PoolsOk() && c != NoChild
      requires c.Nodes? ==> c.group in St().groups && St().groups[c.group] == EmptyGroup()
      requires c.Leaves? ==> c.values in St().leaves && St().leaves[c.values] == NoValues()
      modifies nonLeafPool.Repr, leafPool.Repr
      ensures PoolsOk() && nonLeafPool.Repr == old(nonLeafPool.Repr) && leafPool.Repr == old(leafPool.Repr)
      ensures at == old(at) && loc == old(loc) && root == old(root)
      ensures St() == if c.Nodes? then old(St()).(groups := old(St()).groups - {c.group})
        else old(St()).(leaves := old(St()).leaves - {c.values})
    {
      hide PoolsOk, EmptyGroup, NoValues;
      Footprints();
      if c.Nodes? {
        FreeNodes(c.group);
      } else {
        FreeLeaves(c.values);
      }
    }

    method FreeNodes(o: Ptr<seq<WNode>>)
      requires PoolsOk() && o in St().groups && St().groups[o] == EmptyGroup()
      modifies nonLeafPool.Repr
      ensures PoolsOk() && nonLeafPool.Repr == old(nonLeafPool.Repr) && leafPool.Repr == old(leafPool.Repr)
      ensures St() == old(St()).(groups := old(St()).groups - {o})
    {
      hide ObjectPool.Valid, ObjectPool.Clean, ObjectPool.Contents, EmptyGroup, NoValues;
      Footprints();
      nonLeafPool.ContentOf(o);
      nonLeafPool.Free(o);
    }

    method FreeLeaves(o: Ptr<seq<Value>>)
      requires PoolsOk() && o in St().leaves && St().leaves[o] == NoValues()
      modifies leafPool.Repr
      ensures PoolsOk() && nonLeafPool.Repr == old(nonLeafPool.Repr) && leafPool.Repr == old(leafPool.Repr)
      ensures St() == old(St()).(leaves := old(St()).leaves - {o})
    {
      hide ObjectPool.Valid, ObjectPool.Clean, ObjectPool.Contents, EmptyGroup, NoValues;
      Footprints();
      leafPool.ContentOf(o);
      leafPool.Free(o);
    }

    /** The value of a key whose group is there. */
    method LoadValue(c: Child, i: nat, ghost k: nat) returns (v: Value)
      requires PoolsOk() && Fits(St()) && Holds(St(), vals) && GPos(numLevels - 1, k / 64) in at
      requires c == at[GPos(numLevels - 1, k / 64)] && i == k % 64
      ensures v == Lookup(vals, k)
    {
      hide ObjectPool.Valid, ObjectPool.Contents, ObjectPool.Clean, EmptyGroup, NoValues, Fits;
      Footprints();
      GroupHere(St(), GPos(numLevels - 1, k / 64));
      LeafHere(St(), vals, k);
      var values := leafPool.Read(c.values);
      v := values[i];
    }

    static lemma LeafHere(s: State, vals: map<nat, Value>, k: nat)
      requires Fits(s) && Holds(s, vals) && GPos(s.n - 1, k / 64) in s.at && GroupOk(s, GPos(s.n - 1, k / 64))
      ensures s.leaves[s.at[GPos(s.n - 1, k / 64)].values][k % 64] == Lookup(vals, k)
    {
      assert LeafOk(s, vals, k / 64, k % 64);
    }

    method StoreValue(c: Child, i: nat, v: Value, ghost k: nat)
      requires PoolsOk() && Fits(St()) && GPos(numLevels - 1, k / 64) in at
      requires c == at[GPos(numLevels - 1, k / 64)] && i == k % 64
      modifies leafPool.Repr
      ensures PoolsOk() && leafPool.Repr == old(leafPool.Repr) && nonLeafPool.Repr == old(nonLeafPool.Repr)
      ensures St() == PutValue(old(St()), k, v)
    {
      hide ObjectPool.Valid, ObjectPool.Contents, ObjectPool.Clean, EmptyGroup, NoValues, Fits;
      Footprints();
      GroupHere(St(), GPos(numLevels - 1, k / 64));
      var values := leafPool.Read(c.values);
      leafPool.Write(c.values, values[i := v]);
    }

    // ---------- insertion ----------

    /** One level of treeInsertOrReturnExisting: the group is there afterwards and the bit is set. */
    method MarkSlot(node: NodeRef, idx: nat, child: nat, isLastLevel: bool, ghost k: nat, ghost level: nat,
        ghost ks: seq<Keys>) returns (c: Child)
      requires Stands(ks) && level < numLevels && k < Pow2(8 * numLevels)
      requires Here(node, level, Slot(k, numLevels, level) / 256)
      requires idx == Slot(k, numLevels, level) / 64 % 4 && child == Slot(k, numLevels, level) % 64
        && isLastLevel == (level == numLevels - 1)
      requires (level + 1 < numLevels ==> ks[level + 1] == ks[level]) && (isLastLevel ==> ks[level] == vals.Keys)
      modifies this`root, this`at, this`loc, nonLeafPool.Repr, leafPool.Repr
      ensures Stands(ks[level := ks[level] + {k}])
      ensures fresh(nonLeafPool.Repr - old(nonLeafPool.Repr)) && fresh(leafPool.Repr - old(leafPool.Repr))
      ensures GPos(level, Slot(k, numLevels, level) / 64) in at && c == at[GPos(level, Slot(k, numLevels, level) / 64)]
      ensures level + 1 < numLevels ==> c.Nodes? && Here(Inner(c.group, child), level + 1, Slot(k, numLevels, level))
      ensures if level == 0 then OneBitMore(old(root), root, Slot(k, numLevels, 0)) else root == old(root)
    {
      hide PoolsOk, Sound, Fits, Holds, NodeAt, Slot, MarkedNode, WithGroup, PutNode, Exists, Unused, OneBitMore,
        Marked, EmptyGroup, NoValues, Top, Pow2;
      ghost var s, t := St(), Slot(k, numLevels, level);
      ghost var gp := GPos(level, t / 64);
      BeforeMark(s, ks, vals, k, level);
      Footprints();
      var w := Load(node, level, t / 256);
      c := w.children[idx];
      if c == NoChild {
        c := NewChild(isLastLevel, gp);
      }
      ghost var s1 := St();
      WithGroupIs(s, gp, c, s1);
      MarkGroup(s, ks, vals, k, level, c);
      w := WNode(w.bits[idx := Or(w.bits[idx], One(child))], w.children[idx := c]);
      MarkedNodeIs(NodeAt(s, level, t / 256), t, c, w, idx, child);
      Footprints();
      Store(node, w, level, t / 256);
      MarkDone(s, ks, vals, k, level, c);
      RootMarked(s, s1, gp, level, t, c);
    }

    static ghost predicate OneBitMore(w: WNode, w': WNode, t: nat) {
      |w.bits| == |w'.bits| == 4 && forall b: nat {:trigger HasAt(w'.bits, b)} :: b < 256 ==>
        (HasAt(w'.bits, b) <==> HasAt(w.bits, b) || b == t % 256)
    }

    static lemma RootMarked(s: State, s1: State, gp: GPos, level: nat, t: nat, c: Child)
      requires c != NoChild && Fits(s) && Fits(s1) && s1 == WithGroup(s, gp, c) && Exists(s, level, t / 256)
        && Exists(s1, level, t / 256)
      requires |NodeAt(s, level, t / 256).bits| == 4 && |NodeAt(s, level, t / 256).children| == 4
      ensures
        var s2 := PutNode(s1, level, t / 256, MarkedNode(NodeAt(s, level, t / 256), t, c));
        if level == 0 then OneBitMore(s.root, s2.root, t) else s2.root == s.root
    {
      hide Fits, HasAt, MarkedNode, WithGroup;
      WithGroupSame(s, gp, c);
      var w := NodeAt(s, level, t / 256);
      if level == 0 {
        MarkedSize(w, t, c);
        forall b: nat {:trigger HasAt(MarkedNode(w, t, c).bits, b)} | b < 256
          ensures HasAt(MarkedNode(w, t, c).bits, b) <==> HasAt(w.bits, b) || b == t % 256
        {
          MarkedBits(w, t, c, b);
        }
      } else {
        SameRoot(s1, level, t / 256, MarkedNode(w, t, c));
      }
    }

    static lemma MarkedSize(w: WNode, t: nat, c: Child)
      requires |w.bits| == 4 && |w.children| == 4
      ensures |MarkedNode(w, t, c).bits| == 4
    {
    }

    /** What a level looks like before its slot is marked. */
    static lemma BeforeMark(s: State, ks: seq<Keys>, vals: map<nat, Value>, k: nat, level: nat)
      requires Sound(s, ks) && level < s.n && Exists(s, level, Slot(k, s.n, level) / 256)
      ensures Fits(s) && |NodeAt(s, level, Slot(k, s.n, level) / 256).bits| == 4
        && |NodeAt(s, level, Slot(k, s.n, level) / 256).children| == 4
      ensures
        var c := NodeAt(s, level, Slot(k, s.n, level) / 256).children[Slot(k, s.n, level) / 64 % 4];
        var gp := GPos(level, Slot(k, s.n, level) / 64);
        if gp in s.at then c == s.at[gp] != NoChild else c == NoChild
    {
      hide Slot, HasAt;
      NodeShows(s, ks, level, Slot(k, s.n, level) / 256);
      SlotParts(Slot(k, s.n, level));
    }

    static lemma WithGroupIs(s: State, gp: GPos, c: Child, s1: State)
      requires if gp in s.at then s1 == s else c != NoChild && s1 == AddGroup(s, gp, c)
      ensures s1 == WithGroup(s, gp, c)
    {
    }

    static lemma MarkedNodeIs(w: WNode, t: nat, c: Child, w': WNode, idx: nat, child: nat)
      requires |w.bits| == 4 && |w.children| == 4 && idx == t / 64 % 4 && child == t % 64
      requires w' == WNode(w.bits[idx := Or(w.bits[idx], One(child))], w.children[idx := c])
      ensures w' == MarkedNode(w, t, c)
    {
    }

    /** The group is at hand. */
    static lemma MarkGroup(s: State, ks: seq<Keys>, vals: map<nat, Value>, k: nat, level: nat, c: Child)
      requires CanMark(s, ks, k, level, c) && Holds(s, vals) && (level == s.n - 1 ==> ks[level] == vals.Keys)
      requires GPos(level, Slot(k, s.n, level) / 64) in s.at ==> c == s.at[GPos(level, Slot(k, s.n, level) / 64)]
      requires c != NoChild
      ensures var gp := GPos(level, Slot(k, s.n, level) / 64); var s1 := WithGroup(s, gp, c);
        && Fits(s1) && Holds(s1, vals) && Exists(s1, level, Slot(k, s.n, level) / 256) && gp in s1.at && s1.at[gp] == c
        && s1.at == s.at[gp := c]
    {
      hide Slot, HasAt, GroupOk, LeafOk, NodeAt;
      var gp := GPos(level, Slot(k, s.n, level) / 64);
      WithGroupFits(s, gp, c);
      WithGroupAt(s, gp, c, level, Slot(k, s.n, level) / 256);
      if gp !in s.at {
        forall j: nat | j in ks[level]
          ensures Slot(j, s.n, level) / 64 != gp.id
        {
          AbsentNone(s, ks, gp, j);
        }
      }
      WithGroupHolds(s, vals, gp, c);
    }

    static lemma MarkDone(s: State, ks: seq<Keys>, vals: map<nat, Value>, k: nat, level: nat, c: Child)
      requires CanMark(s, ks, k, level, c) && Holds(s, vals) && (level == s.n - 1 ==> ks[level] == vals.Keys)
      requires GPos(level, Slot(k, s.n, level) / 64) in s.at ==> c == s.at[GPos(level, Slot(k, s.n, level) / 64)]
      requires c != NoChild && Fits(s) && Fits(WithGroup(s, GPos(level, Slot(k, s.n, level) / 64), c))
      requires Exists(WithGroup(s, GPos(level, Slot(k, s.n, level) / 64), c), level, Slot(k, s.n, level) / 256)
      requires |NodeAt(s, level, Slot(k, s.n, level) / 256).bits| == 4
        && |NodeAt(s, level, Slot(k, s.n, level) / 256).children| == 4
      ensures
        var t := Slot(k, s.n, level);
        var s2 := PutNode(WithGroup(s, GPos(level, t / 64), c), level, t / 256,
          MarkedNode(NodeAt(s, level, t / 256), t, c));
        && Sound(s2, ks[level := ks[level] + {k}]) && Fits(s2) && Holds(s2, vals) && GPos(level, t / 64) in s2.at
          && s2.at[GPos(level, t / 64)] == c
        && (level + 1 < s.n ==> Exists(s2, level + 1, t) && c.Nodes?)
    {
      hide Slot, HasAt, GroupOk, LeafOk, NodeAt, MarkedNode, PutNode, WithGroup, NodeFine, PresentFine;
      var t := Slot(k, s.n, level);
      var gp := GPos(level, t / 64);
      MarkSound(s, ks, k, level, c);
      MarkGroup(s, ks, vals, k, level, c);
      PutNodeHolds(WithGroup(s, gp, c), vals, level, t / 256, MarkedNode(NodeAt(s, level, t / 256), t, c));
      if level + 1 < s.n {
        GroupHere(Marked(s, k, level, c), gp);
        NodesAbove(Marked(s, k, level, c), gp);
      }
    }

    static lemma NodesAbove(s: State, gp: GPos)
      requires gp in s.at && GroupOk(s, gp) && gp.level + 1 < s.n
      ensures s.at[gp].Nodes?
    {
    }

    /** Every set bit of the root leads to a stored key. */
    ghost predicate RootExact()
      reads this`root, this`vals
      requires numLevels > 0
    {
      Exact(root, vals.Keys, numLevels)
    }

    static ghost predicate Exact(root: WNode, keys: Keys, n: nat)
      requires n > 0
    {
      forall b: nat {:trigger HasAt(root.bits, b)} :: b < 256 && HasAt(root.bits, b) ==> Occ(keys, n, 0, b)
    }

    lemma StaysExact(root0: WNode, keys: Keys, k: nat)
      requires numLevels > 0 && OneBitMore(root0, root, Slot(k, numLevels, 0)) && vals.Keys == keys + {k}
        && k < Pow2(8 * numLevels)
      ensures Exact(root0, keys, numLevels) ==> RootExact()
    {
      hide HasAt, Slot;
      SlotFirst(k, numLevels);
      forall b: nat
        ensures Occ(vals.Keys, numLevels, 0, b) <==> Occ(keys, numLevels, 0, b) || Slot(k, numLevels, 0) == b
      {
        OccAdd(keys, numLevels, 0, k, b);
      }
    }

    /** `ks` after the levels above `level` have taken the key in. */
    ghost predicate Partly(ks: seq<Keys>, level: nat, above: Keys, below: Keys) {
      |ks| == numLevels && forall j :: 0 <= j < numLevels ==> ks[j] == if j < level then above else below
    }

    lemma AllUniform(ks: seq<Keys>, keys: Keys)
      requires |ks| == numLevels && forall j :: 0 <= j < numLevels ==> ks[j] == keys
      ensures ks == Uniform(numLevels, keys)
    {
    }

    /** The node of a key at the root, and below a slot. */
    lemma NodeId(k: nat, level: nat)
      requires level < numLevels && k < Pow2(8 * numLevels)
      ensures level == 0 ==> Slot(k, numLevels, 0) / 256 == 0
      ensures level > 0 ==> Slot(k, numLevels, level) / 256 == Slot(k, numLevels, level - 1)
    {
      if level == 0 {
        SlotFirst(k, numLevels);
      } else {
        SlotUp(k, numLevels, level);
      }
    }

    static lemma SlotBits(t: nat)
      ensures t % 256 / 64 == t / 64 % 4 && t % 256 % 64 == t % 64
    {
      var q, m := t / 256, t % 256;
      assert t == 64 * (4 * q + m / 64) + m % 64;
    }

    lemma AtRoot()
      requires PoolsOk() && Fits(St())
      ensures Here(Root, 0, 0)
    {
    }

    /** treeInsertOrReturnExisting */
    method InsertOrReturnExisting(key: nat, value: Value) returns (existing: Value)
      requires Valid()
      modifies this, nonLeafPool.Repr, leafPool.Repr
      ensures Valid() && fresh(nonLeafPool.Repr - old(nonLeafPool.Repr)) && fresh(leafPool.Repr - old(leafPool.Repr))
      ensures numLevels > 0 && existing == Lookup(old(vals), Low(key, numLevels))
      ensures vals == if existing != 0 then old(vals) else old(vals)[Low(key, numLevels) := value]
      ensures OneBitMore(old(root), root, Slot(Low(key, numLevels), numLevels, 0))
      ensures old(RootExact()) ==> RootExact()
    {
      hide PoolsOk, Sound, Fits, Holds, Slot, Uniform, Here, Exact, OneBitMore, Low, Top, Pow2;
      ghost var k, keys, ks := Low(key, numLevels), vals.Keys, Uniform(numLevels, vals.Keys);
      UniformIs(numLevels, keys);
      IsSound(ks);
      AtRoot();
      NodeId(k, 0);
      var node := Root;
      existing := 0;
      for level := 0 to numLevels
        invariant Stands(ks) && Partly(ks, level, keys + {k}, keys) && vals == old(vals)
        invariant level < numLevels && Here(node, level, Slot(k, numLevels, level) / 256)
        invariant fresh(nonLeafPool.Repr - old(nonLeafPool.Repr)) && fresh(leafPool.Repr - old(leafPool.Repr))
        invariant if level == 0 then root == old(root) else OneBitMore(old(root), root, Slot(k, numLevels, 0))
      {
        var keyLevelBits := Top(key, 8 * (numLevels - level - 1)) % 256;
        var keyLevelIdx, keyLevelChild := keyLevelBits / 64, keyLevelBits % 64;
        var isLastLevel := level == numLevels - 1;
        LowByte(key, numLevels, level);
        SlotBits(Slot(k, numLevels, level));
        Footprints();
        var c := MarkSlot(node, keyLevelIdx, keyLevelChild, isLastLevel, k, level, ks);
        ks := ks[level := ks[level] + {k}];
        if isLastLevel {
          SlotLast(k, numLevels);
          AllUniform(ks, keys + {k});
          existing := TakeOrPut(c, keyLevelChild, k, value);
          StaysExact(old(root), keys, k);
          assert old(RootExact()) ==> Exact(old(root), keys, numLevels);
          return;
        }
        node := Inner(c.group, keyLevelChild);
        NodeId(k, level + 1);
      }
    }

    lemma UniformIs(n: nat, keys: Keys)
      ensures |Uniform(n, keys)| == n && forall i :: 0 <= i < n ==> Uniform(n, keys)[i] == keys
    {
    }

    lemma IsSound(ks: seq<Keys>)
      requires Stands(ks)
      ensures PoolsOk() && Sound(St(), ks) && Fits(St()) && Holds(St(), vals) && numLevels > 0
      ensures forall k {:trigger k in vals} :: k in vals ==> k < Pow2(8 * numLevels)
      ensures St().at == at && St().n == numLevels
    {
    }

    /** The end of treeInsertOrReturnExisting: a value is put only where there is none. */
    method TakeOrPut(c: Child, child: nat, ghost key: nat, value: Value) returns (existing: Value)
      requires Stands(Uniform(numLevels, vals.Keys + {key})) && key < Pow2(8 * numLevels)
      requires GPos(numLevels - 1, key / 64) in at && c == at[GPos(numLevels - 1, key / 64)] && child == key % 64
      modifies this`vals, leafPool.Repr
      ensures Valid() && leafPool.Repr == old(leafPool.Repr) && nonLeafPool.Repr == old(nonLeafPool.Repr)
      ensures existing == Lookup(old(vals), key)
      ensures vals == if existing != 0 then old(vals) else old(vals)[key := value]
      ensures root == old(root)
    {
      hide PoolsOk, Sound, Fits, Holds, Uniform, PutValue, St, Stands;
      IsSound(Uniform(numLevels, vals.Keys + {key}));
      ghost var ks, vals0 := Uniform(numLevels, vals.Keys + {key}), vals;
      Footprints();
      ghost var s := St();
      existing := LoadValue(c, child, key);
      if existing == 0 {
        StoreValue(c, child, value, key);
        PutDone(s, vals, ks, key, value, vals[key := value]);
        Footprints();
        vals := vals[key := value];
      }
      Settled(ks, vals0, key, value);
    }

    lemma Settled(ks: seq<Keys>, vals0: map<nat, Value>, key: nat, value: Value)
      requires PoolsOk() && Sound(St(), ks) && Holds(St(), vals) && ks == Uniform(numLevels, vals0.Keys + {key})
      requires vals == if Lookup(vals0, key) == 0 then vals0[key := value] else vals0
      requires key < Pow2(8 * numLevels)
      requires forall k {:trigger k in vals0} :: k in vals0 ==> k < Pow2(8 * numLevels)
      ensures Valid()
    {
      assert vals.Keys == vals0.Keys + {key};
    }

    static lemma PutDone(s: State, vals: map<nat, Value>, ks: seq<Keys>, key: nat, value: Value,
        vals': map<nat, Value>)
      requires Updated(vals, key, value, vals')
      requires Sound(s, ks) && Fits(s) && Holds(s, vals) && GPos(s.n - 1, key / 64) in s.at
      ensures Sound(PutValue(s, key, value), ks) && Fits(PutValue(s, key, value))
        && Holds(PutValue(s, key, value), vals')
    {
      PutValueFits(s, key, value);
      PutValueSound(s, ks, key, value);
      PutValueHolds(s, vals, key, value, vals');
    }

    // ---------- lookup ----------

    /** What the bit and the pointer of a slot tell. */
    static lemma BitTells(s: State, ks: seq<Keys>, k: nat, level: nat)
      requires Sound(s, ks) && level < s.n && k < Pow2(8 * s.n) && Exists(s, level, Slot(k, s.n, level) / 256)
      ensures Fits(s) && |NodeAt(s, level, Slot(k, s.n, level) / 256).bits| == 4
        && |NodeAt(s, level, Slot(k, s.n, level) / 256).children| == 4
      ensures
        var w := NodeAt(s, level, Slot(k, s.n, level) / 256);
        var gp := GPos(level, Slot(k, s.n, level) / 64);
        var i := Slot(k, s.n, level) / 64 % 4;
        && (k in ks[level] ==> Has(w.bits[i], Slot(k, s.n, level) % 64))
        && (if gp in s.at then w.children[i] == s.at[gp] != NoChild else w.children[i] == NoChild)
    {
      hide Slot, Has;
      var t := Slot(k, s.n, level);
      SlotParts(t);
      NodeShows(s, ks, level, t / 256);
      var w := NodeAt(s, level, t / 256);
      assert HasAt(w.bits, t % 256) <==> Has(w.bits[t / 64 % 4], t % 64);
      assert k in ks[level] ==> Occ(ks[level], s.n, level, 256 * (t / 256) + t % 256);
      BeforeMark(s, ks, map[], k, level);
    }

    /** A set bit has a group. */
    static lemma BitHasGroup(s: State, ks: seq<Keys>, k: nat, level: nat)
      requires Sound(s, ks) && level < s.n && k < Pow2(8 * s.n) && Exists(s, level, Slot(k, s.n, level) / 256)
      requires Fits(s) && |NodeAt(s, level, Slot(k, s.n, level) / 256).bits| == 4
      requires Has(NodeAt(s, level, Slot(k, s.n, level) / 256).bits[Slot(k, s.n, level) / 64 % 4],
        Slot(k, s.n, level) % 64)
      ensures GPos(level, Slot(k, s.n, level) / 64) in s.at
    {
      hide Slot, Has;
      var t := Slot(k, s.n, level);
      SlotParts(t);
      NodeShows(s, ks, level, t / 256);
      var w := NodeAt(s, level, t / 256);
      assert HasAt(w.bits, t % 256);
      assert PresentFine(s, ks, GPos(level, t / 64));
      HasSmall(w.bits[t / 64 % 4], t % 64);
      if level > 0 {
        OccInGroup(ks[level], s.n, level, t);
      } else {
        SlotFirst(k, s.n);
      }
    }

    /** The step from a node to the node below it. */
    lemma Below(ks: seq<Keys>, k: nat, level: nat)
      requires Stands(ks) && level + 1 < numLevels && GPos(level, Slot(k, numLevels, level) / 64) in at
      ensures var c := at[GPos(level, Slot(k, numLevels, level) / 64)];
        c.Nodes? && Here(Inner(c.group, Slot(k, numLevels, level) % 64), level + 1, Slot(k, numLevels, level))
    {
      hide Slot;
      GroupHere(St(), GPos(level, Slot(k, numLevels, level) / 64));
    }

    /** treeFind */
    method Find(key: nat) returns (value: Value)
      requires Valid()
      ensures value == Lookup(vals, Low(key, numLevels))
    {
      hide Valid, PoolsOk, Fits, Holds, Slot, Here, Has, NodeAt, Exists, Low, Top, Pow2;
      ghost var k := Low(key, numLevels);
      ValueHere(k);
      AtRoot();
      NodeId(k, 0);
      var node := Root;
      var lastLevel := numLevels - 1;
      value := 0;
      for level := 0 to numLevels
        invariant level < numLevels && Here(node, level, Slot(k, numLevels, level) / 256)
      {
        var keyLevelBits := Top(key, 8 * (lastLevel - level)) % 256;
        var keyLevelIdx, keyLevelChild := keyLevelBits / 64, keyLevelBits % 64;
        AtNode(node, key, k, level);
        var w := Load(node, level, Slot(k, numLevels, level) / 256);
        if !Has(w.bits[keyLevelIdx], keyLevelChild) {
          return 0;
        }
        if w.children[keyLevelIdx] == NoChild {
          // The safety check of the source is never met.
          assert false;
        }
        if level == lastLevel {
          value := LoadValue(w.children[keyLevelIdx], keyLevelChild, k);
          return;
        }
        NodeBelow(k, level);
        node := Inner(w.children[keyLevelIdx].group, keyLevelChild);
      }
    }

    /** What a node on the way of a key tells. */
    lemma AtNode(r: NodeRef, key: nat, k: nat, level: nat)
      requires Valid() && k == Low(key, numLevels) && level < numLevels
      requires Here(r, level, Slot(k, numLevels, level) / 256)
      ensures PoolsOk() && Fits(St()) && Exists(St(), level, Slot(k, numLevels, level) / 256)
      ensures
        var t, w := Slot(k, numLevels, level), NodeAt(St(), level, Slot(k, numLevels, level) / 256);
        var b := Top(key, 8 * (numLevels - level - 1)) % 256;
        && |w.bits| == 4 && |w.children| == 4 && b / 64 == t / 64 % 4 && b % 64 == t % 64
        && (k in vals ==> Has(w.bits[b / 64], b % 64))
        && w.children[b / 64] == Get(at, GPos(level, t / 64))
        && (GPos(level, t / 64) in at ==> w.children[b / 64] != NoChild)
        && (Has(w.bits[b / 64], b % 64) ==> GPos(level, t / 64) in at)
    {
      hide Slot, Has, Low, Top, Pow2, Sound, Holds, Uniform, Fits, NodeAt, Exists, Here, Stands, PoolsOk;
      var ks := Uniform(numLevels, vals.Keys);
      UniformIs(numLevels, vals.Keys);
      IsSound(ks);
      HereExists(r, level, Slot(k, numLevels, level) / 256);
      LowByte(key, numLevels, level);
      SlotBits(Slot(k, numLevels, level));
      BitTells(St(), ks, k, level);
      var w := NodeAt(St(), level, Slot(k, numLevels, level) / 256);
      if Has(w.bits[Slot(k, numLevels, level) / 64 % 4], Slot(k, numLevels, level) % 64) {
        BitHasGroup(St(), ks, k, level);
      }
    }

    /** The node below it. */
    lemma NodeBelow(k: nat, level: nat)
      requires Valid() && k < Pow2(8 * numLevels) && level + 1 < numLevels
      requires GPos(level, Slot(k, numLevels, level) / 64) in at
      ensures
        var c := at[GPos(level, Slot(k, numLevels, level) / 64)];
        c.Nodes?
        && Here(Inner(c.group, Slot(k, numLevels, level) % 64), level + 1, Slot(k, numLevels, level + 1) / 256)
    {
      hide Slot, Here, Pow2, Uniform, Stands, PoolsOk;
      Below(Uniform(numLevels, vals.Keys), k, level);
      NodeId(k, level + 1);
    }

    /** The last group on the way holds the value. */
    lemma ValueHere(k: nat)
      requires Valid() && k < Pow2(8 * numLevels)
      ensures numLevels > 0 && PoolsOk() && Fits(St()) && Holds(St(), vals)
      ensures Slot(k, numLevels, numLevels - 1) == k
    {
      hide Slot, Pow2, Sound, Holds;
      IsSound(Uniform(numLevels, vals.Keys));
      SlotLast(k, numLevels);
    }

    lemma HereExists(r: NodeRef, level: nat, p: nat)
      requires Here(r, level, p)
      ensures PoolsOk() && Fits(St()) && Exists(St(), level, p)
    {
    }

    // ---------- removal ----------

    /** One level of treeRemove's clearing loop. */
    method ClearSlot(node: NodeRef, idx: nat, child: nat, ghost k: nat, ghost level: nat, ghost ks: seq<Keys>)
        returns (empty: bool)
      requires Stands(ks) && CanClear(St(), ks, k, level) && Here(node, level, Slot(k, numLevels, level) / 256)
      requires idx == Slot(k, numLevels, level) / 64 % 4 && child == Slot(k, numLevels, level) % 64
      requires level == numLevels - 1 ==> ks[level] - {k} == vals.Keys
      modifies this`at, this`loc, this`root, nonLeafPool.Repr, leafPool.Repr
      ensures Stands(ks[level := ks[level] - {k}])
      ensures nonLeafPool.Repr == old(nonLeafPool.Repr) && leafPool.Repr == old(leafPool.Repr)
      ensures root == old(root) && forall p: GPos {:trigger p in at} :: p.level < level && p in old(at) ==>
        p in at && at[p] == old(at)[p]
      ensures empty <==> !Occ(ks[level] - {k}, numLevels, level - 1, Slot(k, numLevels, level) / 256)
    {
      hide PoolsOk, Sound, Fits, Holds, NodeAt, Slot, Drops, ClearedBits, WithoutGroup, PutNode, Exists, Shows, Occ,
        DropGroup, Has, Cleared, ClearedNode, EmptyGroup, NoValues, Top, Pow2;
      ghost var s, t := St(), Slot(k, numLevels, level);
      ghost var gp := GPos(level, t / 64);
      BeforeMark(s, ks, vals, k, level);
      ghost var w0 := NodeAt(s, level, t / 256);
      Footprints();
      var w := Load(node, level, t / 256);
      ClearSound(s, ks, k, level);
      var bits := w.bits[idx := AndNot(w.bits[idx], One(child))];
      ClearedNodeIs(w0, t, bits, idx, child);
      var children := w.children;
      if bits[idx] == 0 && children[idx] != NoChild {
        DroppedClean(s, ks, vals, k, level);
        FreeChild(children[idx], gp);
        children := children[idx := NoChild];
      }
      WithoutGroupIs(s, w0, gp, t, St());
      ClearGroup(s, ks, vals, k, level);
      ghost var s1 := St();
      w := WNode(bits, children);
      Footprints();
      Store(node, w, level, t / 256);
      ClearDone(s, ks, vals, k, level, w0, s1);
      ClearEmpties(s, ks, k, level, w0, bits);
      empty := NoBits(bits);
    }

    static lemma ClearedNodeIs(w: WNode, t: nat, bits: seq<Word>, idx: nat, child: nat)
      requires |w.bits| == 4 && |w.children| == 4 && idx == t / 64 % 4 && child == t % 64
      requires bits == w.bits[idx := AndNot(w.bits[idx], One(child))]
      ensures Drops(w, t) <==> bits[idx] == 0 && w.children[idx] != NoChild
      ensures ClearedNode(w, t) == WNode(bits, if Drops(w, t) then w.children[idx := NoChild] else w.children)
    {
    }

    static lemma WithoutGroupIs(s: State, w: WNode, gp: GPos, t: nat, s1: State)
      requires |w.bits| == 4 && |w.children| == 4
      requires if Drops(w, t) then gp in s.at && s1 == DropGroup(s, gp) else s1 == s
      ensures s1 == WithoutGroup(s, w, gp, t)
    {
    }

    /** A group whose last slot goes is clean. */
    static lemma DroppedClean(s: State, ks: seq<Keys>, vals: map<nat, Value>, k: nat, level: nat)
      requires CanClear(s, ks, k, level) && Fits(s) && Holds(s, vals)
        && (level == s.n - 1 ==> ks[level] - {k} == vals.Keys)
      requires |NodeAt(s, level, Slot(k, s.n, level) / 256).bits| == 4
        && |NodeAt(s, level, Slot(k, s.n, level) / 256).children| == 4
      requires Drops(NodeAt(s, level, Slot(k, s.n, level) / 256), Slot(k, s.n, level))
      requires GPos(level, Slot(k, s.n, level) / 64) in s.at
      ensures var c := s.at[GPos(level, Slot(k, s.n, level) / 64)];
        && (c.Nodes? ==> c.group in s.groups && s.groups[c.group] == EmptyGroup())
        && (c.Leaves? ==> c.values in s.leaves && s.leaves[c.values] == NoValues())
    {
      hide Slot, HasAt, Occ, OccGroup, EmptyGroup, NoValues, ClearedBits, LeafOk;
      var t, keys := Slot(k, s.n, level), ks[level];
      var w := NodeAt(s, level, t / 256);
      var gp := GPos(level, t / 64);
      NodeShows(s, ks, level, t / 256);
      ClearedHere(w, s.at, s.at - {gp}, keys, s.n, level, k);
      GroupBits(ClearedNode(w, t), s.at - {gp}, keys - {k}, s.n, level, t / 256, t / 64 % 4);
      SlotParts(t);
      GroupHere(s, gp);
      if level == s.n - 1 {
        DroppedLeaves(s, vals, t / 64);
      } else {
        DroppedNodes(s, ks, gp);
      }
    }

    /** Without the group that is not needed any more. */
    static lemma ClearGroup(s: State, ks: seq<Keys>, vals: map<nat, Value>, k: nat, level: nat)
      requires CanClear(s, ks, k, level) && Fits(s) && Holds(s, vals)
      requires |NodeAt(s, level, Slot(k, s.n, level) / 256).bits| == 4
        && |NodeAt(s, level, Slot(k, s.n, level) / 256).children| == 4
      ensures
        var t := Slot(k, s.n, level);
        var w := NodeAt(s, level, t / 256);
        var s1 := WithoutGroup(s, w, GPos(level, t / 64), t);
        && Fits(s1) && Exists(s1, level, t / 256) && Holds(s1, vals) && s1.n == s.n && s1.root == s.root
        && s1.at == if Drops(w, t) then s.at - {GPos(level, t / 64)} else s.at
    {
      hide Slot, HasAt, Occ, GroupOk, LeafOk, NodeAt, WithoutGroup, NodeFine, PresentFine, Drops, Fits;
      var t := Slot(k, s.n, level);
      var w := NodeAt(s, level, t / 256);
      WithoutGroupFits(s, w, GPos(level, t / 64), t);
      WithoutGroupHolds(s, vals, w, GPos(level, t / 64), t);
      WithoutGroupAt(s, w, GPos(level, t / 64), t, level, t / 256);
    }

    /** After a slot is cleared. */
    static lemma ClearDone(s: State, ks: seq<Keys>, vals: map<nat, Value>, k: nat, level: nat, w: WNode, s1: State)
      requires CanClear(s, ks, k, level) && Fits(s) && Holds(s, vals)
      requires w == NodeAt(s, level, Slot(k, s.n, level) / 256) && |w.bits| == 4 && |w.children| == 4
      requires s1 == WithoutGroup(s, w, GPos(level, Slot(k, s.n, level) / 64), Slot(k, s.n, level))
      requires Fits(s1) && Exists(s1, level, Slot(k, s.n, level) / 256) && Holds(s1, vals) && s1.root == s.root
      ensures
        var t := Slot(k, s.n, level);
        var s2 := PutNode(s1, level, t / 256, ClearedNode(w, t));
        Fits(s2) && Holds(s2, vals) && Sound(s2, ks[level := ks[level] - {k}]) && s2.root == s.root
    {
      hide Slot, Occ, NodeAt, PutNode, WithoutGroup, Drops, ClearedNode, Sound, Holds, Fits, Exists;
      var t := Slot(k, s.n, level);
      ClearSound(s, ks, k, level);
      PutNodeFits(s1, level, t / 256, ClearedNode(w, t));
      PutNodeHolds(s1, vals, level, t / 256, ClearedNode(w, t));
      SameRoot(s1, level, t / 256, ClearedNode(w, t));
    }

    /** The cleared node is empty exactly if no other key has its slot above. */
    static lemma ClearEmpties(s: State, ks: seq<Keys>, k: nat, level: nat, w: WNode, bits: seq<Word>)
      requires CanClear(s, ks, k, level) && Fits(s)
      requires w == NodeAt(s, level, Slot(k, s.n, level) / 256) && |w.bits| == 4 && |w.children| == 4
      requires bits == ClearedNode(w, Slot(k, s.n, level)).bits && |bits| == 4
      ensures NoBits(bits) <==> !Occ(ks[level] - {k}, s.n, level - 1, Slot(k, s.n, level) / 256)
    {
      hide Slot, Occ, NodeAt, Drops, ClearedNode, ClearedBits, Sound, Fits, Exists, Shows, HasAt, NoBits;
      IsFit(s, ks);
      var t, keys := Slot(k, s.n, level), ks[level];
      var at' := if Drops(w, t) then s.at - {GPos(level, t / 64)} else s.at;
      NodeShows(s, ks, level, t / 256);
      ClearedHere(w, s.at, at', keys, s.n, level, k);
      ShowsSizes(ClearedNode(w, t), at', keys - {k}, s.n, level, t / 256);
      NodeEmpty(ClearedNode(w, t), at', keys - {k}, s.n, level, t / 256);
    }

    /** The nodes on the way of a key. */
    ghost predicate Way(nodes: seq<NodeRef>, k: nat, last: nat)
      reads this`root, this`at, this`loc, nonLeafPool, nonLeafPool.blocks
      reads nonLeafPool.Repr, leafPool, leafPool.blocks, leafPool.Repr
    {
      |nodes| > last && last < numLevels && forall j {:trigger nodes[j]} :: 0 <= j <= last ==>
        Here(nodes[j], j, Slot(k, numLevels, j) / 256)
    }

    lemma WayStart(k: nat)
      requires Here(Root, 0, 0) && k < Pow2(8 * numLevels) && numLevels > 0
      ensures Way([Root], k, 0)
    {
      hide Here, Slot;
      NodeId(k, 0);
    }

    lemma WayLess(nodes: seq<NodeRef>, k: nat, level: nat)
      requires level > 0 && Way(nodes, k, level)
      ensures Way(nodes, k, level - 1)
    {
      hide Here, Slot;
    }

    lemma WayOn(nodes: seq<NodeRef>, k: nat, level: nat, r: NodeRef)
      requires |nodes| == level + 1 < numLevels && Way(nodes, k, level)
        && Here(r, level + 1, Slot(k, numLevels, level + 1) / 256)
      ensures Way(nodes + [r], k, level + 1)
    {
      hide Here, Slot;
    }

    /** The way down of treeRemove, as far as there are groups. */
    method WalkDown(key: nat, ghost k: nat) returns (nodes: seq<NodeRef>, lastLevel: nat)
      requires Valid() && k == Low(key, numLevels)
      ensures lastLevel < numLevels && Way(nodes, k, lastLevel)
      ensures lastLevel < numLevels - 1 ==> GPos(lastLevel, Slot(k, numLevels, lastLevel) / 64) !in at
    {
      hide Valid, Way, PoolsOk, Fits, Holds, Slot, Here, Has, NodeAt, Exists, Low, Top, Pow2;
      ValueHere(k);
      AtRoot();
      WayStart(k);
      nodes := [Root];
      lastLevel := numLevels - 1;
      for level := 0 to lastLevel
        invariant lastLevel == numLevels - 1 && |nodes| == level + 1 && Way(nodes, k, level)
      {
        var keyLevelBits := Top(key, 8 * (numLevels - level - 1)) % 256;
        WayHere(nodes, k, level, level);
        AtNode(nodes[level], key, k, level);
        var w := Load(nodes[level], level, Slot(k, numLevels, level) / 256);
        if w.children[keyLevelBits / 64] == NoChild {
          lastLevel := level;
          return;
        }
        NodeBelow(k, level);
        WayOn(nodes, k, level, Inner(w.children[keyLevelBits / 64].group, keyLevelBits % 64));
        nodes := nodes + [Inner(w.children[keyLevelBits / 64].group, keyLevelBits % 64)];
      }
    }

    /** The value of the key is taken out of its group, if this is there. */
    method TakeValue(node: NodeRef, key: nat, ghost k: nat) returns (value: Value)
      requires Valid() && k == Low(key, numLevels) && Here(node, numLevels - 1, Slot(k, numLevels, numLevels - 1) / 256)
      modifies this`vals, leafPool.Repr
      ensures Stands(Uniform(numLevels, old(vals).Keys)) && vals == old(vals) - {k} && value == Lookup(old(vals), k)
      ensures leafPool.Repr == old(leafPool.Repr) && nonLeafPool.Repr == old(nonLeafPool.Repr)
      ensures !Occ(vals.Keys, numLevels, numLevels - 1, Slot(k, numLevels, numLevels - 1))
    {
      hide PoolsOk, Sound, Fits, Holds, Slot, Uniform, Here, Has, NodeAt, Exists, PutValue, St, Stands, Low;
      ghost var ks, vals0 := Uniform(numLevels, vals.Keys), vals;
      UniformIs(numLevels, vals.Keys);
      IsSound(ks);
      Footprints();
      ghost var s, level := St(), numLevels - 1;
      SlotLast(k, numLevels);
      SlotBits(k);
      HereExists(node, level, Slot(k, numLevels, level) / 256);
      BitTells(s, ks, k, level);
      LastByte(key, numLevels);
      var keyLevelBits := key % 256;
      var w := Load(node, level, Slot(k, numLevels, level) / 256);
      var c := w.children[keyLevelBits / 64];
      value := 0;
      if c != NoChild {
        value := LoadValue(c, keyLevelBits % 64, k);
        StoreValue(c, keyLevelBits % 64, 0, k);
        PutDone(s, vals, ks, k, 0, vals - {k});
        Footprints();
        vals := vals - {k};
      } else {
        NotThere(ks, k, level);
      }
      Taken(ks, vals0, k);
    }

    static lemma LastByte(key: nat, n: nat)
      requires n > 0
      ensures key % 256 == Low(key, n) % 256
    {
      hide Low;
      LowByte(key, n, n - 1);
      SlotLast(Low(key, n), n);
      SlotLast(key, n);
    }

    lemma Taken(ks: seq<Keys>, vals0: map<nat, Value>, key: nat)
      requires PoolsOk() && Sound(St(), ks) && Holds(St(), vals)
        && (vals == vals0 - {key} || (vals == vals0 && key !in vals0))
      requires forall k {:trigger k in vals0} :: k in vals0 ==> k < Pow2(8 * numLevels)
      requires numLevels > 0
      ensures Stands(ks) && vals == vals0 - {key}
        && !Occ(vals.Keys, numLevels, numLevels - 1, Slot(key, numLevels, numLevels - 1))
    {
      assert key !in vals0 ==> vals0 - {key} == vals0;
      forall j: nat | j in vals.Keys
        ensures Slot(j, numLevels, numLevels - 1) != Slot(key, numLevels, numLevels - 1)
      {
        SlotLast(j, numLevels);
        SlotLast(key, numLevels);
      }
    }

    /** treeRemove */
    method Remove(key: nat) returns (value: Value)
      requires Valid()
      modifies this, nonLeafPool.Repr, leafPool.Repr
      ensures Valid() && nonLeafPool.Repr == old(nonLeafPool.Repr) && leafPool.Repr == old(leafPool.Repr)
      ensures numLevels > 0 && value == Lookup(old(vals), Low(key, numLevels))
        && vals == old(vals) - {Low(key, numLevels)}
      ensures root == old(root)
      ensures old(RootExact()) ==> 
        (RootExact() <==>
          Low(key, numLevels) !in old(vals) || Occ(vals.Keys, numLevels, 0, Slot(Low(key, numLevels), numLevels, 0)))
    {
      hide PoolsOk, Sound, Fits, Holds, Slot, Uniform, Here, Has, NodeAt, Exists, St, Stands, Occ, CanClear, HasAt, Low;
      ghost var k, keys := Low(key, numLevels), vals.Keys;
      RootBitOf(k);
      ghost var ks := Uniform(numLevels, keys);
      UniformIs(numLevels, keys);
      IsSound(ks);
      Footprints();
      var nodes, lastLevel := WalkDown(key, k);
      WayToAt(nodes, k, lastLevel);
      value := 0;
      if lastLevel == numLevels - 1 {
        value := TakeValue(nodes[lastLevel], key, k);
      } else {
        NotThere(ks, k, lastLevel);
      }
      ClearUp(nodes, key, lastLevel, keys, k);
      ExactStill(keys, k);
    }

    /** A stored key has its bit in the root. */
    lemma RootBitOf(k: nat)
      requires Valid() && k < Pow2(8 * numLevels)
      ensures Slot(k, numLevels, 0) < 256 && (k in vals ==> HasAt(root.bits, Slot(k, numLevels, 0)))
    {
      hide HasAt, Slot;
      var ks := Uniform(numLevels, vals.Keys);
      UniformIs(numLevels, vals.Keys);
      SlotFirst(k, numLevels);
      NodeShows(St(), ks, 0, 0);
      assert k in vals ==> Occ(vals.Keys, numLevels, 0, 256 * 0 + Slot(k, numLevels, 0));
    }

    /** The root stays exact unless the key was the last one of its root slot. */
    lemma ExactStill(keys: Keys, k: nat)
      requires numLevels > 0 && vals.Keys == keys - {k} && Slot(k, numLevels, 0) < 256
      requires k in keys ==> HasAt(root.bits, Slot(k, numLevels, 0))
      ensures Exact(root, keys, numLevels) ==>
        (RootExact() <==> k !in keys || Occ(vals.Keys, numLevels, 0, Slot(k, numLevels, 0)))
    {
      hide HasAt, Slot;
      if k !in keys {
        assert keys - {k} == keys;
      } else if Occ(vals.Keys, numLevels, 0, Slot(k, numLevels, 0)) {
        forall b: nat
          ensures Occ(vals.Keys, numLevels, 0, b) <==> Occ(keys, numLevels, 0, b)
        {
          SharedSlot(keys, k, numLevels, 0, b);
        }
      }
    }

    /** A key whose way ends early is not stored. */
    lemma NotThere(ks: seq<Keys>, k: nat, level: nat)
      requires Stands(ks) && level < numLevels && k < Pow2(8 * numLevels) && ks[level] == vals.Keys
      requires GPos(level, Slot(k, numLevels, level) / 64) !in at
      ensures k !in vals && vals == vals - {k} && !Occ(vals.Keys - {k}, numLevels, level, Slot(k, numLevels, level))
    {
      hide Slot;
      var gp := GPos(level, Slot(k, numLevels, level) / 64);
      forall j: nat | j in vals.Keys
        ensures Slot(j, numLevels, level) != Slot(k, numLevels, level)
      {
        AbsentNone(St(), ks, gp, j);
      }
    }

    /** The clearing loop of treeRemove. */
    method ClearUp(nodes: seq<NodeRef>, key: nat, lastLevel: nat, ghost keys: Keys, ghost k: nat)
      requires Stands(Uniform(numLevels, keys)) && vals.Keys == keys - {k} && k == Low(key, numLevels)
      requires lastLevel < numLevels && WayAt(nodes, k, lastLevel, at)
      requires !Occ(keys - {k}, numLevels, lastLevel, Slot(k, numLevels, lastLevel))
      requires lastLevel < numLevels - 1 ==> keys - {k} == keys
      modifies this`at, this`loc, this`root, nonLeafPool.Repr, leafPool.Repr
      ensures Valid() && nonLeafPool.Repr == old(nonLeafPool.Repr) && leafPool.Repr == old(leafPool.Repr)
      ensures root == old(root)
    {
      hide PoolsOk, Sound, Fits, Holds, Slot, Uniform, Here, St, Stands, Occ, CanClear, Low, Top, Pow2;
      ghost var ks := Uniform(numLevels, keys);
      UniformIs(numLevels, keys);
      IsSound(ks);
      ghost var keys' := keys - {k};
      var level: nat := lastLevel;
      while level > 0
        invariant level <= lastLevel && Stands(ks) && Partly(ks, level + 1, keys, keys')
        invariant WayAt(nodes, k, level, at) && !Occ(keys', numLevels, level, Slot(k, numLevels, level))
        invariant nonLeafPool.Repr == old(nonLeafPool.Repr) && leafPool.Repr == old(leafPool.Repr) && root == old(root)
        invariant vals.Keys == keys'
      {
        LowByte(key, numLevels, level);
        SlotBits(Slot(k, numLevels, level));
        var keyLevelBits := Top(key, 8 * (numLevels - level - 1)) % 256;
        AtToHere(ks, nodes, k, level);
        StartClear(ks, k, level, nodes[level]);
        Footprints();
        ghost var at0 := at;
        var empty := ClearSlot(nodes[level], keyLevelBits / 64, keyLevelBits % 64, k, level, ks);
        ks := ks[level := ks[level] - {k}];
        NodeId(k, level);
        if !empty {
          Shared(ks, keys, k, level);
          return;
        }
        WayStays(nodes, k, level - 1, at0);
        level := level - 1;
      }
      OnlyRoot(ks, keys, keys');
    }

    lemma StartClear(ks: seq<Keys>, k: nat, level: nat, r: NodeRef)
      requires Stands(ks) && 0 < level < numLevels && Here(r, level, Slot(k, numLevels, level) / 256)
      requires level + 1 < numLevels ==> ks[level + 1] == ks[level] - {k}
      requires !Occ(ks[level] - {k}, numLevels, level, Slot(k, numLevels, level))
      ensures PoolsOk() && CanClear(St(), ks, k, level)
    {
    }

    /** The way of a key, by the places of the groups. */
    ghost predicate WayAt(nodes: seq<NodeRef>, k: nat, last: nat, at: map<GPos, Child>) {
      && |nodes| > last && last < numLevels && nodes[0] == Root && Slot(k, numLevels, 0) / 256 == 0
      && forall j: nat {:trigger nodes[j]} :: 0 < j <= last ==> StepAt(nodes[j], j, Slot(k, numLevels, j) / 256, at)
    }

    static ghost predicate StepAt(r: NodeRef, level: nat, p: nat, at: map<GPos, Child>)
      requires level > 0
    {
      var gp := GPos(level - 1, p / 64);
      gp in at && r.Inner? && at[gp] == Nodes(r.group) && r.index == p % 64
    }

    lemma WayToAt(nodes: seq<NodeRef>, k: nat, last: nat)
      requires Way(nodes, k, last)
      ensures WayAt(nodes, k, last, at)
    {
      hide Slot;
      assert Here(nodes[0], 0, Slot(k, numLevels, 0) / 256);
      forall j: nat {:trigger nodes[j]} | 0 < j <= last
        ensures StepAt(nodes[j], j, Slot(k, numLevels, j) / 256, at)
      {
        assert Here(nodes[j], j, Slot(k, numLevels, j) / 256);
      }
    }

    lemma AtToHere(ks: seq<Keys>, nodes: seq<NodeRef>, k: nat, level: nat)
      requires Stands(ks) && WayAt(nodes, k, level, at)
      ensures Here(nodes[level], level, Slot(k, numLevels, level) / 256)
    {
      hide Slot;
    }

    /** Where no group above has gone, the way is as before. */
    lemma WayStays(nodes: seq<NodeRef>, k: nat, last: nat, at0: map<GPos, Child>)
      requires WayAt(nodes, k, last + 1, at0)
      requires forall p: GPos {:trigger p in at} :: p.level < last + 1 && p in at0 ==> p in at && at[p] == at0[p]
      ensures WayAt(nodes, k, last, at)
    {
      hide Slot;
      forall j: nat {:trigger nodes[j]} | 0 < j <= last
        ensures StepAt(nodes[j], j, Slot(k, numLevels, j) / 256, at)
      {
        assert StepAt(nodes[j], j, Slot(k, numLevels, j) / 256, at0);
        assert GPos(j - 1, Slot(k, numLevels, j) / 256 / 64) in at;
      }
    }

    /** Another key with the same slot keeps everything above as it is. */
    lemma Shared(ks: seq<Keys>, keys: Keys, k: nat, level: nat)
      requires Stands(ks) && 0 < level < numLevels && Partly(ks, level, keys, keys - {k}) && vals.Keys == keys - {k}
      requires Occ(keys - {k}, numLevels, level - 1, Slot(k, numLevels, level - 1))
      ensures Valid()
    {
      hide Slot;
      var ks' := Uniform(numLevels, keys - {k});
      UniformIs(numLevels, keys - {k});
      var i: nat :| i in keys - {k} && Slot(i, numLevels, level - 1) == Slot(k, numLevels, level - 1);
      forall j: nat | j < level
        ensures Occ(keys - {k}, numLevels, j, Slot(k, numLevels, j))
      {
        SameAbove(i, k, numLevels, level - 1, j);
      }
      forall j: nat, x: nat {:trigger Occ(ks'[j], numLevels, j, x)} {:trigger OccGroup(ks'[j], numLevels, j,
        x)} | j < numLevels
        ensures Occ(ks'[j], numLevels, j, x) <==> Occ(ks[j], numLevels, j, x)
        ensures OccGroup(ks'[j], numLevels, j, x) <==> OccGroup(ks[j], numLevels, j, x)
      {
        if j < level {
          SharedSlot(keys, k, numLevels, j, x);
        }
      }
      Relabel(St(), ks, ks');
    }

    /** Only the root still stands for the key. */
    lemma OnlyRoot(ks: seq<Keys>, keys: Keys, keys': Keys)
      requires Stands(ks) && Partly(ks, 1, keys, keys') && keys' <= keys && vals.Keys == keys'
      ensures Valid()
    {
      UniformIs(numLevels, keys');
      Relabel(St(), ks, Uniform(numLevels, keys'));
    }

    // ---------- successor search ----------

    /** The first bit of the root after the query's slot. */
    ghost predicate NextRoot(q: nat, b: nat)
      reads this`root
      requires numLevels > 0
    {
      && Slot(q, numLevels, 0) < b < 256 && HasAt(root.bits, b)
      && forall c: nat {:trigger HasAt(root.bits, c)} :: Slot(q, numLevels, 0) < c < b ==> !HasAt(root.bits, c)
    }

    /** The search leaves the query's root slot for one that a removal has emptied. */
    ghost predicate Strays(q: nat)
      reads this`root, this`vals
      requires numLevels > 0
    {
      && numLevels > 1 && NoneAt(vals.Keys, numLevels, 0, q)
      && exists b: nat :: NextRoot(q, b) && !Occ(vals.Keys, numLevels, 0, b)
    }

    /** With a single level, the first bit from the query on is left from a removed key, and the least key from the
        query on has a value other than 0. */
    ghost predicate Misses(q: nat)
      reads this`root, this`vals
    {
      && (exists m: nat :: LeastFrom(vals.Keys, q, m) && vals[m] != 0)
      && exists b: nat :: FirstBit(q, b) && b !in vals
    }

    /** The first bit of the root from `q` on. */
    ghost predicate FirstBit(q: nat, b: nat)
      reads this`root
    {
      q <= b < 256 && HasAt(root.bits, b) && forall c: nat {:trigger HasAt(root.bits, c)} :: q <= c < b ==>
        !HasAt(root.bits, c)
    }

    /** The first loop of treeFindGEQ. */
    method SeekDescend(key: nat, ghost k: nat) returns (hit: bool, value: Value, nodes: seq<NodeRef>, level: nat)
      requires Valid() && k == Low(key, numLevels)
      ensures hit ==>
        value == Lookup(vals, k) && (numLevels > 1 ==> k in vals) && (numLevels == 1 ==> HasAt(root.bits, k))
      ensures !hit ==> level < numLevels && Way(nodes, k, level) && NoneAt(vals.Keys, numLevels, level, k)
      ensures !hit && numLevels == 1 ==> !HasAt(root.bits, k)
    {
      hide Valid, Way, PoolsOk, Fits, Holds, Slot, Here, Has, NodeAt, Exists, Low, Top, Pow2, NoneAt;
      ValueHere(k);
      AtRoot();
      WayStart(k);
      nodes := [Root];
      var lastLevel := numLevels - 1;
      hit, value, level := false, 0, 0;
      while level < numLevels
        invariant level < numLevels && |nodes| == level + 1 && Way(nodes, k, level)
        decreases numLevels - level
      {
        var keyLevel := Top(key, 8 * (lastLevel - level)) % 256;
        var idx, child := keyLevel / 64, keyLevel % 64;
        WayHere(nodes, k, level, level);
        AtNode(nodes[level], key, k, level);
        MissingBit(k, level);
        var w := Load(nodes[level], level, Slot(k, numLevels, level) / 256);
        if !Has(w.bits[idx], child) {
          return;
        }
        if w.children[idx] == NoChild {
          // The safety check of the source, which would return 0, is never met.
          assert false;
        }
        if level == lastLevel {
          value := LoadValue(w.children[idx], child, k);
          return true, value, nodes, level;
        }
        NodeBelow(k, level);
        WayOn(nodes, k, level, Inner(w.children[idx].group, child));
        nodes := nodes + [Inner(w.children[idx].group, child)];
        level := level + 1;
      }
    }

    lemma MissingBit(k: nat, level: nat)
      requires Valid() && k < Pow2(8 * numLevels) && level < numLevels
      requires PoolsOk() && Fits(St()) && Exists(St(), level, Slot(k, numLevels, level) / 256)
      ensures
        var t, w := Slot(k, numLevels, level), NodeAt(St(), level, Slot(k, numLevels, level) / 256);
        && |w.bits| == 4
        && (!Has(w.bits[t / 64 % 4], t % 64) ==> NoneAt(vals.Keys, numLevels, level, k))
        && (Has(w.bits[t / 64 % 4], t % 64) && level > 0 && level == numLevels - 1 ==> k in vals)
        && (numLevels == 1 ==> (Has(w.bits[t / 64 % 4], t % 64) <==> HasAt(root.bits, k)))
    {
      hide Slot, Has, HasAt, Pow2, Sound, Holds, NoneAt, Uniform;
      var ks := Uniform(numLevels, vals.Keys);
      UniformIs(numLevels, vals.Keys);
      IsSound(ks);
      BitTells(St(), ks, k, level);
      BitNone(St(), ks, k, level);
      RootSize();
      RootBit(k, level);
    }

    lemma RootSize()
      requires Valid()
      ensures |root.bits| == 4
    {
    }

    /** What the missing bit of a slot tells, and what a bit below the root tells. */
    static lemma BitNone(s: State, ks: seq<Keys>, k: nat, level: nat)
      requires Sound(s, ks) && level < s.n && k < Pow2(8 * s.n) && Exists(s, level, Slot(k, s.n, level) / 256)
      requires Fits(s) && |NodeAt(s, level, Slot(k, s.n, level) / 256).bits| == 4
      ensures
        var has := Has(NodeAt(s, level, Slot(k, s.n, level) / 256).bits[Slot(k, s.n, level) / 64 % 4],
          Slot(k, s.n, level) % 64);
        && (!has ==> NoneAt(ks[level], s.n, level, k))
        && (has && level > 0 && level == s.n - 1 ==> k in ks[level])
    {
      hide Slot, Has;
      var t := Slot(k, s.n, level);
      SlotParts(t);
      NodeShows(s, ks, level, t / 256);
      var w := NodeAt(s, level, t / 256);
      assert HasAt(w.bits, t % 256) <==> Has(w.bits[t / 64 % 4], t % 64);
      assert t == 256 * (t / 256) + t % 256;
      if !HasAt(w.bits, t % 256) {
        NoneStart(ks[level], s.n, level, k);
      } else if level > 0 && level == s.n - 1 {
        var j: nat :| j in ks[level] && Slot(j, s.n, level) == t;
        SlotLast(j, s.n);
        SlotLast(k, s.n);
      }
    }

    /** At the root of a single level the bits are those of the keys. */
    lemma RootBit(k: nat, level: nat)
      requires PoolsOk() && Fits(St()) && level < numLevels && Exists(St(), level, Slot(k, numLevels, level) / 256)
        && |root.bits| == 4 && k < Pow2(8 * numLevels)
      ensures numLevels == 1 ==>
        var t := Slot(k, numLevels, level);
        && |NodeAt(St(), level, t / 256).bits| == 4
        && (Has(NodeAt(St(), level, t / 256).bits[t / 64 % 4], t % 64) <==> HasAt(root.bits, k))
    {
      hide Has;
      if numLevels == 1 {
        SlotFirst(k, 1);
        SlotLast(k, 1);
        SlotParts(k);
      }
    }

    lemma NodeHere(ks: seq<Keys>, r: NodeRef, level: nat, p: nat)
      requires Stands(ks) && Here(r, level, p) && |ks| == numLevels && forall j :: 0 <= j < numLevels ==>
        ks[j] == vals.Keys
      ensures PoolsOk() && Fits(St()) && Exists(St(), level, p) && level < numLevels
      ensures var w := NodeAt(St(), level, p);
        && |w.bits| == 4 && |w.children| == 4 && Shows(w, at, vals.Keys, numLevels, level, p)
          && (level == 0 ==> p == 0 && w == root)
        && forall i {:trigger w.children[i]} :: 0 <= i < 4 ==> w.children[i] == Get(at, GPos(level, 4 * p + i))
    {
      hide HasAt, Slot;
      NodeShows(St(), ks, level, p);
    }

    /** The backtracking loop of treeFindGEQ. */
    method SeekClimb(key: nat, nodes: seq<NodeRef>, from: nat, ghost q: nat)
        returns (found: bool, level: nat, firstSetBit: nat)
      requires Valid() && q == Low(key, numLevels) && from < numLevels
      requires Way(nodes, q, from) && NoneAt(vals.Keys, numLevels, from, q)
      ensures !found ==> forall k :: k in vals ==> k < q
      ensures !found ==> forall b: nat {:trigger HasAt(root.bits, b)} :: Slot(q, numLevels, 0) < b < 256 ==>
        !HasAt(root.bits, b)
      ensures found ==> level <= from && firstSetBit <= 255 && NoneAt(vals.Keys, numLevels, level, q)
      ensures found ==> AllFrom(vals.Keys, numLevels, level, q, 256 * (Slot(q, numLevels, level) / 256) + firstSetBit)
      ensures found && level > 0 ==>
        Occ(vals.Keys, numLevels, level, 256 * (Slot(q, numLevels, level) / 256) + firstSetBit)
      ensures found && level == 0 ==> NextRoot(q, firstSetBit)
    {
      hide Valid, Way, PoolsOk, Fits, Holds, Slot, Here, NodeAt, Exists, NoneAt, AllFrom, Shows, HasAt, Low, Top, Pow2;
      ValueHere(q);
      SlotFirst(q, numLevels);
      level := from;
      while true
        invariant level <= from && Way(nodes, q, level) && NoneAt(vals.Keys, numLevels, level, q)
        decreases level
      {
        WayHere(nodes, q, level, level);
        ClimbNode(nodes[level], key, q, level);
        var keyLevel := Top(key, 8 * (numLevels - 1 - level)) % 256;
        var w := Load(nodes[level], level, Slot(q, numLevels, level) / 256);
        firstSetBit := FirstSetBitInRange(w.bits, keyLevel + 1, 255);
        if firstSetBit <= 255 {
          SeekFound(w, at, vals.Keys, numLevels, level, q, firstSetBit);
          if level > 0 {
            FirstShown(w, at, vals.Keys, numLevels, level, Slot(q, numLevels, level) / 256, firstSetBit);
          }
          return true, level, firstSetBit;
        }
        if level == 0 {
          SeekTop(w, at, vals.Keys, numLevels, q);
          return false, 0, 256;
        }
        SeekUp(w, at, vals.Keys, numLevels, level, q);
        WayLess(nodes, q, level);
        level := level - 1;
      }
    }

    lemma ClimbNode(r: NodeRef, key: nat, q: nat, level: nat)
      requires Valid() && q == Low(key, numLevels) && level < numLevels
      requires Here(r, level, Slot(q, numLevels, level) / 256)
      ensures PoolsOk() && Fits(St()) && Exists(St(), level, Slot(q, numLevels, level) / 256)
      ensures Top(key, 8 * (numLevels - level - 1)) % 256 == Slot(q, numLevels, level) % 256
      ensures forall k {:trigger k in vals} :: k in vals ==> k < Pow2(8 * numLevels)
      ensures
        var p, w := Slot(q, numLevels, level) / 256, NodeAt(St(), level, Slot(q, numLevels, level) / 256);
        && |w.bits| == 4 && Shows(w, at, vals.Keys, numLevels, level, p) && (level == 0 ==> p == 0 && w == root)
    {
      hide Slot, HasAt, Low, Top, Pow2, Sound, Holds, Uniform, Shows, Here, Stands, PoolsOk, Fits, NodeAt, Exists;
      var ks := Uniform(numLevels, vals.Keys);
      UniformIs(numLevels, vals.Keys);
      IsSound(ks);
      LowByte(key, numLevels, level);
      NodeHere(ks, r, level, Slot(q, numLevels, level) / 256);
    }

    /** The last loop of treeFindGEQ: the leftmost way down from a slot. */
    method SeekLeft(ghost key: nat, node: NodeRef, from: nat, first: nat) returns (inRange: bool, value: Value)
      requires Valid() && key < Pow2(8 * numLevels) && from < numLevels && first <= 255
      requires Here(node, from, Slot(key, numLevels, from) / 256)
      requires AllFrom(vals.Keys, numLevels, from, key, 256 * (Slot(key, numLevels, from) / 256) + first)
      requires from > 0 ==> Occ(vals.Keys, numLevels, from, 256 * (Slot(key, numLevels, from) / 256) + first)
      requires from == 0 ==> NextRoot(key, first)
      ensures inRange <==>
        numLevels == 1 || Occ(vals.Keys, numLevels, from, 256 * (Slot(key, numLevels, from) / 256) + first)
      ensures inRange && numLevels > 1 ==> exists m: nat :: LeastFrom(vals.Keys, key, m) && value == vals[m]
      ensures numLevels == 1 ==> value == Lookup(vals, first) && AllFrom(vals.Keys, 1, 0, key, first)
    {
      hide PoolsOk, Sound, Fits, Holds, Slot, Uniform, Here, NodeAt, Exists, NoneAt, AllFrom, Shows, HasAt, Occ,
        IsFirst, Top, Pow2, Stands, NextRoot, LeastFrom;
      var lastLevel := numLevels - 1;
      var r, level, firstSetBit := node, from, first;
      ghost var p: nat, start := Slot(key, numLevels, from) / 256,
        Occ(vals.Keys, numLevels, from, 256 * (Slot(key, numLevels, from) / 256) + first);
      StartSeek(node, key, from, first);
      while true
        invariant from <= level < numLevels && Here(r, level, p) && firstSetBit <= 256
        invariant firstSetBit <= 255 ==> AllFrom(vals.Keys, numLevels, level, key, 256 * p + firstSetBit)
        invariant firstSetBit <= 255 && level > 0 ==> Occ(vals.Keys, numLevels, level, 256 * p + firstSetBit)
        invariant level == from ==> firstSetBit == first && p == Slot(key, numLevels, from) / 256
        invariant level > from ==> (firstSetBit <= 255 <==> start)
        invariant firstSetBit <= 255 ==> Present(level, p, firstSetBit)
        decreases numLevels - level
      {
        var idx, child := firstSetBit / 64, firstSetBit % 64;
        if idx >= 4 {
          return false, 0;
        }
        var c := LeftChild(r, idx, level, p, firstSetBit);
        ghost var x := 256 * p + firstSetBit;
        if level == lastLevel {
          SeekLast(vals, numLevels, key, x);
          value := LoadValue(c, child, x);
          return true, value;
        }
        r, firstSetBit := SeekStep(key, c, child, level, p, firstSetBit);
        level, p := level + 1, x;
      }
    }

    /** The pointer that the loop follows. */
    method LeftChild(r: NodeRef, idx: nat, ghost level: nat, ghost p: nat, ghost b: nat) returns (c: Child)
      requires Valid() && Here(r, level, p) && b <= 255 && idx == b / 64 && Present(level, p, b)
      ensures PoolsOk() && Fits(St()) && Holds(St(), vals) && c == at[GPos(level, 4 * p + b / 64)]
      ensures (256 * p + b) / 64 == 4 * p + b / 64 && (256 * p + b) % 64 == b % 64 && (256 * p + b) / 256 == p
    {
      hide PoolsOk, Fits, Holds, Here, NodeAt, Exists;
      LeftNode(r, level, p, b);
      var w := Load(r, level, p);
      c := w.children[idx];
    }

    /** Where it starts. */
    lemma StartSeek(node: NodeRef, key: nat, from: nat, first: nat)
      requires Valid() && key < Pow2(8 * numLevels) && from < numLevels && first <= 255
      requires Here(node, from, Slot(key, numLevels, from) / 256)
      requires if from > 0 then Occ(vals.Keys, numLevels, from, 256 * (Slot(key, numLevels, from) / 256) + first)
        else NextRoot(key, first)
      ensures Present(from, Slot(key, numLevels, from) / 256, first)
      ensures from == 0 ==> Slot(key, numLevels, from) / 256 == 0
    {
      hide PoolsOk, Sound, Fits, Holds, Slot, Uniform, Here, NodeAt, Exists, Shows, HasAt, Occ, Present, NextRoot,
        Stands;
      ghost var ks := Uniform(numLevels, vals.Keys);
      UniformIs(numLevels, vals.Keys);
      IsSound(ks);
      NodeId(key, from);
      StartPresent(ks, node, key, from, Slot(key, numLevels, from) / 256, first);
    }

    /** What a node on this way holds. */
    lemma LeftNode(r: NodeRef, level: nat, p: nat, b: nat)
      requires Valid() && Here(r, level, p) && b <= 255 && Present(level, p, b)
      ensures PoolsOk() && Fits(St()) && Holds(St(), vals) && Exists(St(), level, p) && level < numLevels
      ensures |NodeAt(St(), level, p).children| == 4
      ensures NodeAt(St(), level, p).children[b / 64] == at[GPos(level, 4 * p + b / 64)]
      ensures (256 * p + b) / 64 == 4 * p + b / 64 && (256 * p + b) % 64 == b % 64 && (256 * p + b) / 256 == p
    {
      hide HasAt, Slot, Shows, Uniform, PoolsOk, Fits, Exists, NodeAt, Here;
      UniformIs(numLevels, vals.Keys);
      NodeHere(Uniform(numLevels, vals.Keys), r, level, p);
      SlotId(p, b);
    }

    /** One level of this loop: the node below, and its first set bit. */
    method SeekStep(ghost key: nat, c: Child, child: nat, ghost level: nat, ghost p: nat, ghost b: nat)
        returns (r: NodeRef, firstSetBit: nat)
      requires Valid() && level + 1 < numLevels && b <= 255 && child == b % 64
      requires Present(level, p, b) && c == at[GPos(level, 4 * p + b / 64)]
      requires AllFrom(vals.Keys, numLevels, level, key, 256 * p + b)
      ensures firstSetBit <= 256 && Here(r, level + 1, 256 * p + b)
        && (firstSetBit <= 255 <==> Occ(vals.Keys, numLevels, level, 256 * p + b))
      ensures firstSetBit <= 255 ==> AllFrom(vals.Keys, numLevels, level + 1, key, 256 * (256 * p + b) + firstSetBit)
      ensures firstSetBit <= 255 ==> Occ(vals.Keys, numLevels, level + 1, 256 * (256 * p + b) + firstSetBit)
      ensures firstSetBit <= 255 ==> Present(level + 1, 256 * p + b, firstSetBit)
    {
      hide PoolsOk, Sound, Fits, Holds, Slot, Uniform, Here, NodeAt, Exists, NoneAt, AllFrom, Shows, HasAt, Occ,
        IsFirst, Stands;
      ghost var ks := Uniform(numLevels, vals.Keys);
      UniformIs(numLevels, vals.Keys);
      IsSound(ks);
      ghost var x := 256 * p + b;
      NextNode(level, p, b);
      r := Inner(c.group, child);
      NodeHere(ks, r, level + 1, x);
      var w := Load(r, level + 1, x);
      firstSetBit := FirstSetBitInRange(w.bits, 0, 255);
      FirstIs(w.bits, 0, firstSetBit);
      SeekDown(w, at, vals.Keys, numLevels, level, key, x, firstSetBit);
      if firstSetBit <= 255 {
        BitGroup(St(), ks, level + 1, x, firstSetBit);
      }
    }

    ghost predicate Present(level: nat, p: nat, b: nat)
      reads this`at
    {
      GPos(level, 4 * p + b / 64) in at
    }

    static lemma SlotId(p: nat, b: nat)
      requires b <= 255
      ensures (256 * p + b) / 64 == 4 * p + b / 64 && (256 * p + b) % 64 == b % 64 && (256 * p + b) / 256 == p
    {
    }

    static lemma FirstIs(bits: seq<Word>, from: nat, r: nat)
      requires IsFirst(bits, from, 255, r) && |bits| == 4
      ensures r <= 256 && (r <= 255 ==> HasAt(bits, r))
    {
      hide HasAt;
    }

    /** A set bit has its group. */
    static lemma BitGroup(s: State, ks: seq<Keys>, level: nat, p: nat, b: nat)
      requires Sound(s, ks) && Exists(s, level, p) && b <= 255
      requires Fits(s) && |NodeAt(s, level, p).bits| == 4 && HasAt(NodeAt(s, level, p).bits, b)
      ensures GPos(level, 4 * p + b / 64) in s.at
    {
      hide Slot, Has;
      NodeShows(s, ks, level, p);
      SlotId(p, b);
      assert PresentFine(s, ks, GPos(level, 4 * p + b / 64));
      if level > 0 {
        assert Occ(ks[level], s.n, level, 256 * p + b);
        OccInGroup(ks[level], s.n, level, 256 * p + b);
      } else {
        HasSmall(s.root.bits[b / 64], b % 64);
      }
    }

    lemma StartPresent(ks: seq<Keys>, r: NodeRef, key: nat, level: nat, p: nat, b: nat)
      requires Stands(ks) && Here(r, level, p) && |ks| == numLevels && forall j :: 0 <= j < numLevels ==>
        ks[j] == vals.Keys
      requires b <= 255 && level < numLevels && p == Slot(key, numLevels, level) / 256
      requires if level > 0 then Occ(vals.Keys, numLevels, level, 256 * p + b) else NextRoot(key, b)
      ensures Present(level, p, b)
    {
      hide Slot, PoolsOk, Sound, Holds, Here, Shows, HasAt, Occ, Exists, NodeAt, Fits;
      NodeHere(ks, r, level, p);
      if level > 0 {
        OccShown(NodeAt(St(), level, p), at, vals.Keys, numLevels, level, p, b);
      }
      BitGroup(St(), ks, level, p, b);
    }

    static lemma OccShown(w: WNode, at: map<GPos, Child>, keys: Keys, n: nat, level: nat, p: nat, b: nat)
      requires level < n && Shows(w, at, keys, n, level, p) && b <= 255 && Occ(keys, n, level, 256 * p + b)
      ensures HasAt(w.bits, b)
    {
      hide HasAt, Occ;
    }

    lemma NextNode(level: nat, p: nat, b: nat)
      requires PoolsOk() && Fits(St()) && level + 1 < numLevels && Present(level, p, b) && b <= 255
      ensures var c := at[GPos(level, 4 * p + b / 64)];
        c.Nodes? && Here(Inner(c.group, b % 64), level + 1, 256 * p + b)
    {
      hide PoolsOk, Fits;
      SlotId(p, b);
      GroupHere(St(), GPos(level, 4 * p + b / 64));
    }

    /** treeFindGEQ. `inRange` tells whether the walk stays within the four pointers of a node. */
    method FindGeq(key: nat) returns (inRange: bool, value: Value)
      requires Valid()
      ensures numLevels > 0 && (inRange <==> !Strays(Low(key, numLevels)))
      ensures inRange && numLevels > 1 ==> IsGeqValue(vals, Low(key, numLevels), value)
      ensures numLevels == 1 ==> (IsGeqValue(vals, Low(key, numLevels), value) <==> !Misses(Low(key, numLevels)))
      ensures numLevels == 1 ==> forall b: nat :: FirstBit(Low(key, numLevels), b) ==> value == Lookup(vals, b)
    {
      hide PoolsOk, Sound, Fits, Holds, Slot, Uniform, Here, NoneAt, AllFrom, Occ, HasAt, Misses, Strays, Stands, Way,
        NextRoot, FirstBit, Low;
      IsSound(Uniform(numLevels, vals.Keys));
      ghost var q := Low(key, numLevels);
      var hit, v, nodes, level := SeekDescend(key, q);
      if hit {
        HitRight(q, v);
        return true, v;
      }
      var found, up, firstSetBit := SeekClimb(key, nodes, level, q);
      if !found {
        NothingRight(q);
        return true, 0;
      }
      WayHere(nodes, q, level, up);
      inRange, value := SeekLeft(q, nodes[up], up, firstSetBit);
      if up > 0 {
        NotStray(q, up, 256 * (Slot(q, numLevels, up) / 256) + firstSetBit);
      } else {
        SlotFirst(q, numLevels);
        RootRight(q, firstSetBit, value);
      }
    }

    lemma WayHere(nodes: seq<NodeRef>, k: nat, last: nat, level: nat)
      requires Way(nodes, k, last) && level <= last
      ensures |nodes| > level && Here(nodes[level], level, Slot(k, numLevels, level) / 256)
    {
    }

    /** The query itself. */
    lemma HitRight(q: nat, v: Value)
      requires numLevels > 0 && q < Pow2(8 * numLevels) && v == Lookup(vals, q)
      requires if numLevels > 1 then q in vals else HasAt(root.bits, q)
      ensures !Strays(q)
      ensures numLevels > 1 ==> IsGeqValue(vals, q, v)
      ensures numLevels == 1 ==> (IsGeqValue(vals, q, v) <==> !Misses(q))
      ensures numLevels == 1 ==> forall b: nat :: FirstBit(q, b) ==> v == Lookup(vals, b)
    {
      hide HasAt, Slot;
      if q in vals {
        assert LeastFrom(vals.Keys, q, q);
      }
      if numLevels == 1 {
        SlotFirst(q, 1);
        SlotLast(q, 1);
        FirstDecides(q, q, v);
      }
    }

    /** With a single level, the value at the first bit from the query on is the answer. */
    lemma FirstDecides(q: nat, b: nat, v: Value)
      requires FirstBit(q, b) && v == Lookup(vals, b) && forall k :: k in vals && q <= k ==> b <= k
      ensures IsGeqValue(vals, q, v) <==> !Misses(q)
      ensures forall c: nat :: FirstBit(q, c) ==> c == b
    {
      hide HasAt;
      if b in vals {
        assert LeastFrom(vals.Keys, q, b);
      } else if k: nat :| k in vals && q <= k {
        var m := LeastExists(vals.Keys, q, k);
      }
    }

    lemma NothingRight(q: nat)
      requires numLevels > 0 && forall k :: k in vals ==> k < q
      requires forall b: nat {:trigger HasAt(root.bits, b)} :: Slot(q, numLevels, 0) < b < 256 ==> !HasAt(root.bits, b)
      requires numLevels == 1 ==> q < Pow2(8) && !HasAt(root.bits, q)
      ensures !Strays(q) && IsGeqValue(vals, q, 0) && !Misses(q)
      ensures numLevels == 1 ==> forall b: nat :: !FirstBit(q, b)
    {
      hide HasAt, Slot;
      SlotLast(q, numLevels);
    }

    /** A later key below the query's root slot. */
    lemma NotStray(q: nat, level: nat, x: nat)
      requires 0 < level < numLevels && AllFrom(vals.Keys, numLevels, level, q, x)
        && Occ(vals.Keys, numLevels, level, x)
      requires x / 256 == Slot(q, numLevels, level) / 256
      ensures !Strays(q)
    {
      hide Slot, HasAt;
      var j: nat :| j in vals.Keys && Slot(j, numLevels, level) == x;
      if j < q {
        SlotMonotone(j, q, numLevels, level);
      }
      SlotUp(j, numLevels, level);
      SlotUp(q, numLevels, level);
      SameAbove(j, q, numLevels, level - 1, 0);
    }

    /** The slot found at the root. */
    lemma RootRight(q: nat, b: nat, v: Value)
      requires numLevels > 0 && Slot(q, numLevels, 0) < 256 && NoneAt(vals.Keys, numLevels, 0, q) && NextRoot(q, b)
      requires numLevels == 1 ==> v == Lookup(vals, b) && AllFrom(vals.Keys, 1, 0, q, b) && !HasAt(root.bits, q)
      ensures Strays(q) <==> numLevels > 1 && !Occ(vals.Keys, numLevels, 0, b)
      ensures numLevels == 1 ==> (IsGeqValue(vals, q, v) <==> !Misses(q))
      ensures numLevels == 1 ==> forall c: nat :: FirstBit(q, c) ==> v == Lookup(vals, c)
    {
      hide HasAt, Slot, Occ, NoneAt;
      forall c: nat | NextRoot(q, c)
        ensures c == b
      {
      }
      if numLevels == 1 {
        SlotLast(q, 1);
        SeekLast(vals, 1, q, b);
        assert FirstBit(q, b);
        AllFromOne(q, b);
        FirstDecides(q, b, v);
      }
    }

    lemma AllFromOne(q: nat, b: nat)
      requires AllFrom(vals.Keys, 1, 0, q, b)
      ensures forall k :: k in vals && q <= k ==> b <= k
    {
      forall k | k in vals && q <= k
        ensures b <= k
      {
        SlotLast(k, 1);
      }
    }

    /** Where the root is exact, every search is right. */
    lemma ExactNeverStrays(q: nat)
      requires Valid() && RootExact() && q < Pow2(8 * numLevels)
      ensures !Strays(q) && (numLevels == 1 ==> !Misses(q))
    {
      hide Slot, HasAt;
      IsSound(Uniform(numLevels, vals.Keys));
      if numLevels == 1 {
        forall b: nat | b < 256 && HasAt(root.bits, b)
          ensures b in vals
        {
          var j: nat :| j in vals.Keys && Slot(j, 1, 0) == b;
          SlotLast(j, 1);
        }
      }
    }

    // ---------- conservation ----------

    /** The pointer of a node that holds the group at a place. */
    ghost predicate PointsAt(level: nat, p: nat, i: nat, c: Child)
      requires Valid()
      reads this, nonLeafPool, nonLeafPool.blocks, nonLeafPool.Repr, leafPool, leafPool.blocks, leafPool.Repr
    {
      && Fits(St()) && Exists(St(), level, p) && i < 4 && c != NoChild
      && |NodeAt(St(), level, p).children| == 4 && NodeAt(St(), level, p).children[i] == c
    }

    ghost predicate IsLive(c: Child)
      reads nonLeafPool`live, leafPool`live
    {
      match c
      case NoChild => false
      case Nodes(o) => o in nonLeafPool.live
      case Leaves(o) => o in leafPool.live
    }

    /** Only live objects are pointed to, by one pointer each. */
    lemma PointersAreLive(level: nat, p: nat, i: nat, c: Child)
      requires Valid() && PointsAt(level, p, i, c)
      ensures IsLive(c) && loc.Keys >= {c} && loc[c] == GPos(level, 4 * p + i)
    {
      hide HasAt;
      var ks := Uniform(numLevels, vals.Keys);
      UniformIs(numLevels, vals.Keys);
      NodeShows(St(), ks, level, p);
      Footprints();
      GroupHere(St(), GPos(level, 4 * p + i));
    }

    lemma OnePointer(level: nat, p: nat, i: nat, level': nat, p': nat, i': nat, c: Child)
      requires Valid() && PointsAt(level, p, i, c) && PointsAt(level', p', i', c)
      ensures level == level' && p == p' && i == i'
    {
      PointersAreLive(level, p, i, c);
      PointersAreLive(level', p', i', c);
    }

    /** Below the root a group is given back with the last key that needs it. */
    lemma LiveIsNeeded(level: nat, p: nat, i: nat, c: Child)
      requires Valid() && PointsAt(level, p, i, c) && level > 0
      ensures level < numLevels && exists k: nat :: k in vals && Slot(k, numLevels, level) / 64 == 4 * p + i
    {
      hide HasAt, Slot, Shows, PoolsOk, Fits, Holds, NodeAt, Uniform;
      var ks := Uniform(numLevels, vals.Keys);
      UniformIs(numLevels, vals.Keys);
      IsSound(ks);
      NodeShows(St(), ks, level, p);
      ShowsChild(NodeAt(St(), level, p), at, ks[level], numLevels, level, p, i);
      assert PresentFine(St(), ks, GPos(level, 4 * p + i));
      var k: nat :| k in ks[level] && Slot(k, numLevels, level) / 64 == 4 * p + i;
    }

    /** Nothing leaks: every live object is pointed to. */
    lemma LiveIsPointed(c: Child) returns (level: nat, p: nat, i: nat)
      requires Valid() && IsLive(c)
      ensures PointsAt(level, p, i, c)
    {
      hide HasAt, Slot, Shows, PoolsOk, Fits, Sound, Holds, NodeAt, Uniform;
      var ks := Uniform(numLevels, vals.Keys);
      UniformIs(numLevels, vals.Keys);
      IsSound(ks);
      Footprints();
      LivePlaced(St(), ks, c);
      var gp := loc[c];
      level, p, i := gp.level, gp.id / 4, gp.id % 4;
      NodeShows(St(), ks, level, p);
      ShowsChild(NodeAt(St(), level, p), at, ks[level], numLevels, level, p, i);
    }

    static lemma LivePlaced(s: State, ks: seq<Keys>, c: Child)
      requires Sound(s, ks) && c != NoChild && (c.Nodes? ==> c.group in s.groups)
        && (c.Leaves? ==> c.values in s.leaves)
      requires forall i, j :: 0 <= i < j < |ks| ==> ks[i] == ks[j]
      ensures c in s.loc && s.loc[c] in s.at && s.at[s.loc[c]] == c && Exists(s, s.loc[c].level, s.loc[c].id / 4)
    {
      hide HasAt, Slot, NodeFine;
      var gp := s.loc[c];
      GroupHere(s, gp);
      assert PresentFine(s, ks, gp);
      if gp.level > 0 {
        NodeAbove(s, ks, gp);
      }
    }

    static lemma ShowsChild(w: WNode, at: map<GPos, Child>, keys: Keys, n: nat, level: nat, p: nat, i: nat)
      requires level < n && i < 4 && Shows(w, at, keys, n, level, p)
      ensures |w.children| == 4 && w.children[i] == Get(at, GPos(level, 4 * p + i))
    {
    }

    /** A group hangs from a node. */
    static lemma NodeAbove(s: State, ks: seq<Keys>, gp: GPos)
      requires Sound(s, ks) && gp in s.at && 0 < gp.level < s.n && ks[gp.level - 1] == ks[gp.level]
      ensures Exists(s, gp.level, gp.id / 4)
    {
      hide HasAt, Slot;
      assert PresentFine(s, ks, gp);
      var j: nat :| j in ks[gp.level] && Slot(j, s.n, gp.level) / 64 == gp.id;
      SlotUp(j, s.n, gp.level);
      SlotParts(Slot(j, s.n, gp.level));
      assert PresentFine(s, ks, GPos(gp.level - 1, gp.id / 4 / 64));
      assert OccGroup(ks[gp.level - 1], s.n, gp.level - 1, gp.id / 4 / 64);
      if gp.level == 1 {
        RootShows(s, ks, j);
      }
    }
  }
}
