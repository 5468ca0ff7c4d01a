/** Whole runs of the adaptive radix tree, against the finite map it stands for. */
module ArtRuns {
  import opened ArtNode
  import opened ArtShape
  import opened ArtWalk
  import opened Art

  datatype Op =
    | Insert(key: Key, value: Value)
    | InsertNoReplace(key: Key, value: Value)
    | Delete(key: Key)
    | Search(key: Key)
    | Size

  function Lookup(m: map<Key, Value>, key: Key): Value {
    if key in m then m[key] else 0
  }

  function After(m: map<Key, Value>, op: Op): map<Key, Value> {
    match op
    case Insert(k, v) => m[k := v]
    case InsertNoReplace(k, v) => if k in m then m else m[k := v]
    case Delete(k) => m - {k}
    case Search(_) => m
    case Size => m
  }

  function Answer(m: map<Key, Value>, op: Op): nat {
    match op
    case Size => |m|
    case _ => Lookup(m, op.key)
  }

  /** What a finite map answers to the operations, in order. */
  function Answers(m: map<Key, Value>, ops: seq<Op>): (r: seq<nat>)
    ensures |r| == |ops|
    decreases |ops|
  {
    if ops == [] then [] else [Answer(m, ops[0])] + Answers(After(m, ops[0]), ops[1..])
  }

  ghost predicate OfLength(op: Op, keyLen: nat) {
    op == Size || |op.key| == keyLen
  }

  /** Every run of a tree gives the answers of a finite map, whatever the operations are. */
  method Run(keyLen: nat, ops: seq<Op>) returns (r: seq<nat>)
    requires forall i :: 0 <= i < |ops| ==> OfLength(ops[i], keyLen)
    ensures r == Answers(map[], ops)
  {
    hide Tree.Linked, Tree.Contents, Lookup;
    var t := new Tree(keyLen);
    r := [];
    ghost var m: map<Key, Value> := map[];
    for i := 0 to |ops|
      invariant t.Valid() && fresh(t) && fresh(t.Repr) && t.keyLen == keyLen && t.Contents() == m
      invariant r + Answers(m, ops[i..]) == Answers(map[], ops)
    {
      assert ops[i..][0] == ops[i] && ops[i..][1..] == ops[i + 1..];
      var a := Step(t, ops[i]);
      r := r + [a];
      m := After(m, ops[i]);
    }
  }

  method Step(t: Tree, op: Op) returns (r: nat)
    requires t.Valid() && OfLength(op, t.keyLen)
    modifies t, t.Repr
    ensures t.Valid() && fresh(t.Repr - old(t.Repr))
    ensures t.Contents() == After(old(t.Contents()), op)
    ensures r == Answer(old(t.Contents()), op)
  {
    hide Tree.Linked;
    match op
    case Insert(k, v) => r := t.Insert(k, v);
    case InsertNoReplace(k, v) => r := t.InsertNoReplace(k, v);
    case Delete(k) => r := t.Delete(k);
    case Search(k) => r := t.Search(k);
    case Size =>
      assert |t.sh.leaves| == |t.sh.leaves.Keys| && |t.Contents()| == |t.Contents().Keys|;
      r := t.size;
  }

  ghost predicate LeadsOn(t: Tree, v: View, c: Byte, k: Key)
    reads t
  {
    k in t.sh.leaves && v.branch + [c] <= k
  }

  /** At every inner node the leaves below agree on the next `partialLen` bytes, of which the first ten are
      stored; then they go on with the branching bytes, of which there are at least two. */
  lemma CompressedPrefix(t: Tree, n: Node)
    requires t.Valid() && n in t.sh.view
    ensures var v := t.sh.view[n];
      && n.Allocated() && v.start + n.partialLen == |v.branch| < t.keyLen
      && (forall k :: k in t.Contents() && v.branch[..v.start] <= k ==> v.branch <= k)
      && (forall i :: 0 <= i < Min(MAX_PREFIX_LEN, n.partialLen) ==> n.partial[i] == v.branch[v.start + i])
      && n.Holds(v.kids) && Sized(n.kind, |v.kids|) && |v.kids| >= 2
      && (forall c: Byte {:trigger c in v.kids} :: c in v.kids <==> exists k :: LeadsOn(t, v, c, k))
  {
    hide HoldsLayout, Branches, Tree.Intact, Tree.AllApart, Tree.LeavesOwned;
    t.Unlink(n);
    var v := t.sh.view[n];
    assert NodeOk(t.sh, n);
    Tree.StoredPrefix(n, v);
    BranchShort(t.sh, t.keyLen, n);
    var c1, c2 := TwoKids(t.sh, t.keyLen, n);
    forall k | k in t.Contents() && v.branch[..v.start] <= k
      ensures v.branch <= k
    {
      assert Under(t.sh.leaves.Keys, v.branch[..v.start], k);
    }
    forall c: Byte
      ensures c in v.kids <==> exists k :: LeadsOn(t, v, c, k)
    {
      KidHasKey(t, n, c);
    }
  }

  lemma KidHasKey(t: Tree, n: Node, c: Byte)
    requires t.Linked() && n in t.sh.view
    ensures c in t.sh.view[n].kids <==> exists k :: LeadsOn(t, t.sh.view[n], c, k)
  {
    hide Ok, RefOk, Tree.Intact, Tree.AllApart, Tree.LeavesOwned;
    t.Unlink(n);
    var s := KidSlot(n, c);
    SlotKey(t.sh, t.keyLen, s);
    assert forall k {:trigger LeadsOn(t, t.sh.view[n], c, k)} :: LeadsOn(t, t.sh.view[n], c, k) ==>
      Under(t.sh.leaves.Keys, Position(t.sh, s), k);
    if c in t.sh.view[n].kids {
      assert t.sh.view[n].kids[c] != Null by { NoNullKid(t.sh, t.keyLen, n, c); }
      var k :| Under(t.sh.leaves.Keys, Position(t.sh, s), k);
      assert LeadsOn(t, t.sh.view[n], c, k);
    }
  }

  lemma NoNullKid(sh: Shape, keyLen: nat, n: Node, c: Byte)
    requires Ok(sh, keyLen) && n in sh.view && c in sh.view[n].kids
    ensures sh.view[n].kids[c] != Null
  {
    assert NodeOk(sh, n);
  }

  /** A reference is null exactly when no key goes through it. */
  lemma SlotKey(sh: Shape, keyLen: nat, s: Slot)
    requires Ok(sh, keyLen) && SlotIn(sh, s)
    ensures Get(sh, s) == Null <==> forall k :: !Under(sh.leaves.Keys, Position(sh, s), k)
  {
    assert SlotOk(sh, s);
    match Get(sh, s)
    case Null =>
    case LeafRef(l) => assert Under(sh.leaves.Keys, Position(sh, s), l.key);
    case NodeRef(n) =>
      assert NodeOk(sh, n);
      var k1, k2 :| Parts(sh.leaves.Keys, sh.view[n].branch, k1, k2);
      assert Under(sh.leaves.Keys, Position(sh, s), k1);
  }

  // ---------- the skeleton: everything but the node layouts ----------

  /** What a node stores of its compressed prefix. */
  datatype Header = Header(partialLen: nat, partial: seq<Byte>)

  ghost function Headers(t: Tree): map<Node, Header>
    reads t, t.sh.view.Keys, set n | n in t.sh.view :: n.partial
  {
    map n | n in t.sh.view :: Header(n.partialLen, n.partial[..])
  }

  ghost predicate SameHeader(h1: Header, h2: Header) {
    && h1.partialLen == h2.partialLen && |h1.partial| == |h2.partial| == MAX_PREFIX_LEN
    && forall i :: 0 <= i < Min(MAX_PREFIX_LEN, h1.partialLen) ==> h1.partial[i] == h2.partial[i]
  }

  ghost predicate HasTwin(sh1: Shape, sh2: Shape, n1: Node)
    requires n1 in sh1.view
  {
    exists n2 :: n2 in sh2.view && Counterparts(sh1, sh2, n1, n2)
  }

  ghost predicate TwinHeaders(sh1: Shape, hs1: map<Node, Header>, sh2: Shape, hs2: map<Node, Header>, n1: Node,
      n2: Node)
    requires n1 in sh1.view && n2 in sh2.view
  {
    Counterparts(sh1, sh2, n1, n2) ==> n1 in hs1 && n2 in hs2 && SameHeader(hs1[n1], hs2[n2])
  }

  /** Every node of one tree has a counterpart in the other, and counterparts store the same prefix. */
  ghost predicate SameSkeleton(sh1: Shape, hs1: map<Node, Header>, sh2: Shape, hs2: map<Node, Header>) {
    && LabelOf(sh1, sh1.root) == LabelOf(sh2, sh2.root)
    && (forall n1 :: n1 in sh1.view ==> HasTwin(sh1, sh2, n1))
    && (forall n2 :: n2 in sh2.view ==> HasTwin(sh2, sh1, n2))
    && (forall n1, n2 {:trigger TwinHeaders(sh1, hs1, sh2, hs2, n1, n2)} :: n1 in sh1.view && n2 in sh2.view ==>
      TwinHeaders(sh1, hs1, sh2, hs2, n1, n2))
  }

  ghost predicate Stored(v: View, h: Header) {
    && |h.partial| == MAX_PREFIX_LEN && h.partialLen + v.start == |v.branch|
    && forall i :: 0 <= i < Min(MAX_PREFIX_LEN, h.partialLen) ==> h.partial[i] == v.branch[v.start + i]
  }

  lemma HeadersStored(t: Tree)
    requires t.Valid()
    ensures t.root == t.sh.root && Ok(t.sh, t.keyLen) && AllStored(t.sh, Headers(t))
  {
    hide Ok, HoldsLayout, Tree.Intact, Tree.AllApart, Tree.LeavesOwned;
    forall n | n in t.sh.view
      ensures Stored(t.sh.view[n], Headers(t)[n])
    {
      t.Unlink(n);
      Tree.StoredPrefix(n, t.sh.view[n]);
    }
  }

  ghost predicate AllStored(sh: Shape, hs: map<Node, Header>) {
    forall n :: n in sh.view ==> n in hs && Stored(sh.view[n], hs[n])
  }

  lemma CanonicalSkeleton(sh1: Shape, hs1: map<Node, Header>, sh2: Shape, hs2: map<Node, Header>, keyLen: nat)
    requires Ok(sh1, keyLen) && Ok(sh2, keyLen) && sh1.leaves.Keys == sh2.leaves.Keys
    requires AllStored(sh1, hs1) && AllStored(sh2, hs2)
    ensures SameSkeleton(sh1, hs1, sh2, hs2)
  {
    hide Ok, LabelOf, Counterparts, TwinHeaders, AllStored, HasTwin;
    AllTwins(sh1, sh2, keyLen);
    AllTwins(sh2, sh1, keyLen);
    forall n1, n2 | n1 in sh1.view && n2 in sh2.view
      ensures TwinHeaders(sh1, hs1, sh2, hs2, n1, n2)
    {
      TwinsAgree(sh1, hs1, sh2, hs2, n1, n2);
    }
  }

  lemma AllTwins(sh1: Shape, sh2: Shape, keyLen: nat)
    requires Ok(sh1, keyLen) && Ok(sh2, keyLen) && sh1.leaves.Keys == sh2.leaves.Keys
    ensures LabelOf(sh1, sh1.root) == LabelOf(sh2, sh2.root) && forall n1 :: n1 in sh1.view ==> HasTwin(sh1, sh2, n1)
  {
    hide Ok, LabelOf, Counterparts;
    Canonical(sh1, sh2, keyLen);
  }

  lemma TwinsAgree(sh1: Shape, hs1: map<Node, Header>, sh2: Shape, hs2: map<Node, Header>, n1: Node, n2: Node)
    requires AllStored(sh1, hs1) && AllStored(sh2, hs2) && n1 in sh1.view && n2 in sh2.view
    ensures TwinHeaders(sh1, hs1, sh2, hs2, n1, n2)
  {
    hide LabelOf;
    assert Stored(sh1.view[n1], hs1[n1]) && Stored(sh2.view[n2], hs2[n2]);
  }

  /** Layouts aside, the tree is a function of the key set. */
  lemma SkeletonIsCanonical(t1: Tree, t2: Tree)
    requires t1.Valid() && t2.Valid() && t1.keyLen == t2.keyLen && t1.Contents().Keys == t2.Contents().Keys
    ensures t1.root == t1.sh.root && t2.root == t2.sh.root && SameSkeleton(t1.sh, Headers(t1), t2.sh, Headers(t2))
  {
    hide Ok, AllStored, SameSkeleton, Headers, Tree.Intact, Tree.AllApart, Tree.LeavesOwned;
    HeadersStored(t1);
    HeadersStored(t2);
    CanonicalSkeleton(t1.sh, Headers(t1), t2.sh, Headers(t2), t1.keyLen);
  }

  /** Deleting what was just inserted restores the map and the skeleton. */
  method InsertThenDelete(t: Tree, key: Key, value: Value)
    requires t.Valid() && |key| == t.keyLen && key !in t.Contents()
    modifies t, t.Repr
    ensures t.Valid() && t.Contents() == old(t.Contents())
    ensures SameSkeleton(old(t.sh), old(Headers(t)), t.sh, Headers(t))
  {
    hide Tree.Valid, AllStored, SameSkeleton, Headers, Tree.ValuesOf, Ok, Tree.Linked, Tree.Contents;
    HeadersStored(t);
    KeysOfContents(t);
    ghost var sh, hs := t.sh, Headers(t);
    PutAndTake(t, key, value);
    HeadersStored(t);
    KeysOfContents(t);
    CanonicalSkeleton(sh, hs, t.sh, Headers(t), t.keyLen);
  }

  method PutAndTake(t: Tree, key: Key, value: Value)
    requires t.Valid() && |key| == t.keyLen && key !in t.Contents()
    modifies t, t.Repr
    ensures t.Valid() && t.Contents() == old(t.Contents())
  {
    hide Tree.Valid, Tree.Contents;
    var _ := t.Insert(key, value);
    var _ := t.Delete(key);
  }

  lemma KeysOfContents(t: Tree)
    ensures t.Contents().Keys == t.sh.leaves.Keys
  {
  }
}
