/** Runs of the bit radix tree against the numbers of its nodes in the order of their insertion. */
module RadixRuns {
  import opened Bits
  import opened RadixShape
  import opened Radix

  lemma ShapeKeys(t: Tree)
    requires t.Valid()
    ensures Ok(t.lay.shape, t.keyBits) && t.rings.Keys == t.lay.shape.Values
  {
    HeadsKeys(t.lay, t.rings);
  }

  /** History independence: which key stands where depends on the stored keys alone. */
  lemma SameKeysSameShape(t1: Tree, t2: Tree)
    requires t1.Valid() && t2.Valid() && t1.keyBits == t2.keyBits && t1.rings.Keys == t2.rings.Keys
    ensures t1.lay.shape == t2.lay.shape
  {
    ShapeKeys(t1);
    ShapeKeys(t2);
    Canonical(t1.lay.shape, t2.lay.shape, t1.keyBits);
  }

  /** A fresh node put in and taken out again leaves every ring and every place as it was. */
  method InsertThenRemove(t: Tree, node: Node, key: nat)
    requires t.Valid() && node !in t.nodes && key < Pow2(t.keyBits)
    modifies t, node, t.nodes
    ensures t.Valid() && t.rings == old(t.rings) && t.nodes == old(t.nodes) && t.lay.shape == old(t.lay.shape)
  {
    hide Ok, Tree.Valid, Tree.Pushed;
    ghost var before, sh, bits := t.rings, t.lay.shape, t.keyBits;
    ShapeKeys(t);
    RingMembers(t, key);
    t.Insert(node, key);
    ghost var ring := if key in before then before[key] else [];
    assert t.rings == before[key := ring + [node]];
    RingMembers(t, key);
    t.Remove(node);
    TookLast(before, t.rings, key, ring, node);
    ShapeKeys(t);
    Canonical(sh, t.lay.shape, bits);
  }

  lemma RingMembers(t: Tree, key: nat)
    requires t.Valid()
    ensures key in t.rings ==> t.rings[key] != [] && forall n :: n in t.rings[key] ==> n in t.nodes && n.key == key
  {
    assert key in t.rings ==> OneRing(t.rings, t.nodes, key);
  }

  lemma TookLast<T>(before: map<nat, seq<T>>, after: map<nat, seq<T>>, k: nat, ring: seq<T>, x: T)
    requires x !in ring && if k in before then ring == before[k] && ring != [] else ring == []
    requires ring + [x] == [x] ==> after == before[k := ring + [x]] - {k}
    requires ring + [x] != [x] ==>
      exists i :: 0 <= i < |ring + [x]| && (ring + [x])[i] == x
        && after == before[k := ring + [x]][k := (ring + [x])[..i] + (ring + [x])[i + 1..]]
    ensures after == before
  {
    if ring == [] {
      assert ring + [x] == [x];
    } else {
      var s := ring + [x];
      assert |s| > 1;
      var i :| 0 <= i < |s| && s[i] == x && after == before[k := s][k := s[..i] + s[i + 1..]];
      assert i == |ring| && s[..i] + s[i + 1..] == ring;
    }
  }

  // ---------- runs ----------

  datatype Op = Add(key: nat) | Drop(id: nat) | FindGeq(key: nat)

  /** The key of every node so far, in the order of their insertion, and the numbers of those in the tree. */
  datatype World = World(keys: seq<nat>, live: set<nat>)

  const EMPTY := World([], {})

  ghost predicate Allowed(w: World, op: Op, bits: nat) {
    match op
    case Add(k) => k < Pow2(bits)
    case Drop(id) => id in w.live
    case FindGeq(k) => k < Pow2(bits)
  }

  ghost function After(w: World, op: Op): World {
    match op
    case Add(k) => World(w.keys + [k], w.live + {|w.keys|})
    case Drop(id) => w.(live := w.live - {id})
    case FindGeq(_) => w
  }

  /** `r` is the oldest of the nodes in the tree with the least key that is not less than the query. */
  ghost predicate Oldest(w: World, hs: seq<Node>, q: nat, id: nat, r: Node?) {
    && id in w.live && id < |w.keys| && id < |hs| && r == hs[id] && q <= w.keys[id]
    && forall j :: j in w.live && j < |w.keys| && q <= w.keys[j] ==>
      w.keys[id] < w.keys[j] || (w.keys[id] == w.keys[j] && id <= j)
  }

  ghost predicate Right(w: World, hs: seq<Node>, op: Op, r: Node?) {
    match op
    case FindGeq(q) =>
      if r == null then forall id :: id in w.live && id < |w.keys| ==> w.keys[id] < q
      else exists id :: Oldest(w, hs, q, id, r)
    case Add(_) => |w.keys| < |hs| && r == hs[|w.keys|]
    case Drop(_) => r == null
  }

  ghost predicate Runs(w: World, ops: seq<Op>, bits: nat)
    decreases |ops|
  {
    ops != [] ==> Allowed(w, ops[0], bits) && Runs(After(w, ops[0]), ops[1..], bits)
  }

  /** Every answer of a run is right for the world it was asked in. */
  ghost predicate Answered(w: World, ops: seq<Op>, hs: seq<Node>, rs: seq<Node?>)
    requires |rs| == |ops|
    decreases |ops|
  {
    ops != [] ==>
      Right(w, hs, ops[0], rs[0]) && Answered(After(w, ops[0]), ops[1..], hs, rs[1..])
  }

  /** The nodes of a tree are the numbered ones, and its rings are queues. */
  ghost predicate Mirrors(t: Tree, w: World, hs: seq<Node>)
    reads t
  {
    Numbered(w, hs) && Queues(t.rings, w, hs)
  }

  ghost predicate Numbered(w: World, hs: seq<Node>) {
    && |hs| == |w.keys| && (forall i, j :: 0 <= i < j < |hs| ==> hs[i] != hs[j])
    && forall id :: id in w.live ==> id < |w.keys|
  }

  ghost predicate Queues(rings: map<nat, seq<Node>>, w: World, hs: seq<Node>) {
    && (forall k {:trigger k in rings} :: k in rings ==> exists ids :: Queue(rings[k], ids, w, hs, k))
    && forall id :: id in w.live && id < |w.keys| ==> w.keys[id] in rings
  }

  /** The ring of key `k` has the nodes in the tree with this key, in the order of their numbers. */
  ghost predicate Queue(ring: seq<Node>, ids: seq<nat>, w: World, hs: seq<Node>, k: nat) {
    && |ids| == |ring| && (forall i, j :: 0 <= i < j < |ids| ==> ids[i] < ids[j])
    && (forall i :: 0 <= i < |ids| ==> InQueue(ring[i], ids[i], w, hs, k))
    && forall id :: id in w.live && id < |w.keys| && w.keys[id] == k ==> id in ids
  }

  ghost predicate InQueue(n: Node, id: nat, w: World, hs: seq<Node>, k: nat) {
    id in w.live && id < |w.keys| && id < |hs| && w.keys[id] == k && n == hs[id]
  }

  lemma AddQueues(before: map<nat, seq<Node>>, w: World, hs: seq<Node>, n: Node, k: nat)
    requires Numbered(w, hs) && Queues(before, w, hs) && n !in hs
    ensures Numbered(After(w, Add(k)), hs + [n])
    ensures Queues(before[k := (if k in before then before[k] else []) + [n]], After(w, Add(k)), hs + [n])
  {
    hide Queue;
    var ring := if k in before then before[k] else [];
    var w', rings := After(w, Add(k)), before[k := ring + [n]];
    forall j | j in rings
      ensures exists ids :: Queue(rings[j], ids, w', hs + [n], j)
    {
      if j != k {
        var ids :| Queue(before[j], ids, w, hs, j);
        AddElsewhere(before[j], ids, w, hs, n, k, j);
        assert Queue(rings[j], ids, w', hs + [n], j);
      } else {
        if k !in before {
          NoQueue(w, hs, k);
        }
        var ids: seq<nat> :| Queue(ring, ids, w, hs, k);
        AddLast(ring, ids, w, hs, n, k);
      }
    }
  }

  lemma NoQueue(w: World, hs: seq<Node>, k: nat)
    requires forall id :: id in w.live && id < |w.keys| ==> w.keys[id] != k
    ensures Queue([], [], w, hs, k)
  {
  }

  lemma AddElsewhere(ring: seq<Node>, ids: seq<nat>, w: World, hs: seq<Node>, n: Node, k: nat, j: nat)
    requires Numbered(w, hs) && Queue(ring, ids, w, hs, j) && j != k
    ensures Queue(ring, ids, After(w, Add(k)), hs + [n], j)
  {
  }

  /** The new node is the last of its ring. */
  lemma AddLast(ring: seq<Node>, ids: seq<nat>, w: World, hs: seq<Node>, n: Node, k: nat)
    requires Numbered(w, hs) && Queue(ring, ids, w, hs, k)
    ensures Queue(ring + [n], ids + [|w.keys|], After(w, Add(k)), hs + [n], k)
  {
    var ids' := ids + [|w.keys|];
    assert ids'[|ids|] == |w.keys|;
    forall id | id in ids
      ensures id in ids'
    {
    }
  }

  lemma DropQueues(before: map<nat, seq<Node>>, rings: map<nat, seq<Node>>, w: World, hs: seq<Node>, id: nat)
    requires Numbered(w, hs) && Queues(before, w, hs) && id in w.live && w.keys[id] in before
    requires before[w.keys[id]] == [hs[id]] ==> rings == before - {w.keys[id]}
    requires before[w.keys[id]] != [hs[id]] ==>
      var ring := before[w.keys[id]];
      exists i :: 0 <= i < |ring| && ring[i] == hs[id] && rings == before[w.keys[id] := ring[..i] + ring[i + 1..]]
    ensures Numbered(After(w, Drop(id)), hs) && Queues(rings, After(w, Drop(id)), hs)
  {
    hide Queue;
    var w', k := After(w, Drop(id)), w.keys[id];
    var ring := before[k];
    var ids :| Queue(ring, ids, w, hs, k);
    forall j | j in rings
      ensures exists ids :: Queue(rings[j], ids, w', hs, j)
    {
      if j != k {
        var js :| Queue(before[j], js, w, hs, j);
        OtherQueue(before[j], js, w, hs, id, j);
        assert Queue(rings[j], js, w', hs, j);
      } else {
        var i :| 0 <= i < |ring| && ring[i] == hs[id] && rings == before[k := ring[..i] + ring[i + 1..]];
        var rest := DropOne(ring, ids, w, hs, id, k, i);
        assert rings[j] == ring[..i] + ring[i + 1..] && Queue(rings[j], rest, w', hs, j);
      }
    }
    if ring == [hs[id]] {
      OnlyOne(ids, w, hs, id, k);
    }
  }

  lemma OtherQueue(ring: seq<Node>, ids: seq<nat>, w: World, hs: seq<Node>, id: nat, j: nat)
    requires Queue(ring, ids, w, hs, j) && id < |w.keys| && w.keys[id] != j
    ensures Queue(ring, ids, After(w, Drop(id)), hs, j)
  {
  }

  lemma OnlyOne(ids: seq<nat>, w: World, hs: seq<Node>, id: nat, k: nat)
    requires Numbered(w, hs) && id in w.live && Queue([hs[id]], ids, w, hs, k)
    ensures forall j :: j in w.live && w.keys[j] == k ==> j == id
  {
    assert ids == [ids[0]] && hs[ids[0]] == hs[id];
  }

  /** A node that goes leaves the others in order. */
  lemma DropOne(ring: seq<Node>, ids: seq<nat>, w: World, hs: seq<Node>, id: nat, k: nat, i: nat)
      returns (ids': seq<nat>)
    requires Numbered(w, hs) && Queue(ring, ids, w, hs, k) && id in w.live && i < |ring| && ring[i] == hs[id]
    ensures Queue(ring[..i] + ring[i + 1..], ids', After(w, Drop(id)), hs, k)
  {
    ids' := ids[..i] + ids[i + 1..];
    var ring' := ring[..i] + ring[i + 1..];
    assert InQueue(ring[i], ids[i], w, hs, k);
    OneLess(ids, i);
    forall m | 0 <= m < |ids'|
      ensures InQueue(ring'[m], ids'[m], After(w, Drop(id)), hs, k)
    {
      var n := if m < i then m else m + 1;
      assert InQueue(ring[n], ids[n], w, hs, k);
    }
    forall j | j in w.live && j != id && w.keys[j] == k
      ensures j in ids'
    {
      var m :| 0 <= m < |ids| && ids[m] == j;
      assert ids'[if m < i then m else m - 1] == j;
    }
  }

  /** An ascending sequence without one of its elements. */
  lemma OneLess(ids: seq<nat>, i: nat)
    requires i < |ids| && forall a, b :: 0 <= a < b < |ids| ==> ids[a] < ids[b]
    ensures var ids' := ids[..i] + ids[i + 1..];
      && (forall a, b :: 0 <= a < b < |ids'| ==> ids'[a] < ids'[b])
      && forall a :: 0 <= a < |ids'| ==> ids'[a] != ids[i]
  {
  }

  /** The numbered nodes that are alive are in the tree. */
  lemma LiveNode(t: Tree, w: World, hs: seq<Node>, id: nat)
    requires t.Valid() && Mirrors(t, w, hs) && id in w.live
    ensures hs[id] in t.nodes && hs[id].key == w.keys[id]
  {
    var k := w.keys[id];
    RingMembers(t, k);
    var ids :| Queue(t.rings[k], ids, w, hs, k);
    var i :| 0 <= i < |ids| && ids[i] == id;
    assert t.rings[k][i] == hs[id];
  }

  method Step(t: Tree, ghost w: World, hs: seq<Node>, op: Op, bits: nat) returns (hs': seq<Node>, r: Node?)
    requires t.Valid() && t.keyBits == bits && Mirrors(t, w, hs) && Allowed(w, op, bits)
    modifies t, t.nodes
    ensures t.Valid() && fresh(t.nodes - old(t.nodes)) && Mirrors(t, After(w, op), hs') && hs <= hs'
    ensures Right(w, hs', op, r)
  {
    hide Ok, Tree.Valid, Tree.Pushed, Numbered, Queues;
    hs', r := hs, null;
    ghost var before := t.rings;
    IsNumbered(t, w, hs);
    match op
    case Add(k) =>
      var n := new Node();
      t.Insert(n, k);
      hs', r := hs + [n], n;
      AddQueues(before, w, hs, n, k);
    case Drop(id) =>
      LiveNode(t, w, hs, id);
      t.Remove(hs[id]);
      DropQueues(before, t.rings, w, hs, id);
    case FindGeq(q) =>
      r := t.FindGeq(q);
      if r != null {
        FoundOldest(t, w, hs, q, r.key, r);
      }
  }

  lemma IsNumbered(t: Tree, w: World, hs: seq<Node>)
    requires Mirrors(t, w, hs)
    ensures |hs| == |w.keys| && forall id :: id in w.live ==> id < |w.keys| && w.keys[id] in t.rings
    ensures forall i, j :: 0 <= i < j < |hs| ==> hs[i] != hs[j]
  {
  }

  lemma FoundOldest(t: Tree, w: World, hs: seq<Node>, q: nat, k: nat, r: Node)
    requires Mirrors(t, w, hs) && k in t.rings && t.rings[k] != [] && r == t.rings[k][0] && q <= k
    requires forall j :: j in t.rings && q <= j ==> k <= j
    ensures exists id :: Oldest(w, hs, q, id, r)
  {
    var ids :| Queue(t.rings[k], ids, w, hs, k);
    assert Oldest(w, hs, q, ids[0], r);
  }

  /** Every run of insertions and removals: a query answers with the oldest node of the least key. */
  method Run(t: Tree, ghost w: World, hs: seq<Node>, ops: seq<Op>, bits: nat) returns (hs': seq<Node>, rs: seq<Node?>)
    requires t.Valid() && t.keyBits == bits && Mirrors(t, w, hs) && Runs(w, ops, bits)
    modifies t, t.nodes
    ensures hs <= hs' && |rs| == |ops| && Answered(w, ops, hs', rs)
    ensures forall i, j :: 0 <= i < j < |hs'| ==> hs'[i] != hs'[j]
    decreases |ops|
  {
    hide Ok, Tree.Valid, Tree.Pushed, Mirrors, Right;
    if ops == [] {
      IsNumbered(t, w, hs);
      return hs, [];
    }
    var hs1, r := Step(t, w, hs, ops[0], bits);
    var rest;
    hs', rest := Run(t, After(w, ops[0]), hs1, ops[1..], bits);
    RightLater(w, hs1, hs', ops[0], r);
    rs := [r] + rest;
  }

  lemma RightLater(w: World, hs: seq<Node>, hs': seq<Node>, op: Op, r: Node?)
    requires Right(w, hs, op, r) && hs <= hs'
    ensures Right(w, hs', op, r)
  {
    if op.FindGeq? && r != null {
      var id :| Oldest(w, hs, op.key, id, r);
      assert Oldest(w, hs', op.key, id, r);
    }
  }

  /** A run from an empty tree. */
  method RunAll(bits: nat, ops: seq<Op>) returns (hs: seq<Node>, rs: seq<Node?>)
    requires Runs(EMPTY, ops, bits)
    ensures |rs| == |ops| && Answered(EMPTY, ops, hs, rs)
    ensures forall i, j :: 0 <= i < j < |hs| ==> hs[i] != hs[j]
  {
    var t := new Tree(bits);
    hs, rs := Run(t, EMPTY, [], ops, bits);
  }
}
