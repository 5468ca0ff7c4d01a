/** Runs of the wide radix tree against a map in which the first value of a key that is not 0 stays, and the set
    of root slots that keys have been put into. A key whose value is 0 is stored, but reads as if it were not. */
module WideRuns {
  import opened Bits
  import Word
  import opened WideShape
  import opened WideSeek
  import opened Wide

  datatype Op = Insert(key: nat, value: Value) | Remove(key: nat) | Find(key: nat) | FindGeq(key: nat)

  /** What an operation gives back: a value, after a walk within the pointers of the nodes or not. */
  datatype Answer = Answer(inRange: bool, value: Value)

  /** The stored keys, and the root slots of all keys so far. */
  datatype World = World(vals: map<nat, Value>, slots: set<nat>)

  const START := World(map[], {})

  function After(w: World, op: Op, n: nat): World
    requires n > 0
  {
    var k := Low(op.key, n);
    match op
    case Insert(_, v) => World(if Lookup(w.vals, k) != 0 then w.vals else w.vals[k := v], w.slots + {Slot(k, n, 0)})
    case Remove(_) => w.(vals := w.vals - {k})
    case _ => w
  }

  /** `b` is the first root slot from `from` on that a key has been put into. */
  ghost predicate FirstSlot(w: World, from: nat, b: nat) {
    b in w.slots && from <= b && forall c: nat :: c in w.slots && from <= c ==> b <= c
  }

  /** No key from `q` on is in the root slot of `q`, and the next root slot that ever had a key has none now. */
  ghost predicate Strays(w: World, q: nat, n: nat)
    requires n > 0
  {
    && n > 1 && NoneAt(w.vals.Keys, n, 0, q)
    && exists b: nat :: FirstSlot(w, Slot(q, n, 0) + 1, b) && !Occ(w.vals.Keys, n, 0, b)
  }

  /** With one level, the first key from `q` on that ever was is gone, and the first that is there has a value. */
  ghost predicate Misses(w: World, q: nat) {
    && (exists m: nat :: LeastFrom(w.vals.Keys, q, m) && w.vals[m] != 0)
    && exists b: nat :: FirstSlot(w, q, b) && b !in w.vals
  }

  /** What an operation must answer, and exactly when a search for a successor fails to. */
  ghost predicate Right(w: World, op: Op, a: Answer, n: nat)
    requires n > 0
  {
    var k := Low(op.key, n);
    if !op.FindGeq? then a == Answer(true, Lookup(w.vals, k))
    else
      && (a.inRange <==> !Strays(w, k, n))
      && (n > 1 && a.inRange ==> IsGeqValue(w.vals, k, a.value))
      && (n == 1 ==> (IsGeqValue(w.vals, k, a.value) <==> !Misses(w, k)))
      && (n == 1 ==> forall b: nat :: FirstSlot(w, k, b) ==> a.value == Lookup(w.vals, b))
  }

  ghost predicate Answered(w: World, ops: seq<Op>, answers: seq<Answer>, n: nat)
    requires n > 0 && |answers| == |ops|
    decreases |ops|
  {
    ops != [] ==> Right(w, ops[0], answers[0], n) && Answered(After(w, ops[0], n), ops[1..], answers[1..], n)
  }

  // ---------- a tree and its world ----------

  /** The tree holds the map, and the bits of its root are the slots. */
  ghost predicate Mirrors(t: Tree, w: World)
    reads t`root, t`vals
  {
    && t.vals == w.vals && |t.root.bits| == 4
    && (forall b {:trigger b in w.slots} :: b in w.slots ==> b < 256)
    && forall b: nat {:trigger Word.HasAt(t.root.bits, b)} :: b < 256 ==> (Word.HasAt(t.root.bits, b) <==> b in w.slots)
  }

  lemma SameFirst(t: Tree, w: World, from: nat, b: nat)
    requires Mirrors(t, w)
    ensures t.FirstBit(from, b) <==> FirstSlot(w, from, b)
  {
    hide Word.HasAt;
    if t.FirstBit(from, b) {
      assert forall c: nat :: c in w.slots ==> Word.HasAt(t.root.bits, c);
    }
    if FirstSlot(w, from, b) {
      forall c: nat | from <= c < b
        ensures !Word.HasAt(t.root.bits, c)
      {
        assert b < 256 && c !in w.slots;
      }
    }
  }

  lemma SameNext(t: Tree, w: World, q: nat, b: nat)
    requires Mirrors(t, w) && t.numLevels > 0
    ensures t.NextRoot(q, b) <==> FirstSlot(w, Slot(q, t.numLevels, 0) + 1, b)
  {
    hide Word.HasAt, Mirrors, FirstSlot, Slot;
    SameFirst(t, w, Slot(q, t.numLevels, 0) + 1, b);
  }

  /** The two failures, in terms of the map and the slots. */
  lemma SameFailures(t: Tree, w: World, q: nat)
    requires Mirrors(t, w) && t.numLevels > 0
    ensures t.Strays(q) <==> Strays(w, q, t.numLevels)
    ensures t.Misses(q) <==> Misses(w, q)
    ensures forall b: nat :: t.FirstBit(q, b) <==> FirstSlot(w, q, b)
  {
    hide Word.HasAt, Slot, Occ, NoneAt, Mirrors, Tree.FirstBit, Tree.NextRoot, FirstSlot;
    forall b: nat
      ensures t.FirstBit(q, b) <==> FirstSlot(w, q, b)
      ensures t.NextRoot(q, b) <==> FirstSlot(w, Slot(q, t.numLevels, 0) + 1, b)
    {
      SameFirst(t, w, q, b);
      SameNext(t, w, q, b);
    }
    SameVals(t, w);
  }

  lemma SameVals(t: Tree, w: World)
    requires Mirrors(t, w)
    ensures t.vals == w.vals && |t.root.bits| == 4
  {
  }

  /** The root after an insertion. */
  lemma SlotAdded(t: Tree, w: World, w': World, root: WNode, k: nat)
    requires t.numLevels > 0 && k < Pow2(8 * t.numLevels) && |root.bits| == 4 && (forall b :: b in w.slots ==> b < 256)
    requires forall b: nat {:trigger Word.HasAt(root.bits, b)} :: b < 256 ==>
      (Word.HasAt(root.bits, b) <==> b in w.slots)
    requires Tree.OneBitMore(root, t.root, Slot(k, t.numLevels, 0)) && t.vals == w'.vals
      && w'.slots == w.slots + {Slot(k, t.numLevels, 0)}
    ensures Mirrors(t, w')
  {
    hide Word.HasAt, Slot;
    SlotFirst(k, t.numLevels);
  }

  lemma BitsAreSlots(t: Tree, w: World)
    requires Mirrors(t, w)
    ensures |t.root.bits| == 4 && (forall b :: b in w.slots ==> b < 256)
    ensures forall b: nat {:trigger Word.HasAt(t.root.bits, b)} :: b < 256 ==>
      (Word.HasAt(t.root.bits, b) <==> b in w.slots)
  {
  }

  method Step(t: Tree, ghost w: World, op: Op) returns (a: Answer)
    requires t.Valid() && t.numLevels > 0 && Mirrors(t, w)
    modifies t, t.nonLeafPool.Repr, t.leafPool.Repr
    ensures t.Valid() && fresh(t.nonLeafPool.Repr - old(t.nonLeafPool.Repr))
      && fresh(t.leafPool.Repr - old(t.leafPool.Repr))
    ensures Mirrors(t, After(w, op, t.numLevels)) && Right(w, op, a, t.numLevels)
  {
    hide Tree.Valid, Tree.RootExact, Tree.Strays, Tree.Misses, Tree.FirstBit, Tree.OneBitMore, Strays, Misses,
      FirstSlot, Word.HasAt, Slot, Low, IsGeqValue;
    BitsAreSlots(t, w);
    var r, inRange := 0, true;
    ghost var root := t.root;
    match op {
      case Insert(key, v) =>
        r := t.InsertOrReturnExisting(key, v);
        SlotAdded(t, w, After(w, op, t.numLevels), root, Low(key, t.numLevels));
      case Remove(key) =>
        r := t.Remove(key);
      case Find(key) =>
        r := t.Find(key);
      case FindGeq(key) =>
        inRange, r := t.FindGeq(key);
        SameFailures(t, w, Low(key, t.numLevels));
    }
    a := Answer(inRange, r);
  }

  /** Every run answers as the map does, whatever memory the pools recycle on the way. A search for a
      successor fails exactly where the map and the root slots of the run say so. */
  method Run(numLevels: nat, ops: seq<Op>) returns (answers: seq<Answer>)
    requires 0 < numLevels <= 8
    ensures |answers| == |ops| && Answered(START, ops, answers, numLevels)
  {
    hide Tree.Valid, Tree.RootExact, Word.HasAt;
    var t := new Tree(8 * numLevels, 0);
    Tree.BlankRoot(t.root);
    answers := RunFrom(t, START, ops);
  }

  method RunFrom(t: Tree, ghost w: World, ops: seq<Op>) returns (answers: seq<Answer>)
    requires t.Valid() && t.numLevels > 0 && Mirrors(t, w)
    modifies t, t.nonLeafPool.Repr, t.leafPool.Repr
    ensures |answers| == |ops| && Answered(w, ops, answers, t.numLevels)
    decreases |ops|
  {
    hide Tree.Valid, Mirrors, Right;
    if ops == [] {
      return [];
    }
    var a := Step(t, w, ops[0]);
    var rest := RunFrom(t, After(w, ops[0], t.numLevels), ops[1..]);
    answers := [a] + rest;
  }

  // ---------- runs in which no removal empties a root slot ----------

  /** No removal takes the last key out of its root slot. */
  ghost predicate KeepsSlots(w: World, ops: seq<Op>, n: nat)
    requires n > 0
    decreases |ops|
  {
    ops != [] ==>
      && (ops[0].Remove? ==> var k := Low(ops[0].key, n); k !in w.vals || Occ(w.vals.Keys - {k}, n, 0, Slot(k, n, 0)))
      && KeepsSlots(After(w, ops[0], n), ops[1..], n)
  }

  /** Every search for a successor finds it. */
  ghost predicate AllFound(w: World, ops: seq<Op>, answers: seq<Answer>, n: nat)
    requires n > 0 && |answers| == |ops|
    decreases |ops|
  {
    ops != [] ==>
      && (ops[0].FindGeq? ==> answers[0].inRange && IsGeqValue(w.vals, Low(ops[0].key, n), answers[0].value))
      && AllFound(After(w, ops[0], n), ops[1..], answers[1..], n)
  }

  ghost predicate SlotsUsed(w: World, n: nat)
    requires n > 0
  {
    forall b :: b in w.slots ==> Occ(w.vals.Keys, n, 0, b)
  }

  lemma StaysUsed(w: World, op: Op, n: nat)
    requires n > 0 && SlotsUsed(w, n) && KeepsSlots(w, [op], n)
    ensures SlotsUsed(After(w, op, n), n)
  {
    hide Slot, Low;
    var w', k := After(w, op, n), Low(op.key, n);
    forall b | b in w'.slots
      ensures Occ(w'.vals.Keys, n, 0, b)
    {
      if op.Remove? && k in w.vals {
        SharedSlot(w.vals.Keys, k, n, 0, b);
      } else if op.Insert? && b == Slot(k, n, 0) {
        assert k in w'.vals.Keys;
      } else {
        var j: nat :| j in w.vals.Keys && Slot(j, n, 0) == b;
        assert j in w'.vals.Keys;
      }
    }
  }

  /** Where every root slot is used, no search fails. */
  lemma UsedNeverFails(w: World, q: nat, n: nat)
    requires n > 0 && SlotsUsed(w, n)
    ensures !Strays(w, q, n) && (n == 1 ==> !Misses(w, q))
  {
    hide Slot;
    if n == 1 {
      forall b | b in w.slots
        ensures b in w.vals
      {
        var j: nat :| j in w.vals.Keys && Slot(j, 1, 0) == b;
        SlotLast(j, 1);
      }
    }
  }

  /** If no removal empties a root slot, every search of the run is right. */
  lemma {:induction false} SafeRun(w: World, ops: seq<Op>, answers: seq<Answer>, n: nat)
    requires n > 0 && |answers| == |ops| && Answered(w, ops, answers, n) && KeepsSlots(w, ops, n) && SlotsUsed(w, n)
    ensures AllFound(w, ops, answers, n)
    decreases |ops|
  {
    hide Slot, Low, Strays, Misses, SlotsUsed, FirstSlot, IsGeqValue, Occ;
    if ops != [] {
      UsedNeverFails(w, Low(ops[0].key, n), n);
      assert KeepsSlots(w, [ops[0]], n);
      StaysUsed(w, ops[0], n);
      SafeRun(After(w, ops[0], n), ops[1..], answers[1..], n);
    }
  }

  /** So it is for runs that only insert and search. */
  lemma {:induction false} NoRemovals(w: World, ops: seq<Op>, n: nat)
    requires n > 0 && forall i :: 0 <= i < |ops| ==> !ops[i].Remove?
    ensures KeepsSlots(w, ops, n)
    decreases |ops|
  {
    if ops != [] {
      NoRemovals(After(w, ops[0], n), ops[1..], n);
    }
  }

  method RunSafely(numLevels: nat, ops: seq<Op>) returns (answers: seq<Answer>)
    requires 0 < numLevels <= 8 && KeepsSlots(START, ops, numLevels)
    ensures |answers| == |ops| && Answered(START, ops, answers, numLevels) && AllFound(START, ops, answers, numLevels)
  {
    answers := Run(numLevels, ops);
    SafeRun(START, ops, answers, numLevels);
  }

  // ---------- runs that fail ----------

  /** One removal is enough for a search to stray: the root still shows the slot of the removed key. */
  method EmptiedSlotStrays() returns (answers: seq<Answer>)
    ensures |answers| == 3 && answers[0] == Answer(true, 0) && answers[1] == Answer(true, 7) && !answers[2].inRange
  {
    hide Right;
    var ops := [Insert(256, 7), Remove(256), FindGeq(0)];
    answers := Run(2, ops);
    ThreeAnswers(START, ops, answers, 2);
    Strayed(answers);
  }

  lemma ThreeAnswers(w: World, ops: seq<Op>, answers: seq<Answer>, n: nat)
    requires n > 0 && |ops| == |answers| >= 3 && Answered(w, ops, answers, n)
    ensures Right(w, ops[0], answers[0], n)
    ensures var w1 := After(w, ops[0], n); Right(w1, ops[1], answers[1], n)
    ensures var w2 := After(After(w, ops[0], n), ops[1], n); Right(w2, ops[2], answers[2], n)
    ensures Answered(After(After(After(w, ops[0], n), ops[1], n), ops[2], n), ops[3..], answers[3..], n)
  {
    hide Right, After;
    var w1 := After(w, ops[0], n);
    var w2 := After(w1, ops[1], n);
    assert ops[1..][1..] == ops[2..] && ops[2..][1..] == ops[3..];
    assert answers[1..][1..] == answers[2..] && answers[2..][1..] == answers[3..];
    assert Answered(w1, ops[1..], answers[1..], n);
    assert Answered(w2, ops[2..], answers[2..], n);
  }

  lemma Strayed(answers: seq<Answer>)
    requires |answers| == 3
    requires Right(START, Insert(256, 7), answers[0], 2)
    requires var w := After(START, Insert(256, 7), 2); Right(w, Remove(256), answers[1], 2)
    requires var w := After(After(START, Insert(256, 7), 2), Remove(256), 2); Right(w, FindGeq(0), answers[2], 2)
    ensures answers[0] == Answer(true, 0) && answers[1] == Answer(true, 7) && !answers[2].inRange
  {
    hide Slot, Low, Pow2, IsGeqValue;
    Sizes();
    var w := World(map[], {1});
    assert After(START, Insert(256, 7), 2) == World(map[256 := 7], {1});
    assert After(World(map[256 := 7], {1}), Remove(256), 2) == w;
    assert FirstSlot(w, Slot(0, 2, 0) + 1, 1) && w.vals.Keys == {};
    assert NoneAt(w.vals.Keys, 2, 0, 0) && !Occ(w.vals.Keys, 2, 0, 1);
    assert Strays(w, 0, 2);
  }

  lemma Sizes()
    ensures Low(256, 2) == 256 && Low(0, 2) == 0 && Slot(256, 2, 0) == 1 && Slot(0, 2, 0) == 0
  {
    Top8(256);
    Top8(0);
    Pow2Add(8, 8);
    Pow2Eight();
    LowOf(256, 2);
    LowOf(0, 2);
  }

  /** With one level, the bit of a removed key hides the greater keys. */
  method RemovedKeyHides() returns (answers: seq<Answer>)
    ensures |answers| == 5 && answers[3] == Answer(true, 0) && answers[4] == Answer(true, 9)
  {
    hide Right;
    var ops := [Insert(1, 7), Insert(2, 9), Remove(1), FindGeq(0), Find(2)];
    answers := Run(1, ops);
    ThreeAnswers(START, ops, answers, 1);
    ghost var w := After(After(After(START, ops[0], 1), ops[1], 1), ops[2], 1);
    assert ops[3..] == [FindGeq(0), Find(2)] && ops[3..][1..] == [Find(2)] && answers[3..][0] == answers[3]
      && answers[3..][1..][0] == answers[4];
    Hidden(w, answers[3], answers[4]);
  }

  lemma Hidden(w: World, a: Answer, b: Answer)
    requires w == After(After(After(START, Insert(1, 7), 1), Insert(2, 9), 1), Remove(1), 1)
    requires Right(w, FindGeq(0), a, 1) && Right(w, Find(2), b, 1)
    ensures a == Answer(true, 0) && b == Answer(true, 9)
  {
    hide Slot, Low, Pow2, IsGeqValue, Misses;
    SmallKey(0);
    SmallKey(1);
    SmallKey(2);
    assert w == World(map[2 := 9], {1, 2});
    assert FirstSlot(w, 0, 1);
  }

  lemma SmallKey(k: nat)
    requires k < 256
    ensures Low(k, 1) == k && Slot(k, 1, 0) == k
  {
    Pow2Eight();
    LowOf(k, 1);
    SlotLast(k, 1);
  }
}
