/** The heap-ordered bit radix tree as a value: which key stands at which place. */
module RadixShape {
  import opened Bits

  /** A place of the tree: the nodes there have `top` as their first `depth` bits. */
  datatype Pos = Pos(depth: nat, top: nat)

  const ROOT := Pos(0, 0)

  /** Keys by place; `bits` is the number of bits of a key. */
  type Shape = map<Pos, nat>

  /** The key may stand at `p`. */
  ghost predicate On(k: nat, p: Pos, bits: nat) {
    p.depth <= bits && Top(k, bits - p.depth) == p.top
  }

  /** The place at depth `d` on the way of the key. */
  ghost function Place(k: nat, d: nat, bits: nat): Pos
    requires d <= bits
  {
    Pos(d, Top(k, bits - d))
  }

  function Child(p: Pos, side: nat): Pos {
    Pos(p.depth + 1, 2 * p.top + side)
  }

  function Parent(p: Pos): Pos
    requires p.depth > 0
  {
    Pos(p.depth - 1, p.top / 2)
  }

  lemma ChildParent(q: Pos, side: nat, p: Pos)
    requires side < 2
    ensures Child(q, side) == p <==> p.depth > 0 && q == Parent(p) && side == p.top % 2
  {
  }

  lemma ParentOfChild(p: Pos, side: nat)
    requires side < 2
    ensures Child(p, side).depth == p.depth + 1 && Parent(Child(p, side)) == p
  {
  }

  /** The key at `p` fits the place and is greater than its parent's. */
  ghost predicate PosOk(sh: Shape, bits: nat, p: Pos)
    requires p in sh
  {
    && sh[p] < Pow2(bits) && On(sh[p], p, bits)
    && (p.depth > 0 ==> Parent(p) in sh && sh[Parent(p)] < sh[p])
  }

  ghost predicate Ok(sh: Shape, bits: nat) {
    forall p {:trigger PosOk(sh, bits, p)} :: p in sh ==> PosOk(sh, bits, p)
  }

  lemma PlaceStep(k: nat, d: nat, bits: nat)
    requires d < bits
    ensures Place(k, d + 1, bits) == Child(Place(k, d, bits), Bit(k, bits - d - 1))
    ensures Parent(Place(k, d + 1, bits)) == Place(k, d, bits)
  {
    TopBit(k, bits - d - 1);
  }

  lemma RootPlace(k: nat, bits: nat)
    requires k < Pow2(bits)
    ensures Place(k, 0, bits) == ROOT
  {
    TopSmall(k, bits);
  }

  /** Above every key there is a smaller one at each depth. */
  lemma {:induction false} Ancestor(sh: Shape, bits: nat, p: Pos, d: nat)
    requires Ok(sh, bits) && p in sh && d < p.depth
    ensures p.depth <= bits && Place(sh[p], d, bits) in sh && sh[Place(sh[p], d, bits)] < sh[p]
    decreases p.depth
  {
    assert PosOk(sh, bits, p);
    var q := Parent(p);
    assert PosOk(sh, bits, q);
    PlaceStep(sh[p], p.depth - 1, bits);
    if d < q.depth {
      Ancestor(sh, bits, q, d);
      SamePlace(sh[p], sh[q], q.depth, d, bits);
    }
  }

  /** Keys that share a place share the places above it. */
  lemma SamePlace(k1: nat, k2: nat, d: nat, e: nat, bits: nat)
    requires e <= d <= bits && Place(k1, d, bits) == Place(k2, d, bits)
    ensures Place(k1, e, bits) == Place(k2, e, bits)
  {
    TopTop(k1, bits - d, d - e);
    TopTop(k2, bits - d, d - e);
  }

  /** No key stands at two places. */
  lemma KeyOnce(sh: Shape, bits: nat, p: Pos, q: Pos)
    requires Ok(sh, bits) && p in sh && q in sh && sh[p] == sh[q]
    ensures p == q
  {
    assert PosOk(sh, bits, p) && PosOk(sh, bits, q);
    if p.depth < q.depth {
      Ancestor(sh, bits, q, p.depth);
    } else if q.depth < p.depth {
      Ancestor(sh, bits, p, q.depth);
    }
  }

  /** A key stands above another one only if it is smaller. */
  lemma OnPath(sh: Shape, bits: nat, p: Pos, q: Pos)
    requires Ok(sh, bits) && p in sh && q in sh && On(sh[q], p, bits) && sh[q] != sh[p]
    ensures p.depth < q.depth ==> sh[p] < sh[q]
    ensures p.depth >= q.depth ==> On(sh[p], q, bits) && sh[q] < sh[p]
  {
    assert PosOk(sh, bits, p) && PosOk(sh, bits, q);
    assert p.depth == q.depth ==> p == q;
    if p.depth < q.depth {
      Ancestor(sh, bits, q, p.depth);
    } else {
      SamePlace(sh[p], sh[q], p.depth, q.depth, bits);
      if q.depth < p.depth {
        Ancestor(sh, bits, p, q.depth);
      }
    }
  }

  // ---------- the shape is a function of the key set ----------

  /** Equal up to depth `d`. */
  ghost predicate AgreeAbove(s1: Shape, s2: Shape, d: nat) {
    forall p: Pos {:trigger p in s1} {:trigger p in s2} :: p.depth < d ==>
      (p in s1 <==> p in s2) && (p in s1 ==> s1[p] == s2[p])
  }

  lemma AgreeAt(s1: Shape, s2: Shape, bits: nat, p: Pos)
    requires Ok(s1, bits) && Ok(s2, bits) && s1.Values == s2.Values
    requires AgreeAbove(s1, s2, p.depth) && p in s1
    ensures p in s2 && s2[p] == s1[p]
  {
    var k := s1[p];
    assert PosOk(s1, bits, p);
    assert k in s2.Values;
    var q :| q in s2 && s2[q] == k;
    assert PosOk(s2, bits, q);
    if q.depth < p.depth {
      Ancestor(s1, bits, p, q.depth);
    } else if q.depth > p.depth {
      Ancestor(s2, bits, q, p.depth);
      assert Place(k, p.depth, bits) == p;
      var j := s2[p];
      assert PosOk(s2, bits, p);
      assert j in s1.Values;
      var r :| r in s1 && s1[r] == j;
      assert PosOk(s1, bits, r);
      if r.depth < p.depth {
        Ancestor(s2, bits, p, r.depth);
      } else if r.depth > p.depth {
        Ancestor(s1, bits, r, p.depth);
      }
    }
  }

  lemma {:induction false} AgreeTo(s1: Shape, s2: Shape, bits: nat, d: nat)
    requires Ok(s1, bits) && Ok(s2, bits) && s1.Values == s2.Values
    ensures AgreeAbove(s1, s2, d)
  {
    if d > 0 {
      AgreeTo(s1, s2, bits, d - 1);
      forall p: Pos | p.depth < d && (p in s1 || p in s2)
        ensures p in s1 && p in s2 && s1[p] == s2[p]
      {
        assert AgreeAbove(s1, s2, p.depth) && AgreeAbove(s2, s1, p.depth);
        if p in s1 {
          AgreeAt(s1, s2, bits, p);
        } else {
          AgreeAt(s2, s1, bits, p);
        }
      }
    }
  }

  /** History independence: only one shape holds a given set of keys. */
  lemma Canonical(s1: Shape, s2: Shape, bits: nat)
    requires Ok(s1, bits) && Ok(s2, bits) && s1.Values == s2.Values
    ensures s1 == s2
  {
    AgreeTo(s1, s2, bits, bits + 1);
    forall p | p in s1 || p in s2
      ensures p in s1 && p in s2 && s1[p] == s2[p]
    {
      assert p in s1 ==> PosOk(s1, bits, p);
      assert p in s2 ==> PosOk(s2, bits, p);
    }
  }

  // ---------- insertion ----------

  /** A key that is not in the tree has come to place `p` on its way down. */
  ghost predicate Arrives(sh: Shape, bits: nat, p: Pos, k: nat) {
    && Ok(sh, bits) && k < Pow2(bits) && On(k, p, bits) && k !in sh.Values
    && (p.depth > 0 ==> Parent(p) in sh && sh[Parent(p)] < k)
  }

  /** It may take the place if that is free or held by a greater key. */
  lemma SettleOk(sh: Shape, bits: nat, p: Pos, k: nat)
    requires Arrives(sh, bits, p, k) && (p in sh ==> k < sh[p])
    ensures Ok(sh[p := k], bits)
    ensures sh[p := k].Values == (if p in sh then sh.Values - {sh[p]} else sh.Values) + {k}
    ensures p in sh ==> sh[p] !in sh[p := k].Values
  {
    var sh' := sh[p := k];
    forall q | q in sh'
      ensures PosOk(sh', bits, q)
    {
      if q != p {
        assert PosOk(sh, bits, q);
      }
      if q.depth > 0 && Parent(q) == p && p in sh {
        assert PosOk(sh, bits, q);
      }
    }
    SettleValues(sh, bits, p, k);
  }

  lemma SettleValues(sh: Shape, bits: nat, p: Pos, k: nat)
    requires Arrives(sh, bits, p, k)
    ensures sh[p := k].Values == (if p in sh then sh.Values - {sh[p]} else sh.Values) + {k}
    ensures p in sh ==> sh[p] !in sh[p := k].Values
  {
    var sh', rest := sh[p := k], if p in sh then sh.Values - {sh[p]} else sh.Values;
    forall v | v in sh'.Values
      ensures v in rest + {k}
      ensures p in sh ==> v != sh[p]
    {
      var q :| q in sh' && sh'[q] == v;
      if q != p && p in sh && v == sh[p] {
        KeyOnce(sh, bits, p, q);
      }
    }
    forall v | v in rest + {k}
      ensures v in sh'.Values
    {
      if v == k {
        assert sh'[p] == k;
      } else {
        var q :| q in sh && sh[q] == v;
        assert sh'[q] == v;
      }
    }
  }

  /** Depth runs out only where a key would meet itself. */
  lemma ArriveStep(sh: Shape, bits: nat, p: Pos, k: nat)
    requires Arrives(sh, bits, p, k) && p in sh && sh[p] < k
    ensures p.depth < bits && Arrives(sh, bits, Child(p, Bit(k, bits - p.depth - 1)), k)
  {
    assert PosOk(sh, bits, p);
    if p.depth < bits {
      PlaceStep(k, p.depth, bits);
    }
  }

  /** A smaller key takes the place, and the greater one goes on below it. */
  lemma DisplaceStep(sh: Shape, bits: nat, p: Pos, k: nat)
    requires Arrives(sh, bits, p, k) && p in sh && k < sh[p]
    ensures p.depth < bits && Arrives(sh[p := k], bits, Child(p, Bit(sh[p], bits - p.depth - 1)), sh[p])
    ensures sh[p := k].Values == sh.Values - {sh[p]} + {k}
  {
    assert PosOk(sh, bits, p);
    SettleOk(sh, bits, p, k);
    ArriveStep(sh[p := k], bits, p, sh[p]);
  }

  /** A stored key stands at, or below, every place on its way whose keys are not greater. */
  lemma StoredBelow(sh: Shape, bits: nat, p: Pos, k: nat)
    requires Ok(sh, bits) && k < Pow2(bits) && On(k, p, bits) && k in sh.Values
    requires p.depth > 0 ==> Parent(p) in sh && sh[Parent(p)] < k
    ensures p in sh && (sh[p] == k || sh[p] < k)
    ensures sh[p] < k ==> p.depth < bits && On(k, Child(p, Bit(k, bits - p.depth - 1)), bits)
  {
    var q :| q in sh && sh[q] == k;
    assert PosOk(sh, bits, q);
    if q.depth < p.depth {
      assert PosOk(sh, bits, Parent(p));
      PlaceStep(k, p.depth - 1, bits);
      if q != Parent(p) {
        OnPath(sh, bits, Parent(p), q);
      }
    } else if q.depth > p.depth {
      Ancestor(sh, bits, q, p.depth);
      assert Place(k, p.depth, bits) == p;
      PlaceStep(k, p.depth, bits);
    } else {
      assert p == q;
    }
  }

  // ---------- removal ----------

  /** The shape is in order except for the key at `x`, which is on its way down and out. */
  ghost predicate Sinking(sh: Shape, bits: nat, x: Pos) {
    && x in sh && x.depth <= bits && (x.depth > 0 ==> Parent(x) in sh)
    && forall p {:trigger SinkPos(sh, bits, x, p)} :: p in sh && p != x ==> SinkPos(sh, bits, x, p)
  }

  ghost predicate SinkPos(sh: Shape, bits: nat, x: Pos, p: Pos)
    requires p in sh && x in sh && (x.depth > 0 ==> Parent(x) in sh)
  {
    && sh[p] < Pow2(bits) && On(sh[p], p, bits) && sh[p] != sh[x]
    && (p.depth > 0 ==> Parent(p) in sh)
    && (p.depth > 0 && Parent(p) != x ==> sh[Parent(p)] < sh[p])
    && (p.depth > 0 && Parent(p) == x && x.depth > 0 ==> sh[Parent(x)] < sh[p])
  }

  lemma SinkStart(sh: Shape, bits: nat, x: Pos)
    requires Ok(sh, bits) && x in sh
    ensures Sinking(sh, bits, x)
  {
    assert PosOk(sh, bits, x);
    forall p | p in sh && p != x
      ensures SinkPos(sh, bits, x, p)
    {
      assert PosOk(sh, bits, p);
      if sh[p] == sh[x] {
        KeyOnce(sh, bits, p, x);
      }
    }
  }

  /** The left child, or the right one when there is no left: the smaller of the two. */
  ghost predicate IsLeastChild(sh: Shape, x: Pos, c: Pos) {
    && c in sh
    && (c == Child(x, 0) || (c == Child(x, 1) && Child(x, 0) !in sh))
  }

  ghost function Swapped(sh: Shape, x: Pos, c: Pos): Shape
    requires x in sh && c in sh
  {
    sh[x := sh[c]][c := sh[x]]
  }

  lemma LeftIsLess(j: nat, k: nat, p: Pos, bits: nat)
    requires On(j, Child(p, 0), bits) && On(k, Child(p, 1), bits)
    ensures j < k
  {
    if k <= j {
      TopMonotone(k, j, bits - p.depth - 1);
    }
  }

  /** One swap moves the sinking key one place down. */
  lemma SinkStep(sh: Shape, bits: nat, x: Pos, c: Pos)
    requires Sinking(sh, bits, x) && IsLeastChild(sh, x, c)
    ensures c.depth == x.depth + 1 <= bits && Sinking(Swapped(sh, x, c), bits, c)
    ensures Swapped(sh, x, c).Values == sh.Values && Swapped(sh, x, c)[c] == sh[x]
  {
    var sh' := Swapped(sh, x, c);
    assert SinkPos(sh, bits, x, c);
    assert Parent(c) == x;
    OnParent(sh[c], c, bits);
    forall p | p in sh' && p != c
      ensures SinkPos(sh', bits, c, p)
    {
      if p != x {
        assert SinkPos(sh, bits, x, p);
        if p.depth > 0 && Parent(p) == x {
          OtherChild(x, c, p);
          LeftIsLess(sh[c], sh[p], x, bits);
        } else if p.depth > 0 && Parent(p) == c {
          assert sh[c] < sh[p];
        }
      }
    }
    SwapValues(sh, x, c);
  }

  lemma OnParent(k: nat, p: Pos, bits: nat)
    requires On(k, p, bits) && p.depth > 0
    ensures On(k, Parent(p), bits)
  {
    PlaceStep(k, p.depth - 1, bits);
  }

  lemma OtherChild(x: Pos, c: Pos, p: Pos)
    requires (c == Child(x, 0) || c == Child(x, 1)) && p.depth > 0 && Parent(p) == x && p != c
    ensures p == if c == Child(x, 0) then Child(x, 1) else Child(x, 0)
  {
    assert p.top == 2 * x.top || p.top == 2 * x.top + 1;
  }

  lemma SwapValues(sh: Shape, x: Pos, c: Pos)
    requires x in sh && c in sh
    ensures Swapped(sh, x, c).Values == sh.Values
  {
    var sh' := Swapped(sh, x, c);
    forall v | v in sh.Values
      ensures v in sh'.Values
    {
      var q :| q in sh && sh[q] == v;
      assert sh'[if q == x then c else if q == c then x else q] == v;
    }
    forall v | v in sh'.Values
      ensures v in sh.Values
    {
      var q :| q in sh' && sh'[q] == v;
      assert sh[if q == x then c else if q == c then x else q] == v;
    }
  }

  /** A leaf can go. */
  lemma SinkEnd(sh: Shape, bits: nat, x: Pos)
    requires Sinking(sh, bits, x) && Child(x, 0) !in sh && Child(x, 1) !in sh
    ensures Ok(sh - {x}, bits) && (sh - {x}).Values == sh.Values - {sh[x]}
  {
    var sh' := sh - {x};
    forall p | p in sh'
      ensures PosOk(sh', bits, p)
    {
      assert SinkPos(sh, bits, x, p);
      if p.depth > 0 {
        assert p == Child(Parent(p), 0) || p == Child(Parent(p), 1);
      }
    }
    forall v | v in sh.Values - {sh[x]}
      ensures v in sh'.Values
    {
      var q :| q in sh && sh[q] == v;
      assert sh'[q] == v;
    }
    forall v | v in sh'.Values
      ensures v in sh.Values - {sh[x]}
    {
      var q :| q in sh' && sh'[q] == v;
      assert SinkPos(sh, bits, x, q);
      assert sh[q] == v;
    }
  }

  // ---------- the least key that is not less than a query ----------

  datatype Maybe = No | Yes(key: nat)

  /** The walk for `q` has come to place `p`: a stored key not less than `q` is still below `p`, or
      one of the two candidates is as good; whatever is below `p` beats the candidate `right`. */
  ghost predicate Seeks(sh: Shape, bits: nat, q: nat, p: Pos, found: Maybe, right: Maybe) {
    && Ok(sh, bits) && q < Pow2(bits) && On(q, p, bits)
    && (found.Yes? ==> found.key in sh.Values && q < found.key)
    && (right.Yes? ==> right.key in sh.Values && q < right.key && forall k: nat :: On(k, p, bits) ==> k < right.key)
    && (found.Yes? && right.Yes? ==> found.key < right.key)
    && (forall r :: r in sh && q <= sh[r] ==> Covered(sh, bits, p, found, right, r))
    && (found.Yes? ==> forall r :: r in sh && Below(sh, bits, p, r) ==> found.key < sh[r])
  }

  ghost predicate Below(sh: Shape, bits: nat, p: Pos, r: Pos)
    requires r in sh
  {
    p.depth <= r.depth && On(sh[r], p, bits)
  }

  ghost predicate Covered(sh: Shape, bits: nat, p: Pos, found: Maybe, right: Maybe, r: Pos)
    requires r in sh
  {
    || Below(sh, bits, p, r)
    || (found.Yes? && found.key <= sh[r])
    || (right.Yes? && right.key <= sh[r])
  }

  ghost predicate IsGeq(keys: set<nat>, q: nat, r: Maybe) {
    if r.Yes? then LeastFrom(keys, q, r.key) else forall k :: k in keys ==> k < q
  }

  lemma SeekStart(sh: Shape, bits: nat, q: nat)
    requires Ok(sh, bits) && q < Pow2(bits)
    ensures Seeks(sh, bits, q, ROOT, No, No)
  {
    RootPlace(q, bits);
    forall r | r in sh && q <= sh[r]
      ensures Covered(sh, bits, ROOT, No, No, r)
    {
      assert PosOk(sh, bits, r);
      RootPlace(sh[r], bits);
    }
  }

  /** The key at a place is less than the keys below it. */
  lemma BelowIsGreater(sh: Shape, bits: nat, p: Pos, side: nat, r: Pos)
    requires side < 2 && Ok(sh, bits) && p in sh && r in sh && Below(sh, bits, Child(p, side), r) && p.depth < bits
    ensures Below(sh, bits, p, r) && sh[p] < sh[r]
  {
    hide On;
    assert PosOk(sh, bits, p) && PosOk(sh, bits, r);
    ParentOfChild(p, side);
    OnParent(sh[r], Child(p, side), bits);
    if sh[r] == sh[p] {
      KeyOnce(sh, bits, p, r);
    }
    OnPath(sh, bits, p, r);
  }

  /** The right child beats whatever is below the left one. */
  lemma RightBeats(sh: Shape, bits: nat, p: Pos, k: nat)
    requires Ok(sh, bits) && p in sh && Child(p, 1) in sh && p.depth < bits && On(k, Child(p, 0), bits)
    ensures k < sh[Child(p, 1)] && sh[p] < sh[Child(p, 1)]
  {
    hide On;
    assert PosOk(sh, bits, Child(p, 1));
    ParentOfChild(p, 1);
    LeftIsLess(k, sh[Child(p, 1)], p, bits);
  }

  /** radixTreeFindGEQ's step at a node whose key is not the query. */
  lemma SeekStep(sh: Shape, bits: nat, q: nat, p: Pos, found: Maybe, right: Maybe)
    requires Seeks(sh, bits, q, p, found, right) && p in sh && sh[p] != q
    ensures p.depth < bits
    ensures var found' := if sh[p] > q && (found.No? || sh[p] < found.key) then Yes(sh[p]) else found;
      var side := Bit(q, bits - p.depth - 1);
      var right' := if side == 0 && Child(p, 1) in sh then Yes(sh[Child(p, 1)]) else right;
      Seeks(sh, bits, q, Child(p, side), found', right')
  {
    hide On, Child, Parent;
    SeekDepth(sh, bits, q, p);
    var found' := if sh[p] > q && (found.No? || sh[p] < found.key) then Yes(sh[p]) else found;
    var side := Bit(q, bits - p.depth - 1);
    var p' := Child(p, side);
    var right' := if side == 0 && Child(p, 1) in sh then Yes(sh[Child(p, 1)]) else right;
    forall k: nat | On(k, p', bits)
      ensures On(k, p, bits)
      ensures right'.Yes? ==> k < right'.key
    {
      ParentOfChild(p, side);
      OnParent(k, p', bits);
      if right' != right {
        RightBeats(sh, bits, p, k);
      }
    }
    assert Below(sh, bits, p, p);
    if side == 0 && Child(p, 1) in sh {
      RightBeats(sh, bits, p, q);
      BelowSelf(sh, bits, p, 1);
    }
    forall r | r in sh && q <= sh[r]
      ensures Covered(sh, bits, p', found', right', r)
    {
      assert Covered(sh, bits, p, found, right, r);
      if Below(sh, bits, p, r) {
        SeekBelow(sh, bits, q, p, r);
        ParentOfChild(p, side);
      }
    }
    forall r | r in sh && Below(sh, bits, p', r)
      ensures Below(sh, bits, p, r) && sh[p] < sh[r]
    {
      BelowIsGreater(sh, bits, p, side, r);
    }
  }

  lemma BelowSelf(sh: Shape, bits: nat, p: Pos, side: nat)
    requires side < 2 && Ok(sh, bits) && p in sh && Child(p, side) in sh && p.depth < bits
    ensures Below(sh, bits, p, Child(p, side))
  {
    assert PosOk(sh, bits, Child(p, side));
    ParentOfChild(p, side);
    OnParent(sh[Child(p, side)], Child(p, side), bits);
  }

  lemma SeekDepth(sh: Shape, bits: nat, q: nat, p: Pos)
    requires Ok(sh, bits) && q < Pow2(bits) && On(q, p, bits) && p in sh && sh[p] != q
    ensures p.depth < bits && On(q, Child(p, Bit(q, bits - p.depth - 1)), bits) && On(sh[p], p, bits)
  {
    assert PosOk(sh, bits, p);
    assert p.depth != bits;
    PlaceStep(q, p.depth, bits);
  }

  /** A key below `p` that the walk leaves aside. */
  lemma SeekBelow(sh: Shape, bits: nat, q: nat, p: Pos, r: Pos)
    requires Ok(sh, bits) && p in sh && r in sh && p.depth < bits && On(q, p, bits)
    requires p.depth <= r.depth && On(sh[r], p, bits) && q <= sh[r]
    ensures var side := Bit(q, bits - p.depth - 1);
      || r == p
      || (r.depth > p.depth && On(sh[r], Child(p, side), bits))
      || (side == 0 && Child(p, 1) in sh && sh[Child(p, 1)] <= sh[r])
  {
    var side := Bit(q, bits - p.depth - 1);
    PlaceStep(q, p.depth, bits);
    PlaceStep(sh[r], p.depth, bits);
    assert PosOk(sh, bits, r) && PosOk(sh, bits, p);
    if r.depth == p.depth {
      assert r == p;
    } else {
      var side' := Bit(sh[r], bits - p.depth - 1);
      assert On(sh[r], Child(p, side'), bits);
      if side' < side {
        LeftIsLess(sh[r], q, p, bits);
      } else if side < side' {
        if r.depth > p.depth + 1 {
          Ancestor(sh, bits, r, p.depth + 1);
        } else {
          assert r == Child(p, 1);
        }
      }
    }
  }

  /** Where the walk ends, the candidate met first wins, and otherwise the deepest one set aside. */
  lemma SeekEnd(sh: Shape, bits: nat, q: nat, p: Pos, found: Maybe, right: Maybe)
    requires Seeks(sh, bits, q, p, found, right) && p !in sh
    ensures IsGeq(sh.Values, q, if found.Yes? then found else right)
  {
    forall k | k in sh.Values && q <= k
      ensures (if found.Yes? then found else right).Yes? && (if found.Yes? then found else right).key <= k
    {
      var r :| r in sh && sh[r] == k;
      assert Covered(sh, bits, p, found, right, r);
      assert PosOk(sh, bits, r);
      if p.depth < r.depth && On(k, p, bits) {
        Ancestor(sh, bits, r, p.depth);
      }
    }
  }

  lemma SeekHit(sh: Shape, bits: nat, q: nat, p: Pos)
    requires p in sh && sh[p] == q
    ensures IsGeq(sh.Values, q, Yes(q))
  {
  }
}
