/** The search for the least key that is not less than a query. */
module WideSeek {
  import opened Bits
  import opened Word
  import opened WideShape

  lemma SlotMonotone(j: nat, k: nat, n: nat, level: nat)
    requires level < n && j <= k
    ensures Slot(j, n, level) <= Slot(k, n, level)
  {
    TopMonotone(j, k, 8 * (n - level - 1));
  }

  /** No key from `q` on shares the slot of `q`. */
  ghost predicate NoneAt(keys: Keys, n: nat, level: nat, q: nat)
    requires level < n
  {
    forall k: nat {:trigger k in keys} :: k in keys && q <= k ==> Slot(k, n, level) != Slot(q, n, level)
  }

  /** Every key from `q` on has slot `x`, which is after that of `q`, or a later one. */
  ghost predicate AllFrom(keys: Keys, n: nat, level: nat, q: nat, x: nat)
    requires level < n
  {
    Slot(q, n, level) < x && forall k: nat {:trigger k in keys} :: k in keys && q <= k ==> x <= Slot(k, n, level)
  }

  lemma NoneStart(keys: Keys, n: nat, level: nat, q: nat)
    requires level < n && !Occ(keys, n, level, Slot(q, n, level))
    ensures NoneAt(keys, n, level, q)
  {
  }

  /** A key in a node's range that the bits show is not before the first set bit. */
  lemma ShownFrom(w: WNode, at: map<GPos, Child>, keys: Keys, n: nat, level: nat, p: nat, from: nat, r: nat, k: nat)
    requires level < n && Shows(w, at, keys, n, level, p) && IsFirst(w.bits, from, 255, r)
    requires k in keys && 256 * p + from <= Slot(k, n, level) < 256 * p + 256
    ensures r <= 255 && 256 * p + r <= Slot(k, n, level)
  {
    hide Slot, HasAt;
    var b := Slot(k, n, level) - 256 * p;
    assert Occ(keys, n, level, 256 * p + b);
    assert HasAt(w.bits, b);
  }

  /** One level up when nothing is found. */
  lemma SeekUp(w: WNode, at: map<GPos, Child>, keys: Keys, n: nat, level: nat, q: nat)
    requires 0 < level < n && Shows(w, at, keys, n, level, Slot(q, n, level) / 256)
    requires NoneAt(keys, n, level, q) && IsFirst(w.bits, Slot(q, n, level) % 256 + 1, 255, 256)
    ensures NoneAt(keys, n, level - 1, q)
  {
    hide Slot, HasAt, IsFirst, Shows;
    var t := Slot(q, n, level);
    forall k: nat | k in keys && q <= k
      ensures Slot(k, n, level - 1) != Slot(q, n, level - 1)
    {
      SlotUp(k, n, level);
      SlotUp(q, n, level);
      SlotMonotone(q, k, n, level);
      if Slot(k, n, level) / 256 == t / 256 {
        ShownFrom(w, at, keys, n, level, t / 256, t % 256 + 1, 256, k);
      }
    }
  }

  lemma SeekTop(w: WNode, at: map<GPos, Child>, keys: Keys, n: nat, q: nat)
    requires 0 < n && Shows(w, at, keys, n, 0, 0) && Slot(q, n, 0) < 256 && forall k :: k in keys ==> k < Pow2(8 * n)
    requires NoneAt(keys, n, 0, q) && IsFirst(w.bits, Slot(q, n, 0) + 1, 255, 256)
    ensures forall k :: k in keys ==> k < q
  {
    hide Slot, HasAt, IsFirst, Shows;
    forall k: nat | k in keys
      ensures k < q
    {
      if q <= k {
        SlotFirst(k, n);
        SlotMonotone(q, k, n, 0);
        ShownFrom(w, at, keys, n, 0, 0, Slot(q, n, 0) + 1, 256, k);
      }
    }
  }

  /** The first set bit after the query's begins the range of all keys from the query on. */
  lemma SeekFound(w: WNode, at: map<GPos, Child>, keys: Keys, n: nat, level: nat, q: nat, r: nat)
    requires level < n && Shows(w, at, keys, n, level, Slot(q, n, level) / 256) && q < Pow2(8 * n)
      && forall k :: k in keys ==> k < Pow2(8 * n)
    requires NoneAt(keys, n, level, q) && r <= 255 && IsFirst(w.bits, Slot(q, n, level) % 256 + 1, 255, r)
    ensures AllFrom(keys, n, level, q, 256 * (Slot(q, n, level) / 256) + r)
  {
    hide Slot, HasAt, Shows;
    var t := Slot(q, n, level);
    assert t % 256 + 1 <= r;
    forall k: nat | k in keys && q <= k
      ensures 256 * (t / 256) + r <= Slot(k, n, level)
    {
      SlotMonotone(q, k, n, level);
      if level == 0 {
        SlotFirst(k, n);
      }
      if Slot(k, n, level) / 256 == t / 256 {
        ShownFrom(w, at, keys, n, level, t / 256, t % 256 + 1, r, k);
      }
    }
  }

  /** One level down to the leftmost key of slot `x`. */
  lemma SeekDown(w: WNode, at: map<GPos, Child>, keys: Keys, n: nat, level: nat, q: nat, x: nat, r: nat)
    requires level + 1 < n && Shows(w, at, keys, n, level + 1, x) && AllFrom(keys, n, level, q, x)
      && IsFirst(w.bits, 0, 255, r)
    ensures r <= 255 <==> Occ(keys, n, level, x)
    ensures r <= 255 ==> AllFrom(keys, n, level + 1, q, 256 * x + r) && Occ(keys, n, level + 1, 256 * x + r)
  {
    hide Slot, HasAt, Shows;
    SlotUp(q, n, level + 1);
    forall k: nat | k in keys && Slot(k, n, level) == x
      ensures r <= 255 && 256 * x + r <= Slot(k, n, level + 1)
    {
      SlotUp(k, n, level + 1);
      ShownFrom(w, at, keys, n, level + 1, x, 0, r, k);
    }
    if r <= 255 {
      FirstShown(w, at, keys, n, level + 1, x, r);
      var j: nat :| j in keys && Slot(j, n, level + 1) == 256 * x + r;
      SlotUp(j, n, level + 1);
      forall k: nat | k in keys && q <= k
        ensures 256 * x + r <= Slot(k, n, level + 1)
      {
        SlotUp(k, n, level + 1);
      }
    }
  }

  lemma FirstShown(w: WNode, at: map<GPos, Child>, keys: Keys, n: nat, level: nat, p: nat, r: nat)
    requires 0 < level < n && Shows(w, at, keys, n, level, p) && r <= 255 && HasAt(w.bits, r)
    ensures Occ(keys, n, level, 256 * p + r)
  {
  }

  /** The value of the least key that is not less than `q`, or none. */
  ghost predicate IsGeqValue(vals: map<nat, Value>, q: nat, v: Value) {
    || (v == 0 && forall k :: k in vals ==> k < q)
    || exists m: nat :: LeastFrom(vals.Keys, q, m) && v == vals[m]
  }

  lemma {:induction false} LeastExists(keys: Keys, q: nat, k: nat) returns (m: nat)
    requires k in keys && q <= k
    ensures LeastFrom(keys, q, m)
    decreases k
  {
    if j: nat :| j in keys && q <= j < k {
      m := LeastExists(keys, q, j);
    } else {
      m := k;
    }
  }

  /** At the last level a slot is a key. */
  lemma SeekLast(vals: map<nat, Value>, n: nat, q: nat, x: nat)
    requires 0 < n && AllFrom(vals.Keys, n, n - 1, q, x)
    ensures x in vals ==> LeastFrom(vals.Keys, q, x)
    ensures Occ(vals.Keys, n, n - 1, x) <==> x in vals
  {
    SlotLast(q, n);
    forall k: nat | k in vals
      ensures Slot(k, n, n - 1) == k
    {
      SlotLast(k, n);
    }
    assert x in vals ==> Slot(x, n, n - 1) == x;
  }
}
