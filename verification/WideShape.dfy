/** The wide radix tree as a value: node groups, value groups, and where they belong. */
module WideShape {
  import opened Bits
  import opened Pool
  import opened Word

  /** A stored value; 0 stands for none. */
  type Value = nat

  /** A pointer to a group of 64 nodes or of 64 values. */
  datatype Child = NoChild | Nodes(group: Ptr<seq<WNode>>) | Leaves(values: Ptr<seq<Value>>)

  datatype WNode = WNode(bits: seq<Word>, children: seq<Child>)

  const EMPTY := WNode([0, 0, 0, 0], [NoChild, NoChild, NoChild, NoChild])

  /** Zeroed memory. */
  function EmptyGroup(): (r: seq<WNode>)
    ensures |r| == 64 && forall i :: 0 <= i < 64 ==> r[i] == EMPTY
  {
    seq(64, _ => EMPTY)
  }

  function NoValues(): (r: seq<Value>)
    ensures |r| == 64 && forall i :: 0 <= i < 64 ==> r[i] == 0
  {
    seq(64, _ => 0)
  }

  type Keys = set<nat>

  /** `key >> ((numLevels - level - 1) << 3)`: the slot of the key at a level, among all slots of the level. */
  function Slot(k: nat, n: nat, level: nat): nat
    requires level < n
  {
    Top(k, 8 * (n - level - 1))
  }

  /** What a tree of `n` levels sees of a key: its low `n` bytes. */
  function Low(key: nat, n: nat): (k: nat)
    ensures k < Pow2(8 * n)
  {
    key % Pow2(8 * n)
  }

  lemma LowByte(key: nat, n: nat, level: nat)
    requires level < n
    ensures Top(key, 8 * (n - level - 1)) % 256 == Slot(Low(key, n), n, level) % 256
  {
    hide Low, Top, Pow2;
    var m := 8 * (n - level - 1);
    var q := LowParts(key, n);
    Pow2Add(8 * level, m + 8);
    Regroup(q, Pow2(8 * level), Pow2(m + 8));
    TopAdd(Low(key, n), q * Pow2(8 * level), m);
  }

  lemma LowParts(key: nat, n: nat) returns (q: nat)
    ensures key == Low(key, n) + q * Pow2(8 * n)
  {
    hide Pow2;
    q := DivMod(key, Pow2(8 * n));
  }

  lemma DivMod(k: nat, p: nat) returns (q: nat)
    requires p > 0
    ensures k == k % p + q * p
  {
    q := k / p;
    assert k == p * q + k % p;
    assert p * q == q * p;
  }

  lemma LowOf(key: nat, n: nat)
    requires key < Pow2(8 * n)
    ensures Low(key, n) == key
  {
    hide Pow2;
    SmallMod(key, Pow2(8 * n));
  }

  lemma SmallMod(k: nat, p: nat)
    requires k < p
    ensures k % p == k
  {
  }

  lemma Regroup(a: nat, b: nat, c: nat)
    ensures a * (b * c) == (a * b) * c
  {
  }

  lemma Top8(k: nat)
    ensures Top(k, 8) == k / 256
  {
    TopTop(k, 1, 7);
    TopTop(k / 2, 1, 6);
    TopTop(k / 4, 1, 5);
    TopTop(k / 8, 1, 4);
    TopTop(k / 16, 1, 3);
    TopTop(k / 32, 1, 2);
    TopTop(k / 64, 1, 1);
  }

  lemma SlotUp(k: nat, n: nat, level: nat)
    requires 0 < level < n
    ensures Slot(k, n, level - 1) == Slot(k, n, level) / 256
  {
    TopTop(k, 8 * (n - level - 1), 8);
    Top8(Slot(k, n, level));
  }

  /** The slot at a level fixes the slots at the levels above. */
  lemma {:induction false} SameAbove(j: nat, k: nat, n: nat, level: nat, upper: nat)
    requires upper <= level < n && Slot(j, n, level) == Slot(k, n, level)
    ensures Slot(j, n, upper) == Slot(k, n, upper)
    decreases level - upper
  {
    if upper < level {
      SlotUp(j, n, level);
      SlotUp(k, n, level);
      SameAbove(j, k, n, level - 1, upper);
    }
  }

  lemma SlotLast(k: nat, n: nat)
    requires n > 0
    ensures Slot(k, n, n - 1) == k
  {
  }

  lemma SlotFirst(k: nat, n: nat)
    requires n > 0 && k < Pow2(8 * n)
    ensures Slot(k, n, 0) < 256
  {
    TopTop(k, 8 * (n - 1), 8);
    TopSmall(k, 8 * n);
    Top8(Slot(k, n, 0));
  }

  /** The slot of some key. */
  ghost predicate Occ(keys: Keys, n: nat, level: nat, s: nat)
    requires level < n
  {
    exists k: nat :: k in keys && Slot(k, n, level) == s
  }

  /** One of the 64 slots of a group is the slot of some key. */
  ghost predicate OccGroup(keys: Keys, n: nat, level: nat, g: nat)
    requires level < n
  {
    exists k: nat :: k in keys && Slot(k, n, level) / 64 == g
  }

  /** Group `id` of a level holds slots `64 * id` to `64 * id + 63`. */
  datatype GPos = GPos(level: nat, id: nat)

  datatype State = State(
    n: nat,
    root: WNode,
    groups: map<Ptr<seq<WNode>>, seq<WNode>>,
    leaves: map<Ptr<seq<Value>>, seq<Value>>,
    at: map<GPos, Child>,
    loc: map<Child, GPos>)

  ghost function Get(at: map<GPos, Child>, p: GPos): Child {
    if p in at then at[p] else NoChild
  }

  /** The group at `p` is of the right kind for its level, allocated, and at this place only. */
  ghost predicate GroupOk(s: State, p: GPos) {
    && p in s.at && p.level < s.n && s.at[p] in s.loc && s.loc[s.at[p]] == p
    && if p.level == s.n - 1
       then s.at[p].Leaves? && s.at[p].values in s.leaves && |s.leaves[s.at[p].values]| == 64
       else s.at[p].Nodes? && s.at[p].group in s.groups && |s.groups[s.at[p].group]| == 64
  }

  /** Exactly the allocated groups have a place. */
  ghost predicate Fits(s: State) {
    && s.n > 0
    && (forall p: GPos {:trigger GroupOk(s, p)} {:trigger s.at[p]} :: p in s.at ==> GroupOk(s, p))
    && (forall c {:trigger s.loc[c]} {:trigger c in s.loc} :: c in s.loc ==> s.loc[c] in s.at && s.at[s.loc[c]] == c)
    && (forall o {:trigger o in s.groups} :: o in s.groups ==> Nodes(o) in s.loc)
    && (forall o {:trigger o in s.leaves} :: o in s.leaves ==> Leaves(o) in s.loc)
  }

  /** There is a node `p` at the level. */
  ghost predicate Exists(s: State, level: nat, p: nat) {
    level < s.n && if level == 0 then p == 0 else GPos(level - 1, p / 64) in s.at
  }

  ghost function NodeAt(s: State, level: nat, p: nat): WNode
    requires Fits(s) && Exists(s, level, p)
  {
    if level == 0 then s.root else
      assert GroupOk(s, GPos(level - 1, p / 64));
      s.groups[s.at[GPos(level - 1, p / 64)].group][p % 64]
  }

  /** A node's bits show its occupied slots; the root's may show more. Its pointers are those of the places. */
  ghost predicate Shows(w: WNode, at: map<GPos, Child>, keys: Keys, n: nat, level: nat, p: nat)
    requires level < n
  {
    && |w.bits| == 4 && |w.children| == 4
    && (forall i {:trigger w.children[i]} :: 0 <= i < 4 ==> w.children[i] == Get(at, GPos(level, 4 * p + i)))
    && (forall b: nat {:trigger HasAt(w.bits, b)} :: b < 256 && Occ(keys, n, level, 256 * p + b) ==> HasAt(w.bits, b))
    && (level > 0 ==> forall b: nat {:trigger HasAt(w.bits, b)} :: b < 256 && HasAt(w.bits, b) ==>
      Occ(keys, n, level, 256 * p + b))
  }

  ghost predicate NodeOk(s: State, keys: Keys, level: nat, p: nat)
    requires Fits(s) && Exists(s, level, p)
  {
    Shows(NodeAt(s, level, p), s.at, keys, s.n, level, p)
  }

  /** A group is there exactly if a key needs it; at the root, if a bit is set. */
  ghost predicate PresentOk(s: State, keys: Keys, p: GPos)
    requires p.level < s.n && |s.root.bits| == 4
  {
    if p.level == 0 then p in s.at <==> p.id < 4 && s.root.bits[p.id] != 0
    else p in s.at <==> OccGroup(keys, s.n, p.level, p.id)
  }

  ghost predicate NodeFine(s: State, ks: seq<Keys>, level: nat, p: nat)
    requires Fits(s)
  {
    level < |ks| && Exists(s, level, p) && NodeOk(s, ks[level], level, p)
  }

  ghost predicate PresentFine(s: State, ks: seq<Keys>, p: GPos)
    requires |s.root.bits| == 4
  {
    p.level < |ks| == s.n && PresentOk(s, ks[p.level], p)
  }

  /** The tree in order, where level `j` stands for the keys `ks[j]`. */
  ghost predicate Sound(s: State, ks: seq<Keys>) {
    && Fits(s) && |ks| == s.n && |s.root.bits| == 4
    && (forall level: nat, p: nat {:trigger NodeFine(s, ks, level, p)} :: Exists(s, level, p) ==>
      NodeFine(s, ks, level, p))
    && (forall p: GPos {:trigger PresentFine(s, ks, p)} :: p.level < s.n ==> PresentFine(s, ks, p))
    && (forall j, k {:trigger k in ks[j]} :: 0 <= j < s.n && k in ks[j] ==> k < Pow2(8 * s.n))
  }

  function Lookup(vals: map<nat, Value>, k: nat): Value {
    if k in vals then vals[k] else 0
  }

  /** The value groups hold the map. */
  ghost predicate Holds(s: State, vals: map<nat, Value>)
    requires Fits(s)
  {
    forall g: nat, i: nat {:trigger LeafOk(s, vals, g, i)} :: GPos(s.n - 1, g) in s.at && i < 64 ==>
      LeafOk(s, vals, g, i)
  }

  ghost predicate LeafOk(s: State, vals: map<nat, Value>, g: nat, i: nat)
    requires Fits(s) && GPos(s.n - 1, g) in s.at && i < 64
  {
    assert GroupOk(s, GPos(s.n - 1, g));
    s.leaves[s.at[GPos(s.n - 1, g)].values][i] == Lookup(vals, 64 * g + i)
  }

  // ---------- single changes ----------

  ghost function PutNode(s: State, level: nat, p: nat, w: WNode): State
    requires Fits(s) && Exists(s, level, p)
  {
    if level == 0 then s.(root := w) else
      assert GroupOk(s, GPos(level - 1, p / 64));
      var o := s.at[GPos(level - 1, p / 64)].group;
      s.(groups := s.groups[o := s.groups[o][p % 64 := w]])
  }

  lemma PutNodeFits(s: State, level: nat, p: nat, w: WNode)
    requires Fits(s) && Exists(s, level, p)
    ensures Fits(PutNode(s, level, p, w))
  {
    var s' := PutNode(s, level, p, w);
    if level > 0 {
      assert GroupOk(s, GPos(level - 1, p / 64));
    }
    forall q: GPos | q in s'.at
      ensures GroupOk(s', q)
    {
      assert GroupOk(s, q);
    }
  }

  lemma PutNodeAt(s: State, level: nat, p: nat, w: WNode, j: nat, q: nat)
    requires Fits(s) && Exists(s, level, p) && Exists(s, j, q) && Fits(PutNode(s, level, p, w))
    ensures Exists(PutNode(s, level, p, w), j, q)
    ensures NodeAt(PutNode(s, level, p, w), j, q) == if j == level && q == p then w else NodeAt(s, j, q)
  {
    if level > 0 {
      assert GroupOk(s, GPos(level - 1, p / 64));
    }
    if j > 0 {
      assert GroupOk(s, GPos(j - 1, q / 64));
    }
  }

  /** A child pointer nobody uses. */
  ghost predicate Unused(s: State, c: Child, last: bool) {
    && c !in s.loc
    && if last then c.Leaves? && c.values !in s.leaves else c.Nodes? && c.group !in s.groups
  }

  /** A new group of empty nodes or values. */
  ghost function AddGroup(s: State, gp: GPos, c: Child): State
    requires c != NoChild
  {
    var s1 := s.(at := s.at[gp := c], loc := s.loc[c := gp]);
    if c.Nodes? then s1.(groups := s.groups[c.group := EmptyGroup()])
      else s1.(leaves := s.leaves[c.values := NoValues()])
  }

  lemma AddGroupFits(s: State, gp: GPos, c: Child)
    requires Fits(s) && gp !in s.at && gp.level < s.n && Unused(s, c, gp.level == s.n - 1)
    ensures Fits(AddGroup(s, gp, c))
  {
    var s' := AddGroup(s, gp, c);
    forall q: GPos | q in s'.at
      ensures GroupOk(s', q)
    {
      assert q != gp ==> GroupOk(s, q);
    }
  }

  lemma AddGroupAt(s: State, gp: GPos, c: Child, j: nat, q: nat)
    requires Fits(s) && gp !in s.at && gp.level < s.n && Unused(s, c, gp.level == s.n - 1)
    requires Fits(AddGroup(s, gp, c)) && Exists(AddGroup(s, gp, c), j, q)
    ensures (j == gp.level + 1 && q / 64 == gp.id) || Exists(s, j, q)
    ensures NodeAt(AddGroup(s, gp, c), j, q) == if j == gp.level + 1 && q / 64 == gp.id then EMPTY else NodeAt(s, j, q)
  {
    if j > 0 {
      var r := GPos(j - 1, q / 64);
      assert GroupOk(AddGroup(s, gp, c), r);
      assert r != gp ==> GroupOk(s, r);
    }
  }

  ghost function DropGroup(s: State, gp: GPos): State
    requires gp in s.at
  {
    var c := s.at[gp];
    var s1 := s.(at := s.at - {gp}, loc := s.loc - {c});
    match c
    case Nodes(o) => s1.(groups := s.groups - {o})
    case Leaves(o) => s1.(leaves := s.leaves - {o})
    case NoChild => s1
  }

  lemma DropGroupFits(s: State, gp: GPos)
    requires Fits(s) && gp in s.at
    ensures Fits(DropGroup(s, gp))
  {
    var s' := DropGroup(s, gp);
    assert GroupOk(s, gp);
    forall q: GPos | q in s'.at
      ensures GroupOk(s', q)
    {
      assert GroupOk(s, q);
    }
  }

  lemma DropGroupAt(s: State, gp: GPos, j: nat, q: nat)
    requires Fits(s) && gp in s.at && Fits(DropGroup(s, gp)) && Exists(DropGroup(s, gp), j, q)
    ensures Exists(s, j, q) && !(j == gp.level + 1 && q / 64 == gp.id)
    ensures NodeAt(DropGroup(s, gp), j, q) == NodeAt(s, j, q)
  {
    assert GroupOk(s, gp);
    if j > 0 {
      var r := GPos(j - 1, q / 64);
      assert GroupOk(DropGroup(s, gp), r);
      assert GroupOk(s, r);
    }
  }

  // ---------- a slot set ----------

  lemma SlotParts(t: nat)
    ensures t / 64 == 4 * (t / 256) + t / 64 % 4 && t / 64 / 4 == t / 256
    ensures t == 256 * (t / 256) + t % 256 && t % 256 == 64 * (t / 64 % 4) + t % 64
    ensures t % 256 / 64 == t / 64 % 4 && t % 256 % 64 == t % 64
  {
  }

  /** Keys are in sight of the root. */
  lemma RootShows(s: State, ks: seq<Keys>, k: nat)
    requires Sound(s, ks) && k in ks[0] && k < Pow2(8 * s.n)
    ensures Slot(k, s.n, 0) < 256 && s.root.bits[Slot(k, s.n, 0) / 64] != 0
  {
    hide Has;
    var t := Slot(k, s.n, 0);
    SlotFirst(k, s.n);
    assert NodeFine(s, ks, 0, 0);
    assert Occ(ks[0], s.n, 0, 256 * 0 + t);
    assert HasAt(s.root.bits, t);
    HasSmall(s.root.bits[t / 64], t % 64);
  }

  /** A group that is missing is needed by no key. */
  lemma AbsentNone(s: State, ks: seq<Keys>, p: GPos, k: nat)
    requires Sound(s, ks) && p !in s.at && p.level < s.n && k in ks[p.level] && k < Pow2(8 * s.n)
    ensures Slot(k, s.n, p.level) / 64 != p.id
  {
    assert PresentFine(s, ks, p);
    if p.level == 0 {
      RootShows(s, ks, k);
    }
  }

  /** The node with slot `t` marked and `c` as the pointer for it. */
  ghost function MarkedNode(w: WNode, t: nat, c: Child): WNode
    requires |w.bits| == 4 && |w.children| == 4
  {
    var i := t / 64 % 4;
    WNode(w.bits[i := Or(w.bits[i], One(t % 64))], w.children[i := c])
  }

  lemma MarkedBits(w: WNode, t: nat, c: Child, b: nat)
    requires |w.bits| == 4 && |w.children| == 4 && b < 256
    ensures HasAt(MarkedNode(w, t, c).bits, b) <==> HasAt(w.bits, b) || b == t % 256
  {
    hide Has, One, Or;
    SlotParts(t);
    SetHas(w.bits[t / 64 % 4], t % 64, b % 64);
  }

  lemma OccAdd(keys: Keys, n: nat, level: nat, k: nat, t: nat)
    requires level < n
    ensures Occ(keys + {k}, n, level, t) <==> Occ(keys, n, level, t) || Slot(k, n, level) == t
    ensures OccGroup(keys + {k}, n, level, t) <==> OccGroup(keys, n, level, t) || Slot(k, n, level) / 64 == t
  {
    hide Slot;
    assert k in keys + {k};
    if j: nat :| j in keys && Slot(j, n, level) == t {
      assert j in keys + {k};
    }
    if j: nat :| j in keys && Slot(j, n, level) / 64 == t {
      assert j in keys + {k};
    }
  }

  /** The marked node itself. */
  lemma MarkedHere(w: WNode, at: map<GPos, Child>, at': map<GPos, Child>, keys: Keys, n: nat, level: nat, k: nat)
    requires level < n && Shows(w, at, keys, n, level, Slot(k, n, level) / 256)
    requires var gp := GPos(level, Slot(k, n, level) / 64); gp in at' && at' == at[gp := at'[gp]]
    ensures var t := Slot(k, n, level);
      Shows(MarkedNode(w, t, at'[GPos(level, t / 64)]), at', keys + {k}, n, level, t / 256)
  {
    hide HasAt, Occ, Or, One, Slot;
    var t := Slot(k, n, level);
    var w' := MarkedNode(w, t, at'[GPos(level, t / 64)]);
    SlotParts(t);
    forall b: nat {:trigger HasAt(w'.bits, b)} | b < 256
      ensures HasAt(w'.bits, b) <==> HasAt(w.bits, b) || b == t % 256
      ensures Occ(keys + {k}, n, level, 256 * (t / 256) + b) <==>
        Occ(keys, n, level, 256 * (t / 256) + b) || b == t % 256
    {
      MarkedBits(w, t, at'[GPos(level, t / 64)], b);
      OccAdd(keys, n, level, k, 256 * (t / 256) + b);
    }
  }

  /** A node elsewhere. */
  lemma MarkedElsewhere(w: WNode, at: map<GPos, Child>, at': map<GPos, Child>, keys: Keys, keys': Keys, n: nat,
      level: nat, k: nat, j: nat, q: nat)
    requires level < n && j < n && Shows(w, at, keys, n, j, q)
    requires var gp := GPos(level, Slot(k, n, level) / 64); gp in at' && at' == at[gp := at'[gp]]
    requires if j == level then q != Slot(k, n, level) / 256 && keys' == keys + {k} else keys' == keys
    ensures Shows(w, at', keys', n, j, q)
  {
    hide HasAt, Occ, Slot;
    var t := Slot(k, n, level);
    SlotParts(t);
    forall i {:trigger w.children[i]} | 0 <= i < 4
      ensures Get(at', GPos(j, 4 * q + i)) == Get(at, GPos(j, 4 * q + i))
    {
      assert (4 * q + i) / 4 == q;
    }
    forall b: nat {:trigger HasAt(w.bits, b)} | b < 256
      ensures Occ(keys', n, j, 256 * q + b) <==> Occ(keys, n, j, 256 * q + b)
    {
      if j == level {
        OccAdd(keys, n, j, k, 256 * q + b);
      }
    }
  }

  lemma NoneInGroup(keys: Keys, n: nat, level: nat, g: nat)
    requires level < n && forall t: nat {:trigger Occ(keys, n, level, t)} :: t / 256 == g / 4 ==>
      !Occ(keys, n, level, t)
    ensures !OccGroup(keys, n, level, g)
  {
    hide Slot;
    forall j: nat | j in keys
      ensures Slot(j, n, level) / 64 != g
    {
      assert Occ(keys, n, level, Slot(j, n, level));
      SlotParts(Slot(j, n, level));
    }
  }

  lemma EmptyBits(b: nat)
    ensures !HasAt(EMPTY.bits, b)
  {
    hide Has;
    if b / 64 < 4 && Has(EMPTY.bits[b / 64], b % 64) {
      HasSmall(EMPTY.bits[b / 64], b % 64);
    }
  }

  /** A node in the new group. */
  lemma MarkedBelow(s: State, ks: seq<Keys>, gp: GPos, at': map<GPos, Child>, q: nat)
    requires Sound(s, ks) && gp !in s.at && gp.level + 1 < s.n && ks[gp.level + 1] == ks[gp.level]
    requires gp in at' && at' == s.at[gp := at'[gp]] && q / 64 == gp.id
    ensures Shows(EMPTY, at', ks[gp.level + 1], s.n, gp.level + 1, q)
  {
    hide HasAt, Slot;
    var level, keys := gp.level + 1, ks[gp.level + 1];
    forall t: nat | t / 256 == q
      ensures !Occ(keys, s.n, level, t)
    {
      if j: nat :| j in keys && Slot(j, s.n, level) == t {
        SlotUp(j, s.n, level);
        AbsentNone(s, ks, gp, j);
      }
    }
    forall b: nat
      ensures !HasAt(EMPTY.bits, b)
    {
      EmptyBits(b);
    }
    forall i | 0 <= i < 4
      ensures EMPTY.children[i] == Get(at', GPos(level, 4 * q + i))
    {
      var p := GPos(level, 4 * q + i);
      assert PresentFine(s, ks, p);
      NoneInGroup(keys, s.n, level, p.id);
    }
  }

  /** The slot of `k` can be marked: its node is there, and a new group is at hand if one is needed. */
  ghost predicate CanMark(s: State, ks: seq<Keys>, k: nat, level: nat, c: Child) {
    && Sound(s, ks) && level < s.n && Exists(s, level, Slot(k, s.n, level) / 256) && k < Pow2(8 * s.n)
    && (level + 1 < s.n ==> ks[level + 1] == ks[level])
    && (GPos(level, Slot(k, s.n, level) / 64) in s.at || Unused(s, c, level == s.n - 1))
  }

  ghost function WithGroup(s: State, gp: GPos, c: Child): State
    requires gp in s.at || c != NoChild
  {
    if gp in s.at then s else AddGroup(s, gp, c)
  }

  lemma WithGroupFits(s: State, gp: GPos, c: Child)
    requires Fits(s) && gp.level < s.n && (gp in s.at || Unused(s, c, gp.level == s.n - 1))
    ensures Fits(WithGroup(s, gp, c))
    ensures gp in WithGroup(s, gp, c).at && WithGroup(s, gp, c).at == s.at[gp := WithGroup(s, gp, c).at[gp]]
  {
    if gp !in s.at {
      AddGroupFits(s, gp, c);
    }
  }

  lemma WithGroupAt(s: State, gp: GPos, c: Child, j: nat, q: nat)
    requires Fits(s) && gp.level < s.n && (gp in s.at || Unused(s, c, gp.level == s.n - 1))
    requires Fits(WithGroup(s, gp, c))
    ensures Exists(WithGroup(s, gp, c), j, q) ==>
      if gp !in s.at && j == gp.level + 1 && q / 64 == gp.id then NodeAt(WithGroup(s, gp, c), j, q) == EMPTY
      else Exists(s, j, q) && NodeAt(WithGroup(s, gp, c), j, q) == NodeAt(s, j, q)
    ensures Exists(s, j, q) ==> Exists(WithGroup(s, gp, c), j, q)
  {
    hide GroupOk, EmptyGroup, NoValues;
    if gp !in s.at && Exists(AddGroup(s, gp, c), j, q) {
      AddGroupAt(s, gp, c, j, q);
    }
  }

  lemma NodeShows(s: State, ks: seq<Keys>, level: nat, p: nat)
    requires Sound(s, ks) && Exists(s, level, p)
    ensures level < s.n && Shows(NodeAt(s, level, p), s.at, ks[level], s.n, level, p)
  {
    assert NodeFine(s, ks, level, p);
  }

  /** Every node of the tree with a marked slot is in order. */
  lemma MarkNode(s: State, ks: seq<Keys>, k: nat, level: nat, c: Child, s1: State, w: WNode, s2: State, j: nat, q: nat)
    requires CanMark(s, ks, k, level, c)
    requires var t := Slot(k, s.n, level); var gp := GPos(level, t / 64);
      && s1 == WithGroup(s, gp, c) && Fits(s1) && gp in s1.at && s1.at == s.at[gp := s1.at[gp]]
        && Exists(s1, level, t / 256)
      && w == NodeAt(s, level, t / 256) && |w.bits| == 4 && |w.children| == 4
      && s2 == PutNode(s1, level, t / 256, MarkedNode(w, t, s1.at[gp])) && Fits(s2)
    requires Exists(s2, j, q)
    ensures NodeFine(s2, ks[level := ks[level] + {k}], j, q)
  {
    hide Sound, Fits, NodeAt, Shows, MarkedNode, Slot, PutNode, WithGroup, EMPTY;
    var t := Slot(k, s.n, level);
    IsFit(s, ks);
    var gp, keys := GPos(level, t / 64), ks[level];
    SameShape(s1, level, t / 256, MarkedNode(w, t, s1.at[gp]));
    WithGroupSame(s, gp, c);
    PutNodeAt(s1, level, t / 256, MarkedNode(w, t, s1.at[gp]), j, q);
    WithGroupAt(s, gp, c, j, q);
    if j == level && q == t / 256 {
      NodeShows(s, ks, level, q);
      MarkedHere(w, s.at, s1.at, keys, s.n, level, k);
    } else if gp !in s.at && j == level + 1 && q / 64 == gp.id {
      MarkedBelow(s, ks, gp, s1.at, q);
    } else {
      NodeShows(s, ks, j, q);
      MarkedElsewhere(NodeAt(s, j, q), s.at, s1.at, ks[j], if j == level then keys + {k}
        else ks[j], s.n, level, k, j, q);
    }
  }

  lemma IsFit(s: State, ks: seq<Keys>)
    requires Sound(s, ks)
    ensures Fits(s) && |ks| == s.n && |s.root.bits| == 4
  {
  }

  lemma SameShape(s: State, level: nat, p: nat, w: WNode)
    requires Fits(s) && Exists(s, level, p)
    ensures PutNode(s, level, p, w).at == s.at && PutNode(s, level, p, w).n == s.n
  {
  }

  lemma WithGroupSame(s: State, gp: GPos, c: Child)
    requires gp in s.at || c != NoChild
    ensures WithGroup(s, gp, c).n == s.n && WithGroup(s, gp, c).root == s.root
  {
  }

  /** The tree with the slot of `k` at a level marked; `c` is the new group if one is needed. */
  ghost function Marked(s: State, k: nat, level: nat, c: Child): State
    requires Fits(s) && level < s.n && Exists(s, level, Slot(k, s.n, level) / 256)
    requires var w := NodeAt(s, level, Slot(k, s.n, level) / 256); |w.bits| == 4 && |w.children| == 4
    requires var gp := GPos(level, Slot(k, s.n, level) / 64);
      (gp in s.at || c != NoChild) && Fits(WithGroup(s, gp, c)) && gp in WithGroup(s, gp, c).at
        && Exists(WithGroup(s, gp, c), level, Slot(k, s.n, level) / 256)
  {
    var t := Slot(k, s.n, level);
    var s1 := WithGroup(s, GPos(level, t / 64), c);
    PutNode(s1, level, t / 256, MarkedNode(NodeAt(s, level, t / 256), t, s1.at[GPos(level, t / 64)]))
  }

  lemma MarkPresent(s: State, ks: seq<Keys>, k: nat, level: nat, at': map<GPos, Child>, root': WNode, p: GPos)
    requires Sound(s, ks) && level < s.n && k < Pow2(8 * s.n) && p.level < s.n
    requires var t := Slot(k, s.n, level); var gp := GPos(level, t / 64);
      && gp in at' && at' == s.at[gp := at'[gp]]
      && |root'.bits| == 4
      && if level == 0 then Exists(s, 0, t / 256) && |s.root.children| == 4 && root' == MarkedNode(s.root, t, at'[gp])
        else root' == s.root
    ensures PresentOk(s.(at := at', root := root'), ks[level := ks[level] + {k}][p.level], p)
  {
    hide HasAt, Slot, NodeFine;
    var t := Slot(k, s.n, level);
    assert PresentFine(s, ks, p);
    SlotParts(t);
    OccAdd(ks[level], s.n, level, k, p.id);
    if level == 0 {
      OrNonZero(s.root.bits[t / 64 % 4], t % 64);
    }
  }

  lemma OrNonZero(w: Word, i: nat)
    requires i < 64
    ensures Or(w, One(i)) != 0
  {
    hide Has, One, Or;
    SetHas(w, i, i);
    HasSmall(Or(w, One(i)), i);
  }

  /** Marking a slot keeps the tree in order, for one key more at this level. */
  lemma MarkSound(s: State, ks: seq<Keys>, k: nat, level: nat, c: Child)
    requires CanMark(s, ks, k, level, c)
    ensures var t := Slot(k, s.n, level); var gp := GPos(level, t / 64); var s1 := WithGroup(s, gp, c);
      && Fits(s) && (gp in s.at || c != NoChild) && Fits(s1) && gp in s1.at && Exists(s1, level, t / 256)
      && var w := NodeAt(s, level, t / 256);
      && |w.bits| == 4 && |w.children| == 4
      && Sound(Marked(s, k, level, c), ks[level := ks[level] + {k}])
      && Marked(s, k, level, c).n == s.n && Marked(s, k, level, c).at == s1.at
      && (level + 1 < s.n ==> Exists(Marked(s, k, level, c), level + 1, t))
  {
    hide NodeAt, NodeFine, PresentFine, MarkedNode, Slot, Shows, WithGroup, PutNode, PresentOk, Fits;
    IsFit(s, ks);
    var t := Slot(k, s.n, level);
    var gp := GPos(level, t / 64);
    assert Unused(s, c, level == s.n - 1) ==> c != NoChild;
    WithGroupFits(s, gp, c);
    WithGroupSame(s, gp, c);
    var s1 := WithGroup(s, gp, c);
    WithGroupAt(s, gp, c, level, t / 256);
    NodeShows(s, ks, level, t / 256);
    ShowsSizes(NodeAt(s, level, t / 256), s.at, ks[level], s.n, level, t / 256);
    var w' := MarkedNode(NodeAt(s, level, t / 256), t, s1.at[gp]);
    var s2 := PutNode(s1, level, t / 256, w');
    PutNodeFits(s1, level, t / 256, w');
    SameShape(s1, level, t / 256, w');
    var ks' := ks[level := ks[level] + {k}];
    forall j: nat, q: nat {:trigger NodeFine(s2, ks', j, q)} | Exists(s2, j, q)
      ensures NodeFine(s2, ks', j, q)
    {
      MarkNode(s, ks, k, level, c, s1, NodeAt(s, level, t / 256), s2, j, q);
    }
    MarkRoot(s, ks, k, level, s1, t, w', s2);
    forall p: GPos {:trigger PresentFine(s2, ks', p)} | p.level < s2.n
      ensures PresentFine(s2, ks', p)
    {
      MarkPresent(s, ks, k, level, s1.at, s2.root, p);
      SamePresent(s.(at := s1.at, root := s2.root), s2, ks', p);
    }
  }

  lemma SamePresent(s: State, s': State, ks: seq<Keys>, p: GPos)
    requires s.n == s'.n == |ks| && s.at == s'.at && s.root == s'.root && p.level < s.n && |s.root.bits| == 4
    requires PresentOk(s, ks[p.level], p)
    ensures PresentFine(s', ks, p)
  {
  }

  lemma ShowsSizes(w: WNode, at: map<GPos, Child>, keys: Keys, n: nat, level: nat, p: nat)
    requires level < n && Shows(w, at, keys, n, level, p)
    ensures |w.bits| == 4 && |w.children| == 4
  {
  }

  lemma MarkRoot(s: State, ks: seq<Keys>, k: nat, level: nat, s1: State, t: nat, w: WNode, s2: State)
    requires Sound(s, ks) && Fits(s1) && s1.root == s.root && s1.n == s.n && Exists(s, level, t / 256)
      && Exists(s1, level, t / 256)
    requires |NodeAt(s, level, t / 256).bits| == 4 && |NodeAt(s, level, t / 256).children| == 4
    requires GPos(level, t / 64) in s1.at && w == MarkedNode(NodeAt(s, level, t / 256), t, s1.at[GPos(level, t / 64)])
    requires s2 == PutNode(s1, level, t / 256, w)
    ensures |s2.root.bits| == 4
    ensures if level == 0 then |s.root.children| == 4 && s2.root == MarkedNode(s.root, t, s1.at[GPos(0, t / 64)])
      else s2.root == s.root
  {
  }

  // ---------- a slot cleared ----------

  /** The slot of `k` can be cleared: no other key has it, and the levels below are done. */
  ghost predicate CanClear(s: State, ks: seq<Keys>, k: nat, level: nat) {
    && Sound(s, ks) && 0 < level < s.n && Exists(s, level, Slot(k, s.n, level) / 256)
    && (level + 1 < s.n ==> ks[level + 1] == ks[level] - {k})
    && !Occ(ks[level] - {k}, s.n, level, Slot(k, s.n, level))
  }

  ghost function ClearedBits(bits: seq<Word>, t: nat): seq<Word>
    requires |bits| == 4
  {
    bits[t / 64 % 4 := AndNot(bits[t / 64 % 4], One(t % 64))]
  }

  /** The last slot of a group is cleared. */
  ghost predicate Drops(w: WNode, t: nat)
    requires |w.bits| == 4 && |w.children| == 4
  {
    ClearedBits(w.bits, t)[t / 64 % 4] == 0 && w.children[t / 64 % 4] != NoChild
  }

  ghost function ClearedNode(w: WNode, t: nat): WNode
    requires |w.bits| == 4 && |w.children| == 4
  {
    WNode(ClearedBits(w.bits, t), if Drops(w, t) then w.children[t / 64 % 4 := NoChild] else w.children)
  }

  ghost function WithoutGroup(s: State, w: WNode, gp: GPos, t: nat): State
    requires |w.bits| == 4 && |w.children| == 4
  {
    if Drops(w, t) && gp in s.at then DropGroup(s, gp) else s
  }

  lemma ClearedHas(bits: seq<Word>, t: nat, b: nat)
    requires |bits| == 4 && b < 256
    ensures HasAt(ClearedBits(bits, t), b) <==> HasAt(bits, b) && b != t % 256
  {
    hide Has, One, AndNot;
    SlotParts(t);
    ClearHas(bits[t / 64 % 4], t % 64, b % 64);
  }

  lemma OccDrop(keys: Keys, n: nat, level: nat, k: nat, x: nat)
    requires level < n && !Occ(keys - {k}, n, level, Slot(k, n, level))
    ensures Occ(keys - {k}, n, level, x) <==> Occ(keys, n, level, x) && x != Slot(k, n, level)
    ensures x != Slot(k, n, level) / 64 ==> (OccGroup(keys - {k}, n, level, x) <==> OccGroup(keys, n, level, x))
  {
    hide Slot;
    if j: nat :| j in keys && Slot(j, n, level) == x && j != k {
      assert j in keys - {k};
    }
    if j: nat :| j in keys && Slot(j, n, level) / 64 == x && j != k {
      assert j in keys - {k};
    }
  }

  /** A word of a node is zero exactly if no key needs the group. */
  lemma GroupBits(w: WNode, at: map<GPos, Child>, keys: Keys, n: nat, level: nat, p: nat, i: nat)
    requires 0 < level < n && i < 4 && Shows(w, at, keys, n, level, p)
    ensures w.bits[i] != 0 <==> OccGroup(keys, n, level, 4 * p + i)
  {
    hide Has, Slot, One, LowBit;
    if w.bits[i] != 0 {
      var r := LowBitIs(w.bits[i]);
      var b := 64 * i + r;
      assert b / 64 == i && b % 64 == r;
      assert HasAt(w.bits, b);
      var j: nat :| j in keys && Slot(j, n, level) == 256 * p + b;
      assert Slot(j, n, level) / 64 == 4 * p + i;
    }
    if j: nat :| j in keys && Slot(j, n, level) / 64 == 4 * p + i {
      var t := Slot(j, n, level);
      SlotParts(t);
      assert Occ(keys, n, level, 256 * p + t % 256);
      assert HasAt(w.bits, t % 256);
      HasSmall(w.bits[i], t % 64);
    }
  }

  /** The cleared node itself. */
  lemma ClearedHere(w: WNode, at: map<GPos, Child>, at': map<GPos, Child>, keys: Keys, n: nat, level: nat, k: nat)
    requires 0 < level < n && Shows(w, at, keys, n, level, Slot(k, n, level) / 256)
    requires !Occ(keys - {k}, n, level, Slot(k, n, level))
    requires at' == if Drops(w, Slot(k, n, level)) then at - {GPos(level, Slot(k, n, level) / 64)} else at
    ensures Shows(ClearedNode(w, Slot(k, n, level)), at', keys - {k}, n, level, Slot(k, n, level) / 256)
  {
    hide HasAt, Occ, One, Slot, Drops, ClearedBits;
    var t := Slot(k, n, level);
    var w' := ClearedNode(w, t);
    SlotParts(t);
    assert |w'.bits| == 4 by { ClearedSize(w.bits, t); }
    forall b: nat {:trigger HasAt(w'.bits, b)} | b < 256
      ensures HasAt(w'.bits, b) <==> HasAt(w.bits, b) && b != t % 256
      ensures Occ(keys - {k}, n, level, 256 * (t / 256) + b) <==>
        Occ(keys, n, level, 256 * (t / 256) + b) && b != t % 256
    {
      ClearedHas(w.bits, t, b);
      OccDrop(keys, n, level, k, 256 * (t / 256) + b);
    }
  }

  lemma ClearedSize(bits: seq<Word>, t: nat)
    requires |bits| == 4
    ensures |ClearedBits(bits, t)| == 4
  {
  }

  /** A node elsewhere. */
  lemma ClearedElsewhere(w: WNode, at: map<GPos, Child>, at': map<GPos, Child>, keys: Keys, keys': Keys, n: nat,
      level: nat, k: nat, j: nat, q: nat)
    requires level < n && j < n && Shows(w, at, keys, n, j, q)
    requires at' == at || at' == at - {GPos(level, Slot(k, n, level) / 64)}
    requires if j == level then q != Slot(k, n, level) / 256 && keys' == keys - {k} && !Occ(keys', n, level, Slot(k, n,
      level)) else keys' == keys
    ensures Shows(w, at', keys', n, j, q)
  {
    hide HasAt, Occ, Slot;
    var t := Slot(k, n, level);
    SlotParts(t);
    forall i {:trigger w.children[i]} | 0 <= i < 4
      ensures Get(at', GPos(j, 4 * q + i)) == Get(at, GPos(j, 4 * q + i))
    {
      assert (4 * q + i) / 4 == q;
    }
    forall b: nat {:trigger HasAt(w.bits, b)} | b < 256
      ensures Occ(keys', n, j, 256 * q + b) <==> Occ(keys, n, j, 256 * q + b)
    {
      if j == level {
        OccDrop(keys, n, j, k, 256 * q + b);
      }
    }
  }

  lemma WithoutGroupFits(s: State, w: WNode, gp: GPos, t: nat)
    requires Fits(s) && |w.bits| == 4 && |w.children| == 4
    ensures Fits(WithoutGroup(s, w, gp, t)) && WithoutGroup(s, w, gp, t).n == s.n
      && WithoutGroup(s, w, gp, t).root == s.root
    ensures WithoutGroup(s, w, gp, t).at == if Drops(w, t) then s.at - {gp} else s.at
  {
    if Drops(w, t) && gp in s.at {
      DropGroupFits(s, gp);
    }
  }

  lemma WithoutGroupAt(s: State, w: WNode, gp: GPos, t: nat, j: nat, q: nat)
    requires Fits(s) && |w.bits| == 4 && |w.children| == 4 && Fits(WithoutGroup(s, w, gp, t))
    ensures Exists(WithoutGroup(s, w, gp, t), j, q) ==>
      Exists(s, j, q) && NodeAt(WithoutGroup(s, w, gp, t), j, q) == NodeAt(s, j, q)
    ensures Exists(s, j, q) && j != gp.level + 1 ==> Exists(WithoutGroup(s, w, gp, t), j, q)
  {
    hide GroupOk, Drops;
    if Drops(w, t) && gp in s.at && Exists(DropGroup(s, gp), j, q) {
      DropGroupAt(s, gp, j, q);
    }
  }

  /** Every node of the tree with a cleared slot is in order. */
  lemma ClearNode(s: State, ks: seq<Keys>, k: nat, level: nat, s1: State, w: WNode, s2: State, j: nat, q: nat)
    requires CanClear(s, ks, k, level)
    requires var t := Slot(k, s.n, level); var gp := GPos(level, t / 64);
      && Fits(s) && w == NodeAt(s, level, t / 256) && |w.bits| == 4 && |w.children| == 4
      && s1 == WithoutGroup(s, w, gp, t) && Fits(s1) && Exists(s1, level, t / 256)
      && s1.n == s.n && s1.at == (if Drops(w, t) then s.at - {gp} else s.at)
      && s2 == PutNode(s1, level, t / 256, ClearedNode(w, t)) && Fits(s2)
    requires Exists(s2, j, q)
    ensures NodeFine(s2, ks[level := ks[level] - {k}], j, q)
  {
    hide Sound, Fits, NodeAt, Shows, ClearedNode, Slot, PutNode, WithoutGroup, Occ, Drops;
    IsFit(s, ks);
    var t := Slot(k, s.n, level);
    var gp, keys := GPos(level, t / 64), ks[level];
    SameShape(s1, level, t / 256, ClearedNode(w, t));
    PutNodeAt(s1, level, t / 256, ClearedNode(w, t), j, q);
    WithoutGroupAt(s, w, gp, t, j, q);
    if j == level && q == t / 256 {
      NodeShows(s, ks, level, q);
      ClearedHere(w, s.at, s1.at, keys, s.n, level, k);
    } else {
      NodeShows(s, ks, j, q);
      ClearedElsewhere(NodeAt(s, j, q), s.at, s1.at, ks[j], if j == level then keys - {k}
        else ks[j], s.n, level, k, j, q);
    }
  }

  lemma ClearPresent(s: State, ks: seq<Keys>, k: nat, level: nat, w: WNode, s': State, p: GPos)
    requires CanClear(s, ks, k, level) && Exists(s, level, Slot(k, s.n, level) / 256) && p.level < s.n
    requires Fits(s) && w == NodeAt(s, level, Slot(k, s.n, level) / 256) && |w.bits| == 4 && |w.children| == 4
    requires s'.n == s.n && s'.root == s.root
    requires s'.at == if Drops(w, Slot(k, s.n, level)) then s.at - {GPos(level, Slot(k, s.n, level) / 64)} else s.at
    ensures |s'.root.bits| == 4 && PresentFine(s', ks[level := ks[level] - {k}], p)
  {
    hide HasAt, Slot, NodeFine, Occ, NodeAt, Drops, ClearedBits;
    var t := Slot(k, s.n, level);
    var gp, keys := GPos(level, t / 64), ks[level];
    assert PresentFine(s, ks, p);
    SlotParts(t);
    if p.level == level {
      OccDrop(keys, s.n, level, k, p.id);
      if p == gp {
        NodeShows(s, ks, level, t / 256);
        ClearedHere(w, s.at, s'.at, keys, s.n, level, k);
        GroupBits(ClearedNode(w, t), s'.at, keys - {k}, s.n, level, t / 256, t / 64 % 4);
        if OccGroup(keys - {k}, s.n, level, p.id) {
          FewerKeys(keys, keys - {k}, s.n, level, p.id);
        }
        DropsIf(w, s.at, keys, s.n, level, t);
      }
    }
  }

  lemma FewerKeys(keys: Keys, keys': Keys, n: nat, level: nat, g: nat)
    requires level < n && keys' <= keys && OccGroup(keys', n, level, g)
    ensures OccGroup(keys, n, level, g)
  {
  }

  lemma DropsIf(w: WNode, at: map<GPos, Child>, keys: Keys, n: nat, level: nat, t: nat)
    requires level < n && Shows(w, at, keys, n, level, t / 256)
    ensures Drops(w, t) <==> ClearedNode(w, t).bits[t / 64 % 4] == 0 && Get(at, GPos(level, t / 64)) != NoChild
  {
    SlotParts(t);
  }

  /** The tree with the slot of `k` at a level cleared, and its group dropped with the last slot. */
  ghost function Cleared(s: State, k: nat, level: nat): State
    requires Fits(s) && level < s.n && Exists(s, level, Slot(k, s.n, level) / 256)
    requires var w := NodeAt(s, level, Slot(k, s.n, level) / 256); |w.bits| == 4 && |w.children| == 4
    requires var t := Slot(k, s.n, level); var s1 := WithoutGroup(s, NodeAt(s, level, t / 256), GPos(level, t / 64), t);
      Fits(s1) && Exists(s1, level, t / 256)
  {
    var t := Slot(k, s.n, level);
    var w := NodeAt(s, level, t / 256);
    PutNode(WithoutGroup(s, w, GPos(level, t / 64), t), level, t / 256, ClearedNode(w, t))
  }

  /** Clearing a slot keeps the tree in order, for one key less at this level. */
  lemma ClearSound(s: State, ks: seq<Keys>, k: nat, level: nat)
    requires CanClear(s, ks, k, level)
    ensures Fits(s)
    ensures |NodeAt(s, level, Slot(k, s.n, level) / 256).bits| == 4
      && |NodeAt(s, level, Slot(k, s.n, level) / 256).children| == 4
    ensures
      var t := Slot(k, s.n, level);
      var s1 := WithoutGroup(s, NodeAt(s, level, t / 256), GPos(level, t / 64), t);
      Fits(s1) && Exists(s1, level, t / 256) && Cleared(s, k, level).at == s1.at
    ensures
      var t := Slot(k, s.n, level);
      var s2 := Cleared(s, k, level);
      && Sound(s2, ks[level := ks[level] - {k}]) && s2.n == s.n && Exists(s2, level, t / 256)
      && NodeAt(s2, level, t / 256) == ClearedNode(NodeAt(s, level, t / 256), t)
  {
    hide NodeAt, NodeFine, PresentFine, ClearedNode, Slot, Shows, WithoutGroup, PutNode, PresentOk, Fits, Drops, Occ;
    IsFit(s, ks);
    var t := Slot(k, s.n, level);
    var gp := GPos(level, t / 64);
    NodeShows(s, ks, level, t / 256);
    var w := NodeAt(s, level, t / 256);
    ShowsSizes(w, s.at, ks[level], s.n, level, t / 256);
    WithoutGroupFits(s, w, gp, t);
    WithoutGroupAt(s, w, gp, t, level, t / 256);
    var s1 := WithoutGroup(s, w, gp, t);
    PutNodeFits(s1, level, t / 256, ClearedNode(w, t));
    SameShape(s1, level, t / 256, ClearedNode(w, t));
    PutNodeAt(s1, level, t / 256, ClearedNode(w, t), level, t / 256);
    var s2 := PutNode(s1, level, t / 256, ClearedNode(w, t));
    SameRoot(s1, level, t / 256, ClearedNode(w, t));
    var ks' := ks[level := ks[level] - {k}];
    forall j: nat, q: nat {:trigger NodeFine(s2, ks', j, q)} | Exists(s2, j, q)
      ensures NodeFine(s2, ks', j, q)
    {
      ClearNode(s, ks, k, level, s1, w, s2, j, q);
    }
    forall p: GPos {:trigger PresentFine(s2, ks', p)} | p.level < s2.n
      ensures PresentFine(s2, ks', p)
    {
      ClearPresent(s, ks, k, level, w, s2, p);
    }
  }

  lemma SameRoot(s: State, level: nat, p: nat, w: WNode)
    requires Fits(s) && Exists(s, level, p) && level > 0
    ensures PutNode(s, level, p, w).root == s.root
  {
  }

  // ---------- levels that stand for other keys ----------

  /** Other keys with the same slots: only the root may keep more than it needs. */
  ghost predicate Agree(n: nat, ks: seq<Keys>, ks': seq<Keys>) {
    && |ks| == |ks'| == n
    && (forall j: nat, x: nat {:trigger Occ(ks'[j], n, j, x)} :: 0 < j < n ==>
      (Occ(ks'[j], n, j, x) <==> Occ(ks[j], n, j, x)))
    && (forall j: nat, x: nat {:trigger OccGroup(ks'[j], n, j, x)} :: 0 < j < n ==>
      (OccGroup(ks'[j], n, j, x) <==> OccGroup(ks[j], n, j, x)))
    && (n > 0 ==> ks'[0] <= ks[0])
    && (forall j, k {:trigger k in ks'[j]} :: 0 <= j < n && k in ks'[j] ==> k < Pow2(8 * n))
  }

  lemma Relabel(s: State, ks: seq<Keys>, ks': seq<Keys>)
    requires Sound(s, ks) && Agree(s.n, ks, ks')
    ensures Sound(s, ks')
  {
    hide HasAt, NodeAt, Slot, Fits;
    IsFit(s, ks);
    forall j: nat, q: nat {:trigger NodeFine(s, ks', j, q)} | Exists(s, j, q)
      ensures NodeFine(s, ks', j, q)
    {
      assert NodeFine(s, ks, j, q);
      RelabelShows(NodeAt(s, j, q), s.at, ks[j], ks'[j], s.n, j, q);
    }
    forall p: GPos {:trigger PresentFine(s, ks', p)} | p.level < s.n
      ensures PresentFine(s, ks', p)
    {
      assert PresentFine(s, ks, p);
    }
  }

  lemma RelabelShows(w: WNode, at: map<GPos, Child>, keys: Keys, keys': Keys, n: nat, level: nat, p: nat)
    requires level < n && Shows(w, at, keys, n, level, p)
    requires if level == 0 then keys' <= keys
      else forall x: nat {:trigger Occ(keys', n, level, x)} :: Occ(keys', n, level, x) <==> Occ(keys, n, level, x)
    ensures Shows(w, at, keys', n, level, p)
  {
    hide HasAt, Slot;
  }

  /** A slot shared with another key stays occupied. */
  lemma SharedSlot(keys: Keys, k: nat, n: nat, level: nat, x: nat)
    requires level < n && Occ(keys - {k}, n, level, Slot(k, n, level))
    ensures Occ(keys - {k}, n, level, x) <==> Occ(keys, n, level, x)
    ensures OccGroup(keys - {k}, n, level, x) <==> OccGroup(keys, n, level, x)
  {
    hide Slot;
    var i: nat :| i in keys - {k} && Slot(i, n, level) == Slot(k, n, level);
    if j: nat :| j in keys && Slot(j, n, level) == x {
      assert (if j == k then i else j) in keys - {k};
    }
    if j: nat :| j in keys && Slot(j, n, level) / 64 == x {
      assert (if j == k then i else j) in keys - {k};
    }
  }

  /** `!(bits[0] || bits[1] || bits[2] || bits[3])` */
  predicate NoBits(bits: seq<Word>)
    requires |bits| == 4
  {
    bits[0] == 0 && bits[1] == 0 && bits[2] == 0 && bits[3] == 0
  }

  /** A node is empty exactly if no key has its slot in the level above. */
  lemma NodeEmpty(w: WNode, at: map<GPos, Child>, keys: Keys, n: nat, level: nat, p: nat)
    requires 0 < level < n && Shows(w, at, keys, n, level, p)
    ensures NoBits(w.bits) <==> !Occ(keys, n, level - 1, p)
  {
    hide Slot, HasAt;
    forall i: nat | i < 4
      ensures w.bits[i] != 0 <==> OccGroup(keys, n, level, 4 * p + i)
    {
      GroupBits(w, at, keys, n, level, p, i);
    }
    forall j: nat | j in keys
      ensures Slot(j, n, level - 1) == p <==> 4 * p <= Slot(j, n, level) / 64 < 4 * p + 4
    {
      SlotUp(j, n, level);
      SlotParts(Slot(j, n, level));
    }
    if j: nat :| j in keys && Slot(j, n, level - 1) == p {
      var i := Slot(j, n, level) / 64 - 4 * p;
      assert OccGroup(keys, n, level, 4 * p + i);
      assert w.bits[i] != 0;
    }
  }

  // ---------- dropped groups are clean ----------

  /** A group that no key needs any more holds nothing. */
  lemma DroppedNodes(s: State, ks: seq<Keys>, gp: GPos)
    requires Sound(s, ks) && gp in s.at && gp.level + 1 < s.n && !OccGroup(ks[gp.level + 1], s.n, gp.level, gp.id)
    ensures s.at[gp].Nodes? && s.at[gp].group in s.groups && s.groups[s.at[gp].group] == EmptyGroup()
  {
    hide EmptyGroup, HasAt, Slot;
    assert GroupOk(s, gp);
    var group := s.groups[s.at[gp].group];
    var level, keys := gp.level + 1, ks[gp.level + 1];
    EmptyGroupIs();
    forall i | 0 <= i < 64
      ensures group[i] == EMPTY
    {
      var q := 64 * gp.id + i;
      assert q / 64 == gp.id && q % 64 == i;
      assert Exists(s, level, q);
      NodeShows(s, ks, level, q);
      OccInGroup(keys, s.n, level - 1, q);
      EmptyNode(s, ks, level, q);
    }
  }

  lemma OccInGroup(keys: Keys, n: nat, level: nat, x: nat)
    requires level < n
    ensures Occ(keys, n, level, x) ==> OccGroup(keys, n, level, x / 64)
  {
  }

  lemma EmptyGroupIs()
    ensures |EmptyGroup()| == 64 && forall i :: 0 <= i < 64 ==> EmptyGroup()[i] == EMPTY
  {
  }

  lemma EmptyNode(s: State, ks: seq<Keys>, level: nat, q: nat)
    requires Sound(s, ks) && 0 < level < s.n && Exists(s, level, q) && !Occ(ks[level], s.n, level - 1, q)
    ensures Fits(s) && NodeAt(s, level, q) == EMPTY
  {
    hide HasAt, Slot;
    NodeShows(s, ks, level, q);
    var w := NodeAt(s, level, q);
    NodeEmpty(w, s.at, ks[level], s.n, level, q);
    forall i: nat | i < 4
      ensures w.children[i] == NoChild
    {
      GroupBits(w, s.at, ks[level], s.n, level, q, i);
      assert PresentFine(s, ks, GPos(level, 4 * q + i));
      assert w.children[i] == Get(s.at, GPos(level, 4 * q + i));
    }
    assert w.bits == EMPTY.bits && w.children == EMPTY.children;
  }

  lemma DroppedLeaves(s: State, vals: map<nat, Value>, g: nat)
    requires Fits(s) && Holds(s, vals) && GPos(s.n - 1, g) in s.at && !OccGroup(vals.Keys, s.n, s.n - 1, g)
    ensures var c := s.at[GPos(s.n - 1, g)]; c.Leaves? && c.values in s.leaves && s.leaves[c.values] == NoValues()
  {
    assert GroupOk(s, GPos(s.n - 1, g));
    var c := s.at[GPos(s.n - 1, g)];
    forall i: nat | i < 64
      ensures s.leaves[c.values][i] == 0
    {
      assert LeafOk(s, vals, g, i);
      SlotLast(64 * g + i, s.n);
      assert (64 * g + i) / 64 == g;
    }
  }

  // ---------- values ----------

  ghost function PutValue(s: State, k: nat, v: Value): State
    requires Fits(s) && GPos(s.n - 1, k / 64) in s.at
  {
    assert GroupOk(s, GPos(s.n - 1, k / 64));
    var o := s.at[GPos(s.n - 1, k / 64)].values;
    var values: seq<Value> := s.leaves[o][k % 64 := v];
    s.(leaves := s.leaves[o := values])
  }

  /** The map gets `v` for `k`, or loses `k` if that is 0. */
  ghost predicate Updated(vals: map<nat, Value>, k: nat, v: Value, vals': map<nat, Value>) {
    vals' == vals[k := v] || (v == 0 && vals' == vals - {k})
  }

  lemma PutValueFits(s: State, k: nat, v: Value)
    requires Fits(s) && GPos(s.n - 1, k / 64) in s.at
    ensures Fits(PutValue(s, k, v))
  {
    assert GroupOk(s, GPos(s.n - 1, k / 64));
    forall q: GPos | q in s.at
      ensures GroupOk(PutValue(s, k, v), q)
    {
      assert GroupOk(s, q);
    }
  }

  lemma PutValueSound(s: State, ks: seq<Keys>, k: nat, v: Value)
    requires Sound(s, ks) && GPos(s.n - 1, k / 64) in s.at
    ensures Fits(s) && Sound(PutValue(s, k, v), ks)
  {
    hide HasAt, Slot, Shows, PresentOk;
    PutValueFits(s, k, v);
    var s' := PutValue(s, k, v);
    forall j: nat, q: nat {:trigger NodeFine(s', ks, j, q)} | Exists(s', j, q)
      ensures NodeFine(s', ks, j, q)
    {
      assert NodeFine(s, ks, j, q);
      assert NodeAt(s', j, q) == NodeAt(s, j, q);
    }
    forall p: GPos {:trigger PresentFine(s', ks, p)} | p.level < s'.n
      ensures PresentFine(s', ks, p)
    {
      assert PresentFine(s, ks, p);
      SamePresent(s, s', ks, p);
    }
  }

  lemma PutValueHolds(s: State, vals: map<nat, Value>, k: nat, v: Value, vals': map<nat, Value>)
    requires Updated(vals, k, v, vals')
    requires Fits(s) && GPos(s.n - 1, k / 64) in s.at && Holds(s, vals) && Fits(PutValue(s, k, v))
    ensures Holds(PutValue(s, k, v), vals')
  {
    var s' := PutValue(s, k, v);
    assert GroupOk(s, GPos(s.n - 1, k / 64));
    forall g: nat, i: nat {:trigger LeafOk(s', vals', g, i)} | GPos(s.n - 1, g) in s'.at && i < 64
      ensures LeafOk(s', vals', g, i)
    {
      assert LeafOk(s, vals, g, i);
      assert GroupOk(s, GPos(s.n - 1, g));
      assert 64 * g + i == k <==> g == k / 64 && i == k % 64;
    }
  }

  /** New value groups hold no value, and node groups none at all. */
  lemma HasLevel(s: State)
    requires Fits(s)
    ensures s.n > 0
  {
  }

  lemma GroupAt(s: State, gp: GPos)
    requires Fits(s) && gp in s.at
    ensures GroupOk(s, gp)
  {
  }

  lemma LeafAt(s: State, vals: map<nat, Value>, g: nat, i: nat)
    requires Fits(s) && Holds(s, vals) && GPos(s.n - 1, g) in s.at && i < 64
    ensures LeafOk(s, vals, g, i)
  {
    hide Fits, LeafOk;
  }

  lemma WithGroupHolds(s: State, vals: map<nat, Value>, gp: GPos, c: Child)
    requires Fits(s) && Holds(s, vals) && gp.level < s.n && (gp in s.at || Unused(s, c, gp.level == s.n - 1))
      && Fits(WithGroup(s, gp, c))
    requires gp !in s.at && gp.level == s.n - 1 ==> !OccGroup(vals.Keys, s.n, s.n - 1, gp.id)
    ensures Holds(WithGroup(s, gp, c), vals)
  {
    hide Fits, LeafOk, GroupOk, OccGroup, Holds;
    if gp !in s.at {
      AddGroupHolds(s, vals, gp, c);
    }
  }

  lemma AddGroupHolds(s: State, vals: map<nat, Value>, gp: GPos, c: Child)
    requires Fits(s) && Holds(s, vals) && gp.level < s.n && gp !in s.at && Unused(s, c, gp.level == s.n - 1)
      && Fits(AddGroup(s, gp, c))
    requires gp.level == s.n - 1 ==> !OccGroup(vals.Keys, s.n, s.n - 1, gp.id)
    ensures Holds(AddGroup(s, gp, c), vals)
  {
    hide Fits, Holds, OccGroup;
    var s' := AddGroup(s, gp, c);
    HoldsAll(s', vals);
    forall g: nat, i: nat {:trigger LeafOk(s', vals, g, i)} | GPos(s.n - 1, g) in s'.at && i < 64
      ensures LeafOk(s', vals, g, i)
    {
      GroupAt(s', GPos(s.n - 1, g));
      if GPos(s.n - 1, g) in s.at {
        GroupAt(s, GPos(s.n - 1, g));
        LeafAt(s, vals, g, i);
      } else {
        NotInGroup(vals.Keys, s.n, g, i);
      }
    }
  }

  lemma NotInGroup(keys: Keys, n: nat, g: nat, i: nat)
    requires n > 0 && i < 64 && !OccGroup(keys, n, n - 1, g)
    ensures 64 * g + i !in keys
  {
    SlotLast(64 * g + i, n);
    assert (64 * g + i) / 64 == g;
  }

  lemma HoldsAll(s: State, vals: map<nat, Value>)
    requires Fits(s)
    ensures (forall g: nat, i: nat {:trigger LeafOk(s, vals, g, i)} ::
      GPos(s.n - 1, g) in s.at && i < 64 ==> LeafOk(s, vals, g, i)) ==> Holds(s, vals)
  {
    hide Fits, LeafOk;
  }

  lemma WithoutGroupHolds(s: State, vals: map<nat, Value>, w: WNode, gp: GPos, t: nat)
    requires Fits(s) && Holds(s, vals) && |w.bits| == 4 && |w.children| == 4 && Fits(WithoutGroup(s, w, gp, t))
    ensures Holds(WithoutGroup(s, w, gp, t), vals)
  {
    hide Drops, Fits, Holds;
    var s' := WithoutGroup(s, w, gp, t);
    HasLevel(s);
    HoldsAll(s', vals);
    forall g: nat, i: nat {:trigger LeafOk(s', vals, g, i)} | GPos(s.n - 1, g) in s'.at && i < 64
      ensures LeafOk(s', vals, g, i)
    {
      GroupAt(s', GPos(s.n - 1, g));
      GroupAt(s, GPos(s.n - 1, g));
      LeafAt(s, vals, g, i);
    }
  }

  lemma PutNodeHolds(s: State, vals: map<nat, Value>, level: nat, p: nat, w: WNode)
    requires Fits(s) && Holds(s, vals) && Exists(s, level, p) && Fits(PutNode(s, level, p, w))
    ensures Holds(PutNode(s, level, p, w), vals)
  {
    var s' := PutNode(s, level, p, w);
    forall g: nat, i: nat {:trigger LeafOk(s', vals, g, i)} | GPos(s.n - 1, g) in s'.at && i < 64
      ensures LeafOk(s', vals, g, i)
    {
      assert LeafOk(s, vals, g, i);
    }
  }
}
