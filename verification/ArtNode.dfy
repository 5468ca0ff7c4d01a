/** The four node layouts of the adaptive radix tree, each holding a map from bytes to children. */
module ArtNode {
  import opened Sets

  type Byte = b: int | 0 <= b < 256

  type Key = seq<Byte>

  /** A `void*`; 0 is NULL. */
  type Value = nat

  const MAX_PREFIX_LEN: nat := 10

  class Leaf {
    const key: Key
    var value: Value

    constructor (key: Key, value: Value)
      ensures this.key == key && this.value == value
    {
      this.key := key;
      this.value := value;
    }
  }

  /** An `art_node*`: null, or tagged as a leaf or an inner node. */
  datatype Ref = Null | LeafRef(leaf: Leaf) | NodeRef(node: Node)

  datatype Kind = Node4 | Node16 | Node48 | Node256

  datatype Option<T> = None | Some(value: T)

  function KeySlots(kind: Kind): nat {
    match kind
    case Node4 => 4
    case Node16 => 16
    case Node48 => 256
    case Node256 => 0
  }

  function ChildSlots(kind: Kind): nat {
    match kind
    case Node4 => 4
    case Node16 => 16
    case Node48 => 48
    case Node256 => 256
  }

  /** How many children a node of each layout has in a tree at rest. */
  ghost predicate Sized(kind: Kind, count: nat) {
    match kind
    case Node4 => 2 <= count <= 4
    case Node16 => 4 <= count <= 16
    case Node48 => 13 <= count <= 48
    case Node256 => 38 <= count <= 256
  }

  function Min(a: int, b: int): int {
    if a < b then a else b
  }

  /** What the first `MAX_PREFIX_LEN` bytes of a prefix store. */
  ghost predicate Stores(partial: seq<Byte>, prefix: Key) {
    |partial| == MAX_PREFIX_LEN &&
    forall i :: 0 <= i < |prefix| && i < MAX_PREFIX_LEN ==> partial[i] == prefix[i]
  }

  /** Sorted parallel arrays: `keys[i]` leads to `children[i]`. */
  ghost predicate HoldsSorted(keys: seq<Byte>, children: seq<Ref>, count: int, kids: map<Byte, Ref>) {
    && 0 <= count <= |keys| && count <= |children| && count == |kids|
    && (forall i, j :: 0 <= i < j < count ==> keys[i] < keys[j])
    && (forall i {:trigger Entry(keys, children, kids, i)} :: 0 <= i < count ==> Entry(keys, children, kids, i))
    && (forall c {:trigger Listed(keys, count, c)} :: c in kids ==> Listed(keys, count, c))
  }

  ghost predicate Entry(keys: seq<Byte>, children: seq<Ref>, kids: map<Byte, Ref>, i: nat)
    requires i < |keys| && i < |children|
  {
    keys[i] in kids && kids[keys[i]] == children[i]
  }

  ghost predicate Listed(keys: seq<Byte>, count: nat, c: Byte)
    requires count <= |keys|
  {
    exists i :: 0 <= i < count && keys[i] == c
  }

  /** `keys[c]` is one more than the index of the child under `c`; unused children are null. */
  ghost predicate HoldsIndexed(keys: seq<Byte>, children: seq<Ref>, count: int, kids: map<Byte, Ref>) {
    && |keys| == 256 && |children| == 48 && count == |kids| <= 48
    && (forall c: Byte :: IndexEntry(keys, children, kids, c))
    && (forall c1: Byte, c2: Byte :: SameSlot(keys, c1, c2) ==> c1 == c2)
    && (forall i {:trigger Used(keys, i)} :: 0 <= i < 48 && children[i] != Null ==> Used(keys, i))
  }

  ghost predicate IndexEntry(keys: seq<Byte>, children: seq<Ref>, kids: map<Byte, Ref>, c: Byte)
    requires |keys| == 256 && |children| == 48
  {
    keys[c] <= 48 && (keys[c] != 0 <==> c in kids) && (c in kids ==> kids[c] == children[keys[c] - 1])
  }

  ghost predicate SameSlot(keys: seq<Byte>, c1: Byte, c2: Byte)
    requires |keys| == 256
  {
    keys[c1] == keys[c2] != 0
  }

  ghost predicate Used(keys: seq<Byte>, i: nat)
    requires |keys| == 256
  {
    exists c: Byte :: keys[c] == i + 1
  }

  /** Children sit under their own byte; the 8-bit count wraps to 0 when all 256 are there. */
  ghost predicate HoldsDirect(children: seq<Ref>, count: int, kids: map<Byte, Ref>) {
    && |children| == 256 && count == |kids| % 256
    && (forall c: Byte :: (children[c] != Null <==> c in kids) && (c in kids ==> kids[c] == children[c]))
  }

  ghost predicate HoldsLayout(kind: Kind, keys: seq<Byte>, children: seq<Ref>, count: int, kids: map<Byte, Ref>) {
    && (forall c :: c in kids ==> kids[c] != Null)
    && match kind
       case Node4 => HoldsSorted(keys, children, count, kids)
       case Node16 => HoldsSorted(keys, children, count, kids)
       case Node48 => HoldsIndexed(keys, children, count, kids)
       case Node256 => HoldsDirect(children, count, kids)
  }

  class Node {
    const kind: Kind
    var numChildren: Byte
    var partialLen: nat
    const partial: array<Byte>
    const keys: array<Byte>
    const children: array<Ref>

    ghost predicate Allocated() {
      && partial.Length == MAX_PREFIX_LEN && keys.Length == KeySlots(kind) && children.Length == ChildSlots(kind)
      && partial != keys
    }

    ghost predicate Within(s: set<object>) {
      this in s && partial in s && keys in s && children in s
    }

    ghost predicate Outside(s: set<object>) {
      this !in s && partial !in s && keys !in s && children !in s
    }

    ghost function Owned(): set<object> {
      {this, partial, keys, children}
    }

    ghost predicate Holds(kids: map<Byte, Ref>)
      reads this, keys, children
    {
      Allocated() && HoldsLayout(kind, keys[..], children[..], numChildren, kids)
    }

    /** `&children[index]` is where the child under `c` is stored. */
    ghost predicate At(index: nat, c: Byte)
      reads this, keys
    {
      && Allocated() && index < children.Length
      && match kind
         case Node4 => index < numChildren && index < keys.Length && keys[index] == c
         case Node16 => index < numChildren && index < keys.Length && keys[index] == c
         case Node48 => keys[c] == index + 1
         case Node256 => index == c
    }

    /** alloc_node: everything zero. */
    constructor (kind: Kind)
      ensures this.kind == kind && numChildren == 0 && partialLen == 0
      ensures fresh(partial) && fresh(keys) && fresh(children)
      ensures Holds(map[])
      ensures forall i :: 0 <= i < keys.Length ==> keys[i] == 0
      ensures forall i :: 0 <= i < children.Length ==> children[i] == Null
    {
      this.kind := kind;
      numChildren := 0;
      partialLen := 0;
      partial := new Byte[MAX_PREFIX_LEN](_ => 0);
      keys := new Byte[KeySlots(kind)](_ => 0);
      children := new Ref[ChildSlots(kind)](_ => Null);
    }

    method CopyHeader(src: Node)
      requires Allocated() && src.Allocated() && partial != src.partial && partial != src.keys
      modifies this, partial
      ensures numChildren == src.numChildren && partialLen == src.partialLen
      ensures forall i :: 0 <= i < Min(MAX_PREFIX_LEN, partialLen) ==> partial[i] == src.partial[i]
    {
      numChildren := src.numChildren;
      partialLen := src.partialLen;
      forall i | 0 <= i < Min(MAX_PREFIX_LEN, src.partialLen) {
        partial[i] := src.partial[i];
      }
    }

    /** find_child: the place of the child under `c`, or None for a null pointer. */
    method FindChild(c: Byte, ghost kids: map<Byte, Ref>) returns (r: Option<nat>)
      requires Holds(kids)
      ensures r.Some? <==> c in kids
      ensures r.Some? ==> At(r.value, c) && children[r.value] == kids[c]
    {
      match kind {
        case Node4 =>
          r := FindChild4(c, kids);
        case Node16 =>
          r := FindChild16(c, kids);
        case Node48 =>
          assert IndexEntry(keys[..], children[..], kids, c);
          var i := keys[c];
          r := if i != 0 then Some(i - 1) else None;
        case Node256 =>
          r := if children[c] != Null then Some(c) else None;
      }
    }

    method FindChild4(c: Byte, ghost kids: map<Byte, Ref>) returns (r: Option<nat>)
      requires Holds(kids) && kind == Node4
      ensures r.Some? <==> c in kids
      ensures r.Some? ==> At(r.value, c) && children[r.value] == kids[c]
    {
      var i := 0;
      while i < numChildren
        invariant 0 <= i <= numChildren
        invariant forall j :: 0 <= j < i ==> keys[j] != c
      {
        if keys[i] == c {
          assert Entry(keys[..], children[..], kids, i);
          return Some(i);
        }
        i := i + 1;
      }
      assert !Listed(keys[..], numChildren, c);
      return None;
    }

    method FindChild16(c: Byte, ghost kids: map<Byte, Ref>) returns (r: Option<nat>)
      requires Holds(kids) && kind == Node16
      ensures r.Some? <==> c in kids
      ensures r.Some? ==> At(r.value, c) && children[r.value] == kids[c]
    {
      var bitfield: seq<bool> := [];
      for i := 0 to 16
        invariant |bitfield| == i
        invariant forall j :: 0 <= j < i ==> bitfield[j] == (keys[j] == c)
      {
        bitfield := bitfield + [keys[i] == c];
      }
      var i := LowestSet(bitfield, numChildren);
      if i < numChildren {
        assert Entry(keys[..], children[..], kids, i);
        return Some(i);
      }
      assert !Listed(keys[..], numChildren, c);
      return None;
    }

    /** Writes through a child pointer. */
    method SetChild(index: nat, r: Ref, ghost c: Byte, ghost kids: map<Byte, Ref>)
      requires Holds(kids) && At(index, c) && c in kids && r != Null
      modifies children
      ensures Holds(kids[c := r])
    {
      ghost var before := children[..];
      children[index] := r;
      assert children[..] == before[index := r];
      SetLayout(kind, keys[..], before, numChildren, kids, index, c, r);
    }

    // ---------- adding a child ----------

    /** add_child: stores `child` under `c`, in this node or in the larger one that replaces it. */
    method AddChild(c: Byte, child: Ref, ghost kids: map<Byte, Ref>) returns (r: Node)
      requires Holds(kids) && c !in kids && child != Null
      modifies this, keys, children
      ensures r.Holds(kids[c := child])
      ensures r == this || fresh(r.Owned())
      ensures r.SameHeader(old(partialLen), old(partial[..]))
      ensures r != this <==>
        (kind == Node4 && |kids| == 4) || (kind == Node16 && |kids| == 16) || (kind == Node48 && |kids| == 48)
      ensures r != this ==> r.numChildren == |kids| + 1
      ensures r != this ==>
        r.kind == if kind == Node4 then Node16 else if kind == Node16 then Node48 else Node256
      ensures r != this ==> unchanged(this) && unchanged(keys) && unchanged(children)
    {
      match kind
      case Node4 => r := AddChild4(c, child, kids);
      case Node16 => r := AddChild16(c, child, kids);
      case Node48 => r := AddChild48(c, child, kids);
      case Node256 => AddChild256(c, child, kids); r := this;
    }

    ghost predicate SameHeader(len: nat, bytes: seq<Byte>)
      reads this, partial
    {
      && partialLen == len && |bytes| == partial.Length == MAX_PREFIX_LEN
      && forall i :: 0 <= i < Min(MAX_PREFIX_LEN, len) ==> partial[i] == bytes[i]
    }

    method AddChild4(c: Byte, child: Ref, ghost kids: map<Byte, Ref>) returns (r: Node)
      requires kind == Node4 && Holds(kids) && c !in kids && child != Null
      modifies this, keys, children
      ensures r.Holds(kids[c := child])
      ensures r == this || fresh(r.Owned())
      ensures r.SameHeader(old(partialLen), old(partial[..]))
      ensures r != this <==> |kids| == 4
      ensures r != this ==> r.kind == Node16 && r.numChildren == 5
      ensures r != this ==> unchanged(this) && unchanged(keys) && unchanged(children)
      ensures |kids| < 4 ==> r == this
    {
      if numChildren < 4 {
        var idx := 0;
        while idx < numChildren && c >= keys[idx]
          invariant 0 <= idx <= numChildren
          invariant forall j :: 0 <= j < idx ==> keys[j] < c
        {
          assert Entry(keys[..], children[..], kids, idx);
          idx := idx + 1;
        }
        InsertAt(idx, c, child, kids);
        r := this;
      } else {
        r := Grow4(kids);
        r := r.AddChild16(c, child, kids);
      }
    }

    method Grow4(ghost kids: map<Byte, Ref>) returns (r: Node)
      requires kind == Node4 && Holds(kids)
      ensures fresh(r.Owned()) && r.kind == Node16 && r.Holds(kids) && r.numChildren == numChildren
      ensures r.SameHeader(partialLen, partial[..])
    {
      ghost var ks, cs := keys[..], children[..];
      assert HoldsSorted(ks, cs, numChildren, kids);
      r := new Node(Node16);
      forall i | 0 <= i < numChildren {
        r.children[i] := children[i];
      }
      forall i | 0 <= i < numChildren {
        r.keys[i] := keys[i];
      }
      r.CopyHeader(this);
      CopySorted(ks, cs, r.keys[..], r.children[..], numChildren, kids);
    }

    /** The two memmoves and the store that add_child4 and add_child16 end with. */
    method InsertAt(idx: nat, c: Byte, child: Ref, ghost kids: map<Byte, Ref>)
      requires (kind == Node4 || kind == Node16) && Holds(kids) && c !in kids && child != Null
      requires idx <= numChildren < keys.Length
      requires forall j :: 0 <= j < idx ==> keys[j] < c
      requires idx < numChildren ==> c < keys[idx]
      modifies this, keys, children
      ensures Holds(kids[c := child])
      ensures partialLen == old(partialLen)
    {
      ghost var n, ks, cs := numChildren, keys[..], children[..];
      ShiftUp(idx);
      keys[idx] := c;
      children[idx] := child;
      numChildren := numChildren + 1;
      InsertSorted(ks, cs, keys[..], children[..], n, kids, idx, c, child);
    }

    method ShiftUp(idx: nat)
      requires Allocated() && idx <= numChildren < keys.Length && numChildren < children.Length
      modifies keys, children
      ensures forall i :: 0 <= i < keys.Length ==>
        keys[i] == old(if idx < i <= numChildren then keys[i - 1] else keys[i])
      ensures forall i :: 0 <= i < children.Length ==>
        children[i] == old(if idx < i <= numChildren then children[i - 1] else children[i])
    {
      forall i | idx <= i < numChildren {
        keys[i + 1] := keys[i];
      }
      forall i | idx <= i < numChildren {
        children[i + 1] := children[i];
      }
    }

    method AddChild16(c: Byte, child: Ref, ghost kids: map<Byte, Ref>) returns (r: Node)
      requires kind == Node16 && Holds(kids) && c !in kids && child != Null
      modifies this, keys, children
      ensures r.Holds(kids[c := child])
      ensures r == this || fresh(r.Owned())
      ensures r.SameHeader(old(partialLen), old(partial[..]))
      ensures r != this <==> |kids| == 16
      ensures r != this ==> r.kind == Node48 && r.numChildren == 17
      ensures r != this ==> r.keys[c] == 17 && forall i :: 0 <= i < 16 ==> r.keys[old(keys[i])] == i + 1
      ensures r != this ==> unchanged(this) && unchanged(keys) && unchanged(children)
    {
      if numChildren < 16 {
        var idx := PlaceFor(c, kids);
        InsertAt(idx, c, child, kids);
        r := this;
      } else {
        r := Grow16(kids);
        ghost var index, cs := r.keys[..], r.children[..];
        SortedIn(keys[..], children[..], 16, kids);
        assert cs[16] == Null && forall i :: 0 <= i < 16 ==> cs[i] != Null;
        r := r.AddChild48(c, child, kids);
        assert forall i :: 0 <= i < 16 ==> r.keys[keys[i]] == index[keys[i]];
      }
    }

    method Grow16(ghost kids: map<Byte, Ref>) returns (r: Node)
      requires kind == Node16 && Holds(kids)
      ensures fresh(r.Owned()) && r.kind == Node48 && r.Holds(kids)
      ensures r.SameHeader(partialLen, partial[..])
      ensures forall i :: 0 <= i < numChildren ==> r.keys[keys[i]] == i + 1 && r.children[i] == children[i] != Null
      ensures forall i :: numChildren <= i < 48 ==> r.children[i] == Null
    {
      hide HoldsSorted, HoldsIndexed, HoldsDirect, IndexOf;
      ghost var ks, cs := keys[..], children[..];
      SortedFacts(ks, cs, numChildren, kids);
      r := new Node(Node48);
      forall i | 0 <= i < numChildren {
        r.children[i] := children[i];
      }
      NoIndex(ks, r.keys[..]);
      for i := 0 to numChildren
        modifies r.keys
        invariant IndexOf(ks, r.keys[..], i)
      {
        ghost var index := r.keys[..];
        r.keys[keys[i]] := i + 1;
        assert r.keys[..] == index[ks[i] := i + 1];
        IndexOfMore(ks, index, i);
      }
      r.CopyHeader(this);
      SortedToIndexed(ks, cs, r.keys[..], r.children[..], numChildren, kids);
      IndexAt(ks, cs, r.keys[..], numChildren, kids);
    }

    static lemma SortedIn(ks: seq<Byte>, cs: seq<Ref>, count: int, kids: map<Byte, Ref>)
      requires HoldsSorted(ks, cs, count, kids)
      ensures forall i :: 0 <= i < count ==> ks[i] in kids
    {
      forall i | 0 <= i < count
        ensures ks[i] in kids
      {
        assert Entry(ks, cs, kids, i);
      }
    }

    static lemma IndexAt(ks: seq<Byte>, cs: seq<Ref>, index: seq<Byte>, count: nat, kids: map<Byte, Ref>)
      requires HoldsSorted(ks, cs, count, kids) && (forall c :: c in kids ==> kids[c] != Null)
      requires |index| == 256 && count <= |ks| <= 16 && IndexOf(ks, index, count)
      ensures forall i :: 0 <= i < count ==> index[ks[i]] == i + 1 && cs[i] != Null
    {
      forall i | 0 <= i < count
        ensures cs[i] != Null
      {
        assert Entry(ks, cs, kids, i);
      }
    }

    static lemma SortedFacts(ks: seq<Byte>, cs: seq<Ref>, count: int, kids: map<Byte, Ref>)
      requires HoldsSorted(ks, cs, count, kids)
      ensures 0 <= count <= |ks| && count <= |cs| && count == |kids|
      ensures forall i, j :: 0 <= i < j < count ==> ks[i] < ks[j]
    {
    }

    static lemma NoIndex(ks: seq<Byte>, index: seq<Byte>)
      requires |index| == 256 && |ks| <= 16 && forall c: Byte :: index[c] == 0
      ensures IndexOf(ks, index, 0)
    {
    }

    /** Where the portable branch of add_child16 inserts `c`. */
    method PlaceFor(c: Byte, ghost kids: map<Byte, Ref>) returns (idx: nat)
      requires kind == Node16 && Holds(kids) && c !in kids
      ensures idx <= numChildren <= keys.Length
      ensures forall j :: 0 <= j < idx ==> keys[j] < c
      ensures idx < numChildren ==> c < keys[idx]
    {
      var bitfield: seq<bool> := [];
      for i := 0 to 16
        invariant |bitfield| == i
        invariant forall j :: 0 <= j < i ==> bitfield[j] == (c < keys[j])
      {
        bitfield := bitfield + [c < keys[i]];
      }
      idx := LowestSet(bitfield, numChildren);
      forall j: nat | j < idx
        ensures keys[j] < c
      {
        assert Entry(keys[..], children[..], kids, j);
      }
    }

    method AddChild48(c: Byte, child: Ref, ghost kids: map<Byte, Ref>) returns (r: Node)
      requires kind == Node48 && Holds(kids) && c !in kids && child != Null
      modifies this, keys, children
      ensures r.Holds(kids[c := child])
      ensures r == this || fresh(r.Owned())
      ensures r.SameHeader(old(partialLen), old(partial[..]))
      ensures r != this <==> |kids| == 48
      ensures r != this ==> r.kind == Node256 && r.numChildren == 49
      ensures |kids| < 48 ==> 0 < keys[c] <= 48 && keys[..] == old(keys[..])[c := keys[c]]
      ensures |kids| < 48 ==> children[..] == old(children[..])[keys[c] - 1 := child]
      ensures |kids| < 48 ==> old(children[..])[keys[c] - 1] == Null
      ensures |kids| < 48 ==> forall j :: 0 <= j < keys[c] - 1 ==> old(children[..])[j] != Null
      ensures r != this ==> unchanged(this) && unchanged(keys) && unchanged(children)
    {
      if numChildren < 48 {
        var pos := FreeSlot(kids);
        ghost var ks, cs := keys[..], children[..];
        children[pos] := child;
        keys[c] := pos + 1;
        numChildren := numChildren + 1;
        assert keys[..] == ks[c := pos + 1] && children[..] == cs[pos := child];
        InsertIndexed(ks, cs, numChildren - 1, kids, pos, c, child);
        r := this;
      } else {
        r := Grow48(kids);
        r.AddChild256(c, child, kids);
      }
    }

    method Grow48(ghost kids: map<Byte, Ref>) returns (r: Node)
      requires kind == Node48 && Holds(kids) && numChildren == 48
      ensures fresh(r.Owned()) && r.kind == Node256 && r.Holds(kids)
      ensures r.SameHeader(partialLen, partial[..])
    {
      ghost var ks, cs := keys[..], children[..];
      assert HoldsIndexed(ks, cs, numChildren, kids);
      r := new Node(Node256);
      for i := 0 to 256
        modifies r.children
        invariant forall j :: 0 <= j < 256 ==> r.children[j] == if j < i then ChildOf(ks, cs, j) else Null
      {
        assert IndexEntry(ks, cs, kids, i);
        if keys[i] != 0 {
          r.children[i] := children[keys[i] - 1];
        }
      }
      r.CopyHeader(this);
      IndexedToDirect(ks, cs, r.children[..], numChildren, kids);
    }

    /** A node of this layout with fewer than 48 children has an unused place, the first null one. */
    method FreeSlot(ghost kids: map<Byte, Ref>) returns (pos: nat)
      requires kind == Node48 && Holds(kids) && numChildren < 48
      ensures pos < 48 && children[pos] == Null && forall j :: 0 <= j < pos ==> children[j] != Null
    {
      pos := 0;
      ghost var seen: set<Byte> := {};
      while children[pos] != Null
        invariant pos < 48 && forall j :: 0 <= j < pos ==> children[j] != Null
        invariant |seen| == pos && forall c :: c in seen ==> c in kids && keys[c] <= pos
        decreases 48 - pos
      {
        assert Used(keys[..], pos);
        ghost var c: Byte :| keys[c] == pos + 1;
        assert IndexEntry(keys[..], children[..], kids, c);
        seen := seen + {c};
        SubsetSize(seen, kids.Keys);
        pos := pos + 1;
      }
    }

    method AddChild256(c: Byte, child: Ref, ghost kids: map<Byte, Ref>)
      requires kind == Node256 && Holds(kids) && c !in kids && child != Null
      modifies this, children
      ensures Holds(kids[c := child]) && partialLen == old(partialLen)
    {
      ghost var cs := children[..];
      numChildren := (numChildren + 1) % 256;
      children[c] := child;
      assert children[..] == cs[c := child];
      InsertDirect(cs, kids, c, child);
    }

    // ---------- removing a child ----------

    /** remove_child, up to the collapse of a node4 with one child left, which the tree does. */
    method RemoveChild(index: nat, c: Byte, ghost kids: map<Byte, Ref>) returns (r: Node)
      requires Holds(kids) && At(index, c) && c in kids && |kids| > 1
      modifies this, keys, children
      ensures r.Holds(kids - {c})
      ensures r == this || fresh(r.Owned())
      ensures r.SameHeader(old(partialLen), old(partial[..]))
      ensures r != this <==>
        (kind == Node16 && |kids| - 1 == 3) || (kind == Node48 && |kids| - 1 == 12)
        || (kind == Node256 && |kids| - 1 == 37)
      ensures r != this ==> r.numChildren == |kids| - 1
      ensures r != this ==>
        r.kind == if kind == Node16 then Node4 else if kind == Node48 then Node16 else Node48
    {
      match kind
      case Node4 => RemoveAt(index, c, kids); r := this;
      case Node16 => r := RemoveChild16(index, c, kids);
      case Node48 => r := RemoveChild48(c, kids);
      case Node256 => r := RemoveChild256(c, kids);
    }

    /** The two memmoves that remove_child4 and remove_child16 start with. */
    method RemoveAt(pos: nat, c: Byte, ghost kids: map<Byte, Ref>)
      requires (kind == Node4 || kind == Node16) && Holds(kids) && At(pos, c) && c in kids
      modifies this, keys, children
      ensures Holds(kids - {c}) && partialLen == old(partialLen)
    {
      ghost var ks, cs := keys[..], children[..];
      forall i | pos <= i < numChildren - 1 {
        keys[i] := keys[i + 1];
      }
      forall i | pos <= i < numChildren - 1 {
        children[i] := children[i + 1];
      }
      numChildren := numChildren - 1;
      RemoveSorted(ks, cs, keys[..], children[..], numChildren + 1, kids, pos);
    }

    method RemoveChild16(pos: nat, c: Byte, ghost kids: map<Byte, Ref>) returns (r: Node)
      requires kind == Node16 && Holds(kids) && At(pos, c) && c in kids
      modifies this, keys, children
      ensures r.Holds(kids - {c})
      ensures r == this || fresh(r.Owned())
      ensures r.SameHeader(old(partialLen), old(partial[..]))
      ensures r != this <==> |kids| - 1 == 3
      ensures r != this ==> r.kind == Node4 && r.numChildren == 3
    {
      RemoveAt(pos, c, kids);
      r := this;
      if numChildren == 3 {
        r := Shrink16(kids - {c});
      }
    }

    method Shrink16(ghost kids: map<Byte, Ref>) returns (r: Node)
      requires kind == Node16 && Holds(kids) && numChildren == 3
      ensures fresh(r.Owned()) && r.kind == Node4 && r.Holds(kids)
      ensures r.SameHeader(partialLen, partial[..])
    {
      ghost var ks, cs := keys[..], children[..];
      assert HoldsSorted(ks, cs, numChildren, kids);
      r := new Node(Node4);
      r.CopyHeader(this);
      forall i | 0 <= i < 4 {
        r.keys[i] := keys[i];
      }
      forall i | 0 <= i < 4 {
        r.children[i] := children[i];
      }
      CopySorted(ks, cs, r.keys[..], r.children[..], numChildren, kids);
    }

    method RemoveChild48(c: Byte, ghost kids: map<Byte, Ref>) returns (r: Node)
      requires kind == Node48 && Holds(kids) && c in kids
      modifies this, keys, children
      ensures r.Holds(kids - {c})
      ensures r == this || fresh(r.Owned())
      ensures r.SameHeader(old(partialLen), old(partial[..]))
      ensures r != this <==> |kids| - 1 == 12
      ensures r != this ==> r.kind == Node16 && r.numChildren == 12
    {
      ghost var ks, cs := keys[..], children[..];
      assert IndexEntry(ks, cs, kids, c);
      var pos := keys[c];
      keys[c] := 0;
      children[pos - 1] := Null;
      numChildren := numChildren - 1;
      assert keys[..] == ks[c := 0] && children[..] == cs[pos - 1 := Null];
      RemoveIndexed(ks, cs, numChildren + 1, kids, c);
      r := this;
      if numChildren == 12 {
        r := Shrink48(kids - {c});
      }
    }

    /** The two stores of the loop in remove_child48. */
    method Append(pos: nat, c: Byte, child: Ref, ghost kids: map<Byte, Ref>)
      requires kind == Node16 && Allocated() && pos < 16
      requires HoldsSorted(keys[..], children[..], pos, kids) && forall c' :: c' in kids ==> c' < c
      modifies keys, children
      ensures HoldsSorted(keys[..], children[..], pos + 1, kids[c := child])
    {
      ghost var ks, cs := keys[..], children[..];
      keys[pos] := c;
      children[pos] := child;
      assert keys[..] == ks[pos := c] && children[..] == cs[pos := child];
      AppendSorted(ks, cs, pos, kids, c, child);
    }

    method Shrink48(ghost kids: map<Byte, Ref>) returns (r: Node)
      requires kind == Node48 && Holds(kids) && numChildren == 12
      ensures fresh(r.Owned()) && r.kind == Node16 && r.Holds(kids)
      ensures r.SameHeader(partialLen, partial[..])
    {
      hide HoldsSorted, HoldsIndexed, HoldsDirect;
      ghost var ks, cs := keys[..], children[..];
      IndexFacts(ks, cs, 12, kids);
      r := new Node(Node16);
      r.CopyHeader(this);
      var child := 0;
      NothingBelow(r.keys[..], r.children[..], kids);
      for i := 0 to 256
        modifies r.keys, r.children
        invariant 0 <= child <= 12
        invariant HoldsSorted(r.keys[..], r.children[..], child, Below(kids, i))
      {
        assert IndexEntry(ks, cs, kids, i) && keys[i] == ks[i];
        var pos := keys[i];
        if pos != 0 {
          assert children[pos - 1] == cs[pos - 1];
          BelowMore(kids, i);
          NotAllBelow(r.keys[..], r.children[..], child, kids, i);
          r.Append(child, i, children[pos - 1], Below(kids, i));
          child := child + 1;
        } else {
          assert Below(kids, i + 1) == Below(kids, i);
        }
      }
      AllBelow(r.keys[..], r.children[..], child, kids);
    }

    static lemma IndexFacts(ks: seq<Byte>, cs: seq<Ref>, count: int, kids: map<Byte, Ref>)
      requires HoldsIndexed(ks, cs, count, kids)
      ensures |ks| == 256 && |cs| == 48 && count == |kids| && forall c: Byte :: IndexEntry(ks, cs, kids, c)
    {
    }

    /** As long as a child is missing, the number of those copied is less than the number of all. */
    static lemma NotAllBelow(ks: seq<Byte>, cs: seq<Ref>, count: int, kids: map<Byte, Ref>, c: Byte)
      requires HoldsSorted(ks, cs, count, Below(kids, c)) && c in kids
      ensures count < |kids|
    {
      BelowMore(kids, c);
    }

    static lemma AllBelow(ks: seq<Byte>, cs: seq<Ref>, count: int, kids: map<Byte, Ref>)
      requires HoldsSorted(ks, cs, count, Below(kids, 256))
      ensures HoldsSorted(ks, cs, count, kids) && count == |kids|
    {
      assert Below(kids, 256) == kids;
    }

    static lemma NothingBelow(ks: seq<Byte>, cs: seq<Ref>, kids: map<Byte, Ref>)
      ensures HoldsSorted(ks, cs, 0, Below(kids, 0))
    {
      assert Below(kids, 0) == map[];
    }

    method RemoveChild256(c: Byte, ghost kids: map<Byte, Ref>) returns (r: Node)
      requires kind == Node256 && Holds(kids) && c in kids
      modifies this, children
      ensures r.Holds(kids - {c})
      ensures r == this || fresh(r.Owned())
      ensures r.SameHeader(old(partialLen), old(partial[..]))
      ensures r != this <==> |kids| - 1 == 37
      ensures r != this ==> r.kind == Node48 && r.numChildren == 37 && (forall b: Byte :: r.keys[b] <= 37)
      ensures r != this ==>
        forall b1: Byte, b2: Byte :: b1 < b2 && r.keys[b1] != 0 && r.keys[b2] != 0 ==> r.keys[b1] < r.keys[b2]
    {
      hide HoldsLayout;
      ClearDirect(c, kids);
      r := this;
      if numChildren == 37 {
        r := Shrink256(kids - {c});
      }
    }

    /** The child's pointer becomes null, and the count goes down, which may be from 0 to 255. */
    method ClearDirect(c: Byte, ghost kids: map<Byte, Ref>)
      requires kind == Node256 && Holds(kids) && c in kids
      modifies this`numChildren, children
      ensures Holds(kids - {c}) && numChildren == |kids| - 1
    {
      hide HoldsSorted, HoldsIndexed;
      ghost var cs := children[..];
      children[c] := Null;
      numChildren := (numChildren + 255) % 256;
      assert children[..] == cs[c := Null];
      RemoveDirect(cs, kids, c);
    }

    /** The two stores of the loop in remove_child256. */
    method Index(pos: nat, c: Byte, child: Ref, ghost kids: map<Byte, Ref>)
      requires kind == Node48 && Allocated() && pos < 37 && c !in kids && child != Null
      requires HoldsIndexed(keys[..], children[..], pos, kids) && forall j :: pos <= j < 48 ==> children[j] == Null
      requires forall c' :: c' in kids ==> kids[c'] != Null
      modifies keys, children
      ensures HoldsIndexed(keys[..], children[..], pos + 1, kids[c := child]) && keys[..] == old(keys[..])[c := pos + 1]
      ensures forall j :: pos < j < 48 ==> children[j] == Null
    {
      ghost var ks, cs := keys[..], children[..];
      children[pos] := child;
      keys[c] := pos + 1;
      assert keys[..] == ks[c := (pos + 1) as Byte] && children[..] == cs[pos := child];
      InsertIndexed(ks, cs, pos, kids, pos, c, child);
    }

    method Shrink256(ghost kids: map<Byte, Ref>) returns (r: Node)
      requires kind == Node256 && Holds(kids) && numChildren == 37
      ensures fresh(r.Owned()) && r.kind == Node48 && r.Holds(kids) && r.numChildren == 37
      ensures r.SameHeader(partialLen, partial[..])
      ensures ByteOrder(r.keys[..], 37, 256)
    {
      hide HoldsSorted, HoldsIndexed, HoldsDirect, ByteOrder;
      DirectFacts(children[..], kids);
      r := new Node(Node48);
      r.CopyHeader(this);
      var pos := 0;
      NothingIndexed(r.keys[..], r.children[..], kids);
      NoOrder(r.keys[..]);
      for i := 0 to 256
        modifies r.keys, r.children
        invariant 0 <= pos <= 37
        invariant forall j :: pos <= j < 48 ==> r.children[j] == Null
        invariant HoldsIndexed(r.keys[..], r.children[..], pos, Below(kids, i)) && ByteOrder(r.keys[..], pos, i)
      {
        ghost var index := r.keys[..];
        ByteOrderMore(index, pos, i);
        if children[i] != Null {
          BelowMore(kids, i);
          NotAllIndexed(r.keys[..], r.children[..], pos, kids, i);
          r.Index(pos, i, children[i], Below(kids, i));
          pos := pos + 1;
        } else {
          assert Below(kids, i + 1) == Below(kids, i);
        }
      }
      AllIndexed(r.keys[..], r.children[..], pos, kids);
    }

    /** The numbers in the index are at most `n`, go up with the bytes, and are those of bytes below `end`. */
    static ghost predicate ByteOrder(index: seq<Byte>, n: nat, end: nat) {
      && |index| == 256 && (forall b: Byte :: index[b] <= n && (b >= end ==> index[b] == 0))
      && forall b1: Byte, b2: Byte :: b1 < b2 && index[b1] != 0 && index[b2] != 0 ==> index[b1] < index[b2]
    }

    static lemma NoOrder(index: seq<Byte>)
      requires |index| == 256 && forall b: Byte :: index[b] == 0
      ensures ByteOrder(index, 0, 0)
    {
    }

    static lemma ByteOrderMore(index: seq<Byte>, n: nat, b: Byte)
      requires ByteOrder(index, n, b) && n < 255
      ensures ByteOrder(index, n, b + 1) && ByteOrder(index[b := n + 1], n + 1, b + 1)
    {
    }

    static lemma DirectFacts(cs: seq<Ref>, kids: map<Byte, Ref>)
      requires HoldsDirect(cs, 37, kids)
      ensures |cs| == 256 && |kids| == 37
      ensures forall c: Byte :: (cs[c] != Null <==> c in kids) && (c in kids ==> kids[c] == cs[c])
    {
      DirectSize(cs, kids);
    }

    static lemma NothingIndexed(ks: seq<Byte>, cs: seq<Ref>, kids: map<Byte, Ref>)
      requires |ks| == 256 && |cs| == 48 && (forall c: Byte :: ks[c] == 0) && forall i :: 0 <= i < 48 ==> cs[i] == Null
      ensures HoldsIndexed(ks, cs, 0, Below(kids, 0))
    {
      assert Below(kids, 0) == map[];
    }

    static lemma NotAllIndexed(ks: seq<Byte>, cs: seq<Ref>, count: int, kids: map<Byte, Ref>, c: Byte)
      requires HoldsIndexed(ks, cs, count, Below(kids, c)) && c in kids
      ensures count < |kids|
    {
      BelowMore(kids, c);
    }

    static lemma AllIndexed(ks: seq<Byte>, cs: seq<Ref>, count: int, kids: map<Byte, Ref>)
      requires HoldsIndexed(ks, cs, count, Below(kids, 256))
      ensures HoldsIndexed(ks, cs, count, kids) && count == |kids|
    {
      assert Below(kids, 256) == kids;
    }

    // ---------- the children in byte order ----------

    /** How many places the loops of recursive_iter go through. */
    method Places() returns (n: nat)
      ensures n == PlaceCount()
    {
      n := if kind == Node4 || kind == Node16 then numChildren else 256;
    }

    ghost function PlaceCount(): nat
      reads this
    {
      if kind == Node4 || kind == Node16 then numChildren else 256
    }

    /** The first `i` places hold the children under bytes less than `done`. */
    ghost predicate Passed(i: nat, done: nat)
      reads this, keys
    {
      if kind == Node4 || kind == Node16
      then i <= numChildren && i <= keys.Length && done == (if i == 0 then 0 else keys[i - 1] as int + 1)
      else i <= 256 && done == i
    }

    /** What the loops of recursive_iter find at their `i`-th place. */
    method ChildAt(i: nat, ghost kids: map<Byte, Ref>, ghost done: nat) returns (r: Ref, ghost c: Byte)
      requires Holds(kids) && i < PlaceCount() && Passed(i, done)
      ensures done <= c && Passed(i + 1, c + 1)
      ensures if c in kids then r == kids[c] != Null else r == Null
      ensures forall c': Byte :: done <= c' < c ==> c' !in kids
    {
      match kind
      case Node4 =>
        PlaceSorted(keys[..], children[..], numChildren, kids, i);
        r, c := children[i], keys[i];
      case Node16 =>
        PlaceSorted(keys[..], children[..], numChildren, kids, i);
        r, c := children[i], keys[i];
      case Node48 =>
        assert IndexEntry(keys[..], children[..], kids, i);
        var idx := keys[i];
        r := if idx != 0 then children[idx - 1] else Null;
        c := i;
      case Node256 =>
        r, c := children[i], i;
    }

    lemma NoMore(kids: map<Byte, Ref>, done: nat)
      requires Holds(kids) && Passed(PlaceCount(), done)
      ensures forall c :: c in kids ==> c < done
    {
      if kind == Node4 || kind == Node16 {
        if numChildren > 0 {
          LastSorted(keys[..], children[..], numChildren, kids);
        } else {
          assert kids.Keys == {};
        }
      }
    }

    /** The child that minimum descends to. */
    method FirstChild(ghost kids: map<Byte, Ref>) returns (r: Ref, ghost c: Byte)
      requires Holds(kids) && |kids| > 0
      ensures c in kids && r == kids[c] && forall c' :: c' in kids ==> c <= c'
    {
      assert exists c :: c in kids by {
        assert kids.Keys != {};
      }
      match kind
      case Node4 =>
        FirstSorted(keys[..], children[..], numChildren, kids);
        c, r := keys[0], children[0];
      case Node16 =>
        FirstSorted(keys[..], children[..], numChildren, kids);
        c, r := keys[0], children[0];
      case Node48 =>
        r, c := FirstChild48(kids);
      case Node256 =>
        r, c := FirstChild256(kids);
    }

    method FirstChild48(ghost kids: map<Byte, Ref>) returns (r: Ref, ghost c: Byte)
      requires kind == Node48 && Holds(kids) && exists c :: c in kids
      ensures c in kids && r == kids[c] && forall c' :: c' in kids ==> c <= c'
    {
      ghost var c0: Byte :| c0 in kids;
      assert IndexEntry(keys[..], children[..], kids, c0);
      var idx := 0;
      while keys[idx] == 0
        invariant idx <= c0 && forall c' :: c' in kids ==> idx <= c'
        decreases 256 - idx
      {
        assert IndexEntry(keys[..], children[..], kids, idx);
        idx := idx + 1;
      }
      assert IndexEntry(keys[..], children[..], kids, idx);
      c := idx;
      idx := keys[idx] - 1;
      r := children[idx];
    }

    method FirstChild256(ghost kids: map<Byte, Ref>) returns (r: Ref, ghost c: Byte)
      requires kind == Node256 && Holds(kids) && exists c :: c in kids
      ensures c in kids && r == kids[c] && forall c' :: c' in kids ==> c <= c'
    {
      ghost var c0: Byte :| c0 in kids;
      var idx := 0;
      while children[idx] == Null
        invariant idx <= c0 && forall c' :: c' in kids ==> idx <= c'
        decreases 256 - idx
      {
        idx := idx + 1;
      }
      c, r := idx, children[idx];
    }

    /** The child that maximum descends to. */
    method LastChild(ghost kids: map<Byte, Ref>) returns (r: Ref, ghost c: Byte)
      requires Holds(kids) && |kids| > 0
      ensures c in kids && r == kids[c] && forall c' :: c' in kids ==> c' <= c
    {
      assert exists c :: c in kids by {
        assert kids.Keys != {};
      }
      match kind
      case Node4 =>
        LastSorted(keys[..], children[..], numChildren, kids);
        c, r := keys[numChildren - 1], children[numChildren - 1];
      case Node16 =>
        LastSorted(keys[..], children[..], numChildren, kids);
        c, r := keys[numChildren - 1], children[numChildren - 1];
      case Node48 =>
        r, c := LastChild48(kids);
      case Node256 =>
        r, c := LastChild256(kids);
    }

    method LastChild48(ghost kids: map<Byte, Ref>) returns (r: Ref, ghost c: Byte)
      requires kind == Node48 && Holds(kids) && exists c :: c in kids
      ensures c in kids && r == kids[c] && forall c' :: c' in kids ==> c' <= c
    {
      ghost var c0: Byte :| c0 in kids;
      assert IndexEntry(keys[..], children[..], kids, c0);
      var idx := 255;
      while keys[idx] == 0
        invariant c0 <= idx <= 255 && forall c' :: c' in kids ==> c' <= idx
        decreases idx
      {
        assert IndexEntry(keys[..], children[..], kids, idx);
        idx := idx - 1;
      }
      assert IndexEntry(keys[..], children[..], kids, idx);
      c := idx;
      idx := keys[idx] - 1;
      r := children[idx];
    }

    method LastChild256(ghost kids: map<Byte, Ref>) returns (r: Ref, ghost c: Byte)
      requires kind == Node256 && Holds(kids) && exists c :: c in kids
      ensures c in kids && r == kids[c] && forall c' :: c' in kids ==> c' <= c
    {
      ghost var c0: Byte :| c0 in kids;
      var idx := 255;
      while children[idx] == Null
        invariant c0 <= idx <= 255 && forall c' :: c' in kids ==> c' <= idx
        decreases idx
      {
        idx := idx - 1;
      }
      c, r := idx, children[idx];
    }
  }

  lemma FirstSorted(keys: seq<Byte>, children: seq<Ref>, count: int, kids: map<Byte, Ref>)
    requires HoldsSorted(keys, children, count, kids) && count > 0
    ensures Entry(keys, children, kids, 0)
    ensures forall c :: c in kids ==> keys[0] <= c
  {
    forall c | c in kids
      ensures keys[0] <= c
    {
      assert Listed(keys, count, c);
    }
  }

  lemma PlaceSorted(keys: seq<Byte>, children: seq<Ref>, count: int, kids: map<Byte, Ref>, i: nat)
    requires HoldsSorted(keys, children, count, kids) && i < count
    ensures keys[i] in kids && kids[keys[i]] == children[i]
    ensures forall c: Byte :: (if i == 0 then 0 else keys[i - 1] + 1) <= c < keys[i] ==> c !in kids
    ensures i > 0 ==> keys[i - 1] < keys[i]
  {
    assert Entry(keys, children, kids, i);
    forall c | c in kids
      ensures c <= (if i == 0 then -1 else keys[i - 1]) || c >= keys[i]
    {
      assert Listed(keys, count, c);
    }
  }

  lemma LastSorted(keys: seq<Byte>, children: seq<Ref>, count: int, kids: map<Byte, Ref>)
    requires HoldsSorted(keys, children, count, kids) && count > 0
    ensures Entry(keys, children, kids, count - 1)
    ensures forall c :: c in kids ==> c <= keys[count - 1]
  {
    forall c | c in kids
      ensures c <= keys[count - 1]
    {
      assert Listed(keys, count, c);
    }
  }

  lemma SetLayout(kind: Kind, keys: seq<Byte>, children: seq<Ref>, count: int, kids: map<Byte, Ref>, i: nat, c: Byte,
      r: Ref)
    requires HoldsLayout(kind, keys, children, count, kids) && c in kids && r != Null && i < |children|
    requires match kind
             case Node4 => i < count && keys[i] == c
             case Node16 => i < count && keys[i] == c
             case Node48 => keys[c] == i + 1
             case Node256 => i == c
    ensures HoldsLayout(kind, keys, children[i := r], count, kids[c := r])
  {
    match kind
    case Node4 => SetSorted(keys, children, count, kids, i, r);
    case Node16 => SetSorted(keys, children, count, kids, i, r);
    case Node48 =>
      assert IndexEntry(keys, children, kids, c);
      SetIndexed(keys, children, count, kids, c, r);
    case Node256 => SetDirect(children, count, kids, c, r);
  }

  lemma SetSorted(keys: seq<Byte>, children: seq<Ref>, count: int, kids: map<Byte, Ref>, i: nat, r: Ref)
    requires HoldsSorted(keys, children, count, kids) && i < count
    ensures HoldsSorted(keys, children[i := r], count, kids[keys[i] := r])
  {
    var children', kids' := children[i := r], kids[keys[i] := r];
    assert Entry(keys, children, kids, i);
    assert kids'.Keys == kids.Keys;
    forall j: nat | j < count
      ensures Entry(keys, children', kids', j)
    {
      assert Entry(keys, children, kids, j);
    }
  }

  lemma SetIndexed(keys: seq<Byte>, children: seq<Ref>, count: int, kids: map<Byte, Ref>, c: Byte, r: Ref)
    requires HoldsIndexed(keys, children, count, kids) && c in kids && IndexEntry(keys, children, kids, c)
    ensures HoldsIndexed(keys, children[keys[c] - 1 := r], count, kids[c := r])
  {
    var kids', children' := kids[c := r], children[keys[c] - 1 := r];
    assert kids'.Keys == kids.Keys;
    forall c': Byte
      ensures IndexEntry(keys, children', kids', c')
    {
      assert IndexEntry(keys, children, kids, c');
      assert c' == c || !SameSlot(keys, c', c);
    }
    forall i: nat | i < 48 && children'[i] != Null
      ensures Used(keys, i)
    {
      if i == keys[c] - 1 {
        assert keys[c] == i + 1;
      }
    }
  }

  lemma SetDirect(children: seq<Ref>, count: int, kids: map<Byte, Ref>, c: Byte, r: Ref)
    requires HoldsDirect(children, count, kids) && c in kids && r != Null
    ensures HoldsDirect(children[c := r], count, kids[c := r])
  {
    assert kids[c := r].Keys == kids.Keys;
  }

  // ---------- what an added child does to each layout ----------

  /** Where the entries of the arrays are after one has been inserted at `i`. */
  ghost predicate Shifted<T>(a: seq<T>, a': seq<T>, count: nat, i: nat, x: T)
    requires i <= count < |a| == |a'|
  {
    forall j {:trigger a'[j]} :: 0 <= j <= count ==> a'[j] == if j < i then a[j] else if j == i then x else a[j - 1]
  }

  lemma InsertSorted(keys: seq<Byte>, children: seq<Ref>, keys': seq<Byte>, children': seq<Ref>, count: nat,
      kids: map<Byte, Ref>, i: nat, c: Byte, r: Ref)
    requires HoldsSorted(keys, children, count, kids) && c !in kids
    requires i <= count < |keys| == |keys'| && count < |children| == |children'|
    requires forall j :: 0 <= j < i ==> keys[j] < c
    requires i < count ==> c < keys[i]
    requires Shifted(keys, keys', count, i, c) && Shifted(children, children', count, i, r)
    ensures HoldsSorted(keys', children', count + 1, kids[c := r])
  {
    InsertAscends(keys, keys', count, i, c);
    InsertEntries(keys, children, keys', children', count, kids, i, c, r);
    assert kids[c := r].Keys == kids.Keys + {c};
  }

  lemma InsertAscends(keys: seq<Byte>, keys': seq<Byte>, count: nat, i: nat, c: Byte)
    requires i <= count < |keys| == |keys'| && Shifted(keys, keys', count, i, c)
    requires forall j, k :: 0 <= j < k < count ==> keys[j] < keys[k]
    requires (forall j :: 0 <= j < i ==> keys[j] < c) && (i < count ==> c < keys[i])
    ensures forall j, k :: 0 <= j < k < count + 1 ==> keys'[j] < keys'[k]
  {
    forall j, k | 0 <= j < k < count + 1
      ensures keys'[j] < keys'[k]
    {
    }
  }

  lemma InsertEntries(keys: seq<Byte>, children: seq<Ref>, keys': seq<Byte>, children': seq<Ref>, count: nat,
      kids: map<Byte, Ref>, i: nat, c: Byte, r: Ref)
    requires HoldsSorted(keys, children, count, kids) && c !in kids
    requires i <= count < |keys| == |keys'| && count < |children| == |children'|
    requires Shifted(keys, keys', count, i, c) && Shifted(children, children', count, i, r)
    ensures forall j: nat {:trigger Entry(keys', children', kids[c := r], j)} :: j < count + 1 ==>
      Entry(keys', children', kids[c := r], j)
    ensures forall c' {:trigger Listed(keys', count + 1, c')} :: c' in kids[c := r] ==> Listed(keys', count + 1, c')
  {
    var kids' := kids[c := r];
    forall j: nat | j < count + 1
      ensures Entry(keys', children', kids', j)
    {
      assert j == i || Entry(keys, children, kids, if j < i then j else j - 1);
    }
    forall c' | c' in kids'
      ensures Listed(keys', count + 1, c')
    {
      if c' == c {
        assert keys'[i] == c;
      } else {
        assert Listed(keys, count, c');
        var j :| 0 <= j < count && keys[j] == c';
        assert keys'[if j < i then j else j + 1] == c';
      }
    }
  }

  lemma CopySorted(keys: seq<Byte>, children: seq<Ref>, keys': seq<Byte>, children': seq<Ref>, count: int,
      kids: map<Byte, Ref>)
    requires HoldsSorted(keys, children, count, kids) && count <= |keys'| && count <= |children'|
    requires keys'[..count] == keys[..count] && children'[..count] == children[..count]
    ensures HoldsSorted(keys', children', count, kids)
  {
    assert forall i :: 0 <= i < count ==> keys'[i] == keys'[..count][i] && children'[i] == children'[..count][i];
    forall i: nat | i < count
      ensures Entry(keys', children', kids, i)
    {
      assert Entry(keys, children, kids, i);
    }
    forall c | c in kids
      ensures Listed(keys', count, c)
    {
      assert Listed(keys, count, c);
      var j :| 0 <= j < count && keys[j] == c;
      assert keys'[j] == c;
    }
  }

  /** After `n` steps of turning sorted keys into an index. */
  ghost predicate IndexOf(keys: seq<Byte>, index: seq<Byte>, n: nat)
    requires |index| == 256 && n <= |keys| <= 16
  {
    && (forall i {:trigger index[keys[i]]} :: 0 <= i < n ==> index[keys[i]] == i + 1)
    && (forall c: Byte {:trigger index[c]} :: index[c] != 0 ==> index[c] <= n && keys[index[c] - 1] == c)
  }

  lemma IndexOfMore(keys: seq<Byte>, index: seq<Byte>, n: nat)
    requires |index| == 256 && n < |keys| <= 16 && IndexOf(keys, index, n)
    requires forall i :: 0 <= i < n ==> keys[i] < keys[n]
    ensures IndexOf(keys, index[keys[n] := n + 1], n + 1)
  {
  }

  lemma SortedToIndexed(keys: seq<Byte>, children: seq<Ref>, keys': seq<Byte>, children': seq<Ref>, count: int,
      kids: map<Byte, Ref>)
    requires HoldsSorted(keys, children, count, kids) && count <= |keys| <= 16
    requires |keys'| == 256 && |children'| == 48 && IndexOf(keys, keys', count)
    requires forall i :: 0 <= i < 48 ==> children'[i] == if i < count then children[i] else Null
    ensures HoldsIndexed(keys', children', count, kids)
  {
    forall c: Byte
      ensures IndexEntry(keys', children', kids, c)
    {
      if c in kids {
        assert Listed(keys, count, c);
        var i :| 0 <= i < count && keys[i] == c;
        assert keys'[keys[i]] == i + 1;
      }
      if keys'[c] != 0 {
        assert Entry(keys, children, kids, keys'[c] - 1);
      }
    }
    forall c1: Byte, c2: Byte | SameSlot(keys', c1, c2)
      ensures c1 == c2
    {
    }
    forall i: nat | i < 48 && children'[i] != Null
      ensures Used(keys', i)
    {
      assert keys'[keys[i]] == i + 1;
    }
  }

  lemma InsertIndexed(keys: seq<Byte>, children: seq<Ref>, count: int, kids: map<Byte, Ref>, pos: nat, c: Byte, r: Ref)
    requires HoldsIndexed(keys, children, count, kids) && count < 48 && c !in kids && pos < 48 && children[pos] == Null
    requires forall c' :: c' in kids ==> kids[c'] != Null
    ensures HoldsIndexed(keys[c := pos + 1], children[pos := r], count + 1, kids[c := r])
  {
    var keys', children', kids' := keys[c := pos + 1], children[pos := r], kids[c := r];
    assert kids'.Keys == kids.Keys + {c};
    forall c': Byte
      ensures IndexEntry(keys', children', kids', c')
    {
      assert IndexEntry(keys, children, kids, c');
    }
    forall c1: Byte, c2: Byte | SameSlot(keys', c1, c2)
      ensures c1 == c2
    {
      SameSlotMore(keys, children, count, kids, pos, c, c1, c2);
    }
    forall i: nat | i < 48 && children'[i] != Null
      ensures Used(keys', i)
    {
      UsedMore(keys, children, count, kids, pos, c, i);
    }
  }

  lemma SameSlotMore(keys: seq<Byte>, children: seq<Ref>, count: int, kids: map<Byte, Ref>, pos: nat, c: Byte, c1: Byte,
      c2: Byte)
    requires HoldsIndexed(keys, children, count, kids) && pos < 48 && children[pos] == Null
    requires forall c' :: c' in kids ==> kids[c'] != Null
    requires SameSlot(keys[c := pos + 1], c1, c2)
    ensures c1 == c2
  {
    assert IndexEntry(keys, children, kids, c1) && IndexEntry(keys, children, kids, c2);
    assert c1 != c && c2 != c ==> SameSlot(keys, c1, c2);
  }

  lemma UsedMore(keys: seq<Byte>, children: seq<Ref>, count: int, kids: map<Byte, Ref>, pos: nat, c: Byte, i: nat)
    requires HoldsIndexed(keys, children, count, kids) && c !in kids && pos < 48 && i < 48
    requires i == pos || children[i] != Null
    ensures Used(keys[c := pos + 1], i)
  {
    var keys' := keys[c := pos + 1];
    assert IndexEntry(keys, children, kids, c);
    if i == pos {
      assert keys'[c] == i + 1;
    } else {
      assert Used(keys, i);
      var c' :| 0 <= c' < 256 && keys[c'] == i + 1;
      assert keys'[c'] == i + 1;
    }
  }

  ghost function ChildOf(keys: seq<Byte>, children: seq<Ref>, c: Byte): Ref
    requires |keys| == 256 && |children| == 48
  {
    if 0 < keys[c] <= 48 then children[keys[c] - 1] else Null
  }

  lemma IndexedToDirect(keys: seq<Byte>, children: seq<Ref>, children': seq<Ref>, count: int, kids: map<Byte, Ref>)
    requires HoldsIndexed(keys, children, count, kids) && count == 48 && |children'| == 256
    requires forall c :: c in kids ==> kids[c] != Null
    requires forall j :: 0 <= j < 256 ==> children'[j] == ChildOf(keys, children, j)
    ensures HoldsDirect(children', count, kids)
  {
    forall c: Byte
      ensures (children'[c] != Null <==> c in kids) && (c in kids ==> kids[c] == children'[c])
    {
      assert IndexEntry(keys, children, kids, c);
    }
  }

  lemma InsertDirect(children: seq<Ref>, kids: map<Byte, Ref>, c: Byte, r: Ref)
    requires HoldsDirect(children, |kids| % 256, kids) && c !in kids && r != Null
    ensures HoldsDirect(children[c := r], (|kids| % 256 + 1) % 256, kids[c := r])
  {
    assert kids[c := r].Keys == kids.Keys + {c};
    assert |kids[c := r]| == |kids| + 1;
  }

  // ---------- what a removed child does to each layout ----------

  ghost function Below(kids: map<Byte, Ref>, n: nat): map<Byte, Ref> {
    map c | c in kids && c < n :: kids[c]
  }

  lemma BelowMore(kids: map<Byte, Ref>, n: Byte)
    requires n in kids
    ensures Below(kids, n + 1) == Below(kids, n)[n := kids[n]]
    ensures |Below(kids, n)| < |kids|
  {
    assert Below(kids, n).Keys <= kids.Keys - {n};
    SubsetSize(Below(kids, n).Keys, kids.Keys - {n});
  }

  lemma AppendSorted(keys: seq<Byte>, children: seq<Ref>, count: nat, kids: map<Byte, Ref>, c: Byte, r: Ref)
    requires HoldsSorted(keys, children, count, kids) && count < |keys| && count < |children|
    requires forall c' :: c' in kids ==> c' < c
    ensures HoldsSorted(keys[count := c], children[count := r], count + 1, kids[c := r])
  {
    forall j: nat | j < count
      ensures keys[j] < c
    {
      assert Entry(keys, children, kids, j);
    }
    InsertSorted(keys, children, keys[count := c], children[count := r], count, kids, count, c, r);
  }

  lemma RemoveSorted(keys: seq<Byte>, children: seq<Ref>, keys': seq<Byte>, children': seq<Ref>, count: nat,
      kids: map<Byte, Ref>, i: nat)
    requires HoldsSorted(keys, children, count, kids) && i < count
    requires |keys'| == |keys| && |children'| == |children|
    requires forall j {:trigger keys'[j]} :: 0 <= j < count - 1 ==> keys'[j] == keys[if j < i then j else j + 1]
    requires forall j {:trigger children'[j]} :: 0 <= j < count - 1 ==>
      children'[j] == children[if j < i then j else j + 1]
    ensures HoldsSorted(keys', children', count - 1, kids - {keys[i]})
  {
    var kids' := kids - {keys[i]};
    assert Entry(keys, children, kids, i);
    assert kids'.Keys == kids.Keys - {keys[i]};
    forall j: nat | j < count - 1
      ensures Entry(keys', children', kids', j)
    {
      assert Entry(keys, children, kids, if j < i then j else j + 1);
    }
    forall c | c in kids'
      ensures Listed(keys', count - 1, c)
    {
      assert Listed(keys, count, c);
      var j :| 0 <= j < count && keys[j] == c;
      assert keys'[if j < i then j else j - 1] == c;
    }
  }

  lemma RemoveIndexed(keys: seq<Byte>, children: seq<Ref>, count: int, kids: map<Byte, Ref>, c: Byte)
    requires HoldsIndexed(keys, children, count, kids) && c in kids && IndexEntry(keys, children, kids, c)
    ensures HoldsIndexed(keys[c := 0], children[keys[c] - 1 := Null], count - 1, kids - {c})
  {
    var keys', children', kids' := keys[c := 0], children[keys[c] - 1 := Null], kids - {c};
    assert kids'.Keys == kids.Keys - {c};
    forall c': Byte
      ensures IndexEntry(keys', children', kids', c')
    {
      assert IndexEntry(keys, children, kids, c');
      assert c' == c || !SameSlot(keys, c', c);
    }
    forall c1: Byte, c2: Byte | SameSlot(keys', c1, c2)
      ensures c1 == c2
    {
      assert SameSlot(keys, c1, c2);
    }
    forall i: nat | i < 48 && children'[i] != Null
      ensures Used(keys', i)
    {
      assert Used(keys, i);
      var c' :| 0 <= c' < 256 && keys[c'] == i + 1;
      assert keys'[c'] == i + 1;
    }
  }

  lemma RemoveDirect(children: seq<Ref>, kids: map<Byte, Ref>, c: Byte)
    requires HoldsDirect(children, |kids| % 256, kids) && c in kids
    ensures HoldsDirect(children[c := Null], (|kids| % 256 + 255) % 256, kids - {c})
    ensures (|kids| % 256 + 255) % 256 == |kids| - 1
  {
    assert (kids - {c}).Keys == kids.Keys - {c};
    assert |kids - {c}| == |kids| - 1;
    ByteSetSize(kids.Keys, 256);
  }

  lemma ByteSetSize(s: set<Byte>, n: nat)
    requires forall c :: c in s ==> c < n
    ensures |s| <= n
  {
    if n > 0 {
      ByteSetSize(s - {n - 1}, n - 1);
    }
  }

  /** An 8-bit count of 37 leaves no doubt: the node has 37 children. */
  lemma DirectSize(children: seq<Ref>, kids: map<Byte, Ref>)
    requires HoldsDirect(children, 37, kids)
    ensures |kids| == 37
  {
    ByteSetSize(kids.Keys, 256);
  }

  /** __builtin_ctz of the bits below `limit`, or `limit` when none is set. */
  method LowestSet(bits: seq<bool>, limit: nat) returns (i: nat)
    requires limit <= |bits|
    ensures i <= limit && (forall j :: 0 <= j < i ==> !bits[j]) && (i < limit ==> bits[i])
  {
    i := 0;
    while i < limit && !bits[i]
      invariant i <= limit && forall j :: 0 <= j < i ==> !bits[j]
    {
      i := i + 1;
    }
  }
}
