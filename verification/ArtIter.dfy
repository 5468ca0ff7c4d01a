/** What an iteration that may be stopped early has visited. */
module ArtIter {
  import opened ArtNode
  import opened ArtShape
  import opened ArtWalk

  type Entry = (Key, Value)

  /** An `art_callback`: its answer may depend on all it was called with so far. */
  type Callback = (seq<Entry>, Entry) -> int

  ghost predicate Among(es: seq<Entry>, k: Key) {
    exists i :: 0 <= i < |es| && es[i].0 == k
  }

  ghost predicate InOrder(es: seq<Entry>) {
    forall i, j :: 0 <= i < j < |es| ==> LexLess(es[i].0, es[j].0)
  }

  ghost predicate EntriesOf(es: seq<Entry>, keys: set<Key>, values: map<Key, Value>) {
    forall i :: 0 <= i < |es| ==> es[i].0 in keys && es[i].0 in values && values[es[i].0] == es[i].1
  }

  /** In order, without gaps, to the end or to the entry where the callback said `res`. */
  ghost predicate Visits(es: seq<Entry>, keys: set<Key>, values: map<Key, Value>, res: int) {
    && InOrder(es) && EntriesOf(es, keys, values)
    && (res == 0 ==> forall k :: k in keys ==> Among(es, k))
    && (res != 0 ==> es != [] && forall k :: k in keys && LexLess(k, es[|es| - 1].0) ==> Among(es, k))
  }

  /** The callback let every entry but the last pass, and answered `res` for the last. */
  ghost predicate Answers(cb: Callback, before: seq<Entry>, es: seq<Entry>, res: int) {
    && (es == [] ==> res == 0)
    && forall i :: 0 <= i < |es| ==> cb(before + es[..i], es[i]) == if i == |es| - 1 then res else 0
  }

  lemma AnswersJoin(cb: Callback, before: seq<Entry>, es1: seq<Entry>, es2: seq<Entry>, res: int)
    requires Answers(cb, before, es1, 0) && Answers(cb, before + es1, es2, res)
    ensures Answers(cb, before, es1 + es2, if es2 == [] then 0 else res)
  {
    var es := es1 + es2;
    forall i | 0 <= i < |es|
      ensures cb(before + es[..i], es[i]) == if i == |es| - 1 then (if es2 == [] then 0 else res) else 0
    {
      if i < |es1| {
        assert es[..i] == es1[..i];
      } else {
        assert before + es[..i] == before + es1 + es2[..i - |es1|];
      }
    }
  }

  ghost predicate AllLess(ks1: set<Key>, ks2: set<Key>) {
    forall k1, k2 :: k1 in ks1 && k2 in ks2 ==> LexLess(k1, k2)
  }

  lemma VisitsJoin(es1: seq<Entry>, ks1: set<Key>, es2: seq<Entry>, ks2: set<Key>, values: map<Key, Value>, res: int)
    requires Visits(es1, ks1, values, 0) && Visits(es2, ks2, values, res) && AllLess(ks1, ks2)
    ensures Visits(es1 + es2, ks1 + ks2, values, res)
  {
    var es, ks := es1 + es2, ks1 + ks2;
    forall i, j | 0 <= i < j < |es|
      ensures LexLess(es[i].0, es[j].0)
    {
      if i < |es1| <= j {
        assert es1[i].0 in ks1 && es2[j - |es1|].0 in ks2;
      } else if |es1| <= i {
        assert LexLess(es2[i - |es1|].0, es2[j - |es1|].0);
      }
    }
    forall k | k in ks && (res != 0 ==> LexLess(k, es[|es| - 1].0))
      ensures Among(es, k)
    {
      if k in ks1 {
        AmongLeft(es1, es2, k);
      } else {
        AmongRight(es1, es2, k);
      }
    }
  }

  lemma AmongLeft(es1: seq<Entry>, es2: seq<Entry>, k: Key)
    requires Among(es1, k)
    ensures Among(es1 + es2, k)
  {
    var i :| 0 <= i < |es1| && es1[i].0 == k;
    assert (es1 + es2)[i].0 == k;
  }

  lemma AmongRight(es1: seq<Entry>, es2: seq<Entry>, k: Key)
    requires Among(es2, k)
    ensures Among(es1 + es2, k)
  {
    var i :| 0 <= i < |es2| && es2[i].0 == k;
    assert (es1 + es2)[|es1| + i].0 == k;
  }

  /** A run that was not stopped is determined by the map. */
  lemma {:induction false} VisitsUnique(es1: seq<Entry>, es2: seq<Entry>, keys: set<Key>, values: map<Key, Value>)
    requires Visits(es1, keys, values, 0) && Visits(es2, keys, values, 0)
    ensures es1 == es2
    decreases |es1|
  {
    if es1 == [] {
      assert forall k :: k in keys ==> Among(es1, k);
      assert keys == {};
    } else {
      assert es1[0].0 in keys;
      assert Among(es2, es1[0].0);
      FirstAgree(es1, es2, keys, values);
      var k := es1[0].0;
      DropFirst(es1, keys, values);
      DropFirst(es2, keys, values);
      VisitsUnique(es1[1..], es2[1..], keys - {k}, values);
      assert es1 == [es1[0]] + es1[1..] && es2 == [es2[0]] + es2[1..];
    }
  }

  lemma FirstAgree(es1: seq<Entry>, es2: seq<Entry>, keys: set<Key>, values: map<Key, Value>)
    requires Visits(es1, keys, values, 0) && Visits(es2, keys, values, 0)
    requires es1 != [] && es2 != []
    ensures es1[0] == es2[0]
  {
    var k1, k2 := es1[0].0, es2[0].0;
    assert Among(es2, k1) && Among(es1, k2);
    var i :| 0 <= i < |es2| && es2[i].0 == k1;
    var j :| 0 <= j < |es1| && es1[j].0 == k2;
    if i > 0 && j > 0 {
      LexAsymmetric(k1, k2);
    }
  }

  lemma DropFirst(es: seq<Entry>, keys: set<Key>, values: map<Key, Value>)
    requires Visits(es, keys, values, 0) && es != []
    ensures Visits(es[1..], keys - {es[0].0}, values, 0)
  {
    forall i | 0 <= i < |es[1..]|
      ensures es[1..][i].0 in keys - {es[0].0}
    {
      assert LexLess(es[0].0, es[i + 1].0);
      LexAsymmetric(es[0].0, es[i + 1].0);
    }
    forall k | k in keys - {es[0].0}
      ensures Among(es[1..], k)
    {
      assert Among(es, k);
      var i :| 0 <= i < |es| && es[i].0 == k;
      assert es[1..][i - 1].0 == k;
    }
  }

  /** The keys below a position. */
  ghost function KeysUnder(sh: Shape, p: Key): set<Key> {
    set k | k in sh.leaves && p <= k
  }

  /** The keys below a node whose branching byte is less than `n`. */
  ghost function KeysBefore(sh: Shape, b: Key, n: nat): set<Key> {
    set k | k in sh.leaves && b < k && k[|b|] < n
  }

  lemma NextKid(sh: Shape, keyLen: nat, n: Node, c: Byte)
    requires Ok(sh, keyLen) && n in sh.view
    ensures var b := sh.view[n].branch;
      && KeysBefore(sh, b, c + 1) == KeysBefore(sh, b, c) + KeysUnder(sh, b + [c])
      && AllLess(KeysBefore(sh, b, c), KeysUnder(sh, b + [c]))
      && (c !in sh.view[n].kids ==> KeysUnder(sh, b + [c]) == {})
  {
    var b := sh.view[n].branch;
    assert SlotOk(sh, KidSlot(n, c));
    forall k | k in sh.leaves && b < k
      ensures k[|b|] == c <==> b + [c] <= k
    {
      assert b + [k[|b|]] <= k;
    }
    forall k | k in KeysUnder(sh, b + [c])
      ensures b < k && k[|b|] == c && Under(sh.leaves.Keys, b + [c], k)
    {
      assert (b + [c])[|b|] == c;
      assert b <= b + [c];
    }
    forall k1, k2 | k1 in KeysBefore(sh, b, c) && k2 in KeysUnder(sh, b + [c])
      ensures LexLess(k1, k2)
    {
      assert b + [k1[|b|]] <= k1;
      KidsInOrder(b, k1[|b|], c, k1, k2);
    }
    assert KeysBefore(sh, b, c + 1) <= KeysBefore(sh, b, c) + KeysUnder(sh, b + [c]);
  }

  /** Bytes without a child have no keys. */
  lemma SkipKids(sh: Shape, keyLen: nat, n: Node, c1: nat, c2: nat)
    requires Ok(sh, keyLen) && n in sh.view && c1 <= c2 <= 256
    requires forall c: Byte :: c1 <= c < c2 ==> c !in sh.view[n].kids
    ensures KeysBefore(sh, sh.view[n].branch, c1) == KeysBefore(sh, sh.view[n].branch, c2)
    decreases c2 - c1
  {
    if c1 < c2 {
      NextKid(sh, keyLen, n, c1);
      SkipKids(sh, keyLen, n, c1 + 1, c2);
    }
  }

  lemma AllKids(sh: Shape, keyLen: nat, s: Slot, n: Node)
    requires Ok(sh, keyLen) && SlotIn(sh, s) && Get(sh, s) == NodeRef(n) && n in sh.view
    ensures KeysBefore(sh, sh.view[n].branch, 256) == KeysUnder(sh, Position(sh, s))
  {
    var b, p := sh.view[n].branch, Position(sh, s);
    RefCovers(sh, keyLen, s);
    BranchShort(sh, keyLen, n);
    forall k | k in sh.leaves && p <= k
      ensures b < k
    {
      assert Under(sh.leaves.Keys, p, k);
      assert |k| == keyLen;
    }
  }

  lemma EmptyVisit(cb: Callback, before: seq<Entry>, sh: Shape, b: Key, values: map<Key, Value>)
    ensures Visits([], KeysBefore(sh, b, 0), values, 0) && Answers(cb, before, [], 0)
  {
  }

  /** One more child visited: either all its keys are, or the whole iteration ends here. */
  lemma NextVisit(sh: Shape, keyLen: nat, s: Slot, n: Node, done: nat, c: Byte, es: seq<Entry>, more: seq<Entry>,
      values: map<Key, Value>, res: int)
    requires Ok(sh, keyLen) && SlotIn(sh, s) && Get(sh, s) == NodeRef(n) && n in sh.view && done <= c
    requires forall c': Byte :: done <= c' < c ==> c' !in sh.view[n].kids
    requires Visits(es, KeysBefore(sh, sh.view[n].branch, done), values, 0)
    requires Visits(more, KeysUnder(sh, sh.view[n].branch + [c]), values, res)
    ensures res == 0 ==> Visits(es + more, KeysBefore(sh, sh.view[n].branch, c + 1), values, 0)
    ensures res != 0 ==> Visits(es + more, KeysUnder(sh, Position(sh, s)), values, res)
  {
    hide Ok, RefOk;
    var b := sh.view[n].branch;
    SkipKids(sh, keyLen, n, done, c);
    NextKid(sh, keyLen, n, c);
    VisitsJoin(es, KeysBefore(sh, b, c), more, KeysUnder(sh, b + [c]), values, res);
    if res != 0 {
      AllKids(sh, keyLen, s, n);
      assert (es + more)[|es + more| - 1].0 in KeysBefore(sh, b, c + 1);
      StoppedVisit(sh, b, c, es + more, values, res);
    }
  }

  /** The keys after the one where the callback stopped need no visit. */
  lemma StoppedVisit(sh: Shape, b: Key, c: Byte, es: seq<Entry>, values: map<Key, Value>, res: int)
    requires Visits(es, KeysBefore(sh, b, c + 1), values, res) && res != 0
    ensures Visits(es, KeysBefore(sh, b, 256), values, res)
  {
    var last := es[|es| - 1].0;
    assert last in KeysBefore(sh, b, c + 1);
    forall k | k in KeysBefore(sh, b, 256) && LexLess(k, last)
      ensures Among(es, k)
    {
      NotAfter(b, k, last);
    }
  }

  lemma NotAfter(b: Key, k: Key, last: Key)
    requires b < k && b < last && LexLess(k, last)
    ensures k[|b|] <= last[|b|]
  {
    var i: nat :| LessAt(k, last, i);
    assert forall j :: 0 <= j < |b| ==> k[j] == b[j] == last[j];
  }
}
