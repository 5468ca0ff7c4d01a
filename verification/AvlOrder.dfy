/** What the nodes of an AVL tree are in order, and how many a tree of some height has. */
module AvlOrder {
  import opened AvlShape
  import opened Sets

  // ---------- heights ----------

  function Fib(n: nat): nat {
    if n < 2 then n else Fib(n - 2) + Fib(n - 1)
  }

  lemma {:induction false} FibGrows(a: nat, b: nat)
    requires a <= b
    ensures Fib(a) <= Fib(b)
    decreases b
  {
    if a < b {
      if b == 1 {
        assert Fib(0) == 0;
      } else {
        FibGrows(a, b - 1);
      }
    }
  }

  /** A subtree whose level is h has at least Fib(h + 2) - 1 nodes. */
  lemma {:induction false} FibBound(v: Levels, s: Subs, m: Memory, root: Node?, n: Node, isDelete: bool)
    requires Linked(s, m, root) && Rising(v, s, m, null, isDelete) && n in s
    ensures n in v && v[n] >= 1 && Fib(v[n] + 2) <= |s[n]| + 1
    decreases s[n]
  {
    hide Linked, Fib;
    Around(s, m, root, n);
    assert LevelOk(v, m, n);
    var l, r := m[n].kids[0], m[n].kids[1];
    assert Fib(2) == 1 by { FibOne(); }
    if l != null {
      assert SubOf(s, l) == s[l] && s[l] <= s[n] && n !in s[l];
      FibBound(v, s, m, root, l, isDelete);
    }
    if r != null {
      assert SubOf(s, r) == s[r] && s[r] <= s[n] && n !in s[r];
      FibBound(v, s, m, root, r, isDelete);
    }
    assert Fib(Lv(v, l) + 2) <= |SubOf(s, l)| + 1 && Fib(Lv(v, r) + 2) <= |SubOf(s, r)| + 1;
    TwoParts(s[n], n, SubOf(s, l), SubOf(s, r));
    FibStep(Lv(v, l), Lv(v, r), v[n]);
  }

  lemma FibOne()
    ensures Fib(2) == 1
  {
    assert Fib(0) == 0 && Fib(1) == 1;
  }

  lemma FibStep(a: int, b: int, h: int)
    requires a >= 0 && b >= 0 && -1 <= a - b <= 1 && h == 1 + Max(a, b)
    ensures Fib(h + 2) <= Fib(a + 2) + Fib(b + 2)
  {
    FibGrows(h, a + 2);
    FibGrows(h, b + 2);
    assert Fib(h + 2) == Fib(h) + Fib(h + 1);
  }

  lemma TwoParts<T>(all: set<T>, x: T, a: set<T>, b: set<T>)
    requires x in all && a <= all && b <= all && x !in a && x !in b && a !! b
    ensures |all| >= 1 + |a| + |b|
  {
    SubsetSize({x} + a + b, all);
    assert |{x} + a| == 1 + |a|;
    assert |{x} + a + b| == |{x} + a| + |b|;
  }

  // ---------- order ----------

  /** The nodes below `c` from left to right. */
  ghost function InOrder(s: Subs, m: Memory, c: Node?): seq<Node>
    decreases SubOf(s, c)
  {
    if c == null || c !in m || !(SubOf(s, m[c].kids[0]) < SubOf(s, c)) || !(SubOf(s, m[c].kids[1]) < SubOf(s, c))
      then []
    else InOrder(s, m, m[c].kids[0]) + [c] + InOrder(s, m, m[c].kids[1])
  }

  /** The keys go up. */
  ghost predicate Ascending(m: Memory, q: seq<Node>) {
    && (forall i :: 0 <= i < |q| ==> q[i] in m)
    && (forall i, j :: 0 <= i < j < |q| ==> m[q[i]].key < m[q[j]].key)
  }

  ghost predicate Lists(q: seq<Node>, ns: set<Node>) {
    (forall n :: n in q ==> n in ns) && (forall n :: n in ns ==> n in q)
  }

  /** From left to right the keys go up, and every node is there once. */
  lemma {:induction false} InOrderAscends(s: Subs, m: Memory, root: Node?, c: Node?)
    requires Linked(s, m, root) && (c != null ==> c in s)
    ensures Ascending(m, InOrder(s, m, c)) && Lists(InOrder(s, m, c), SubOf(s, c))
    decreases SubOf(s, c)
  {
    hide Linked;
    if c != null {
      Around(s, m, root, c);
      var l, r := m[c].kids[0], m[c].kids[1];
      assert c !in SubOf(s, l) && c !in SubOf(s, r) && c in SubOf(s, c);
      InOrderAscends(s, m, root, l);
      InOrderAscends(s, m, root, r);
      Joined(m, InOrder(s, m, l), c, InOrder(s, m, r), SubOf(s, l), SubOf(s, r));
      assert KidOk(s, m, c, 0) && KidOk(s, m, c, 1);
    }
  }

  lemma Joined(m: Memory, a: seq<Node>, c: Node, b: seq<Node>, l: set<Node>, r: set<Node>)
    requires Ascending(m, a) && Ascending(m, b) && Lists(a, l) && Lists(b, r) && c in m
    requires forall z :: z in l ==> z in m && m[z].key < m[c].key
    requires forall z :: z in r ==> z in m && m[c].key < m[z].key
    ensures Ascending(m, a + [c] + b) && Lists(a + [c] + b, l + {c} + r)
  {
    var q := a + [c] + b;
    forall i | 0 <= i < |q|
      ensures q[i] in m && (i < |a| ==> q[i] == a[i] && q[i] in l) && (i == |a| ==> q[i] == c)
        && (i > |a| ==> q[i] == b[i - |a| - 1] && q[i] in r)
    {
    }
    forall n | n in l + {c} + r
      ensures n in q
    {
      assert n in l ==> n in a;
      assert n in r ==> n in b;
    }
  }

  /** There is one way to list nodes with their keys going up. */
  lemma {:induction false} OneListing(m: Memory, a: seq<Node>, b: seq<Node>, ns: set<Node>)
    requires Ascending(m, a) && Ascending(m, b) && Lists(a, ns) && Lists(b, ns)
    ensures a == b
    decreases |a|
  {
    assert b != [] ==> b[0] in b && b[0] in a;
    if a != [] {
      assert a[0] in b && b != [] && b[0] in a;
      assert a[0] == b[0];
      Rest(m, a, ns);
      Rest(m, b, ns);
      OneListing(m, a[1..], b[1..], ns - {a[0]});
    }
  }

  lemma Rest(m: Memory, a: seq<Node>, ns: set<Node>)
    requires Ascending(m, a) && Lists(a, ns) && a != []
    ensures Ascending(m, a[1..]) && Lists(a[1..], ns - {a[0]})
  {
    forall n | n in a && n != a[0]
      ensures n in a[1..]
    {
      var i :| 0 <= i < |a| && a[i] == n;
      assert a[1..][i - 1] == n;
    }
    forall n | n in a[1..]
      ensures n in a && n != a[0]
    {
      var i :| 0 <= i < |a[1..]| && a[1..][i] == n;
      assert m[a[0]].key < m[a[i + 1]].key;
    }
  }

  /** One node more is one more place in the list. */
  ghost predicate PutIn(a: seq<Node>, n: Node, b: seq<Node>) {
    exists i :: 0 <= i <= |a| && b == a[..i] + [n] + a[i..]
  }

  lemma OneMore(m: Memory, a: seq<Node>, b: seq<Node>, n: Node, ns: set<Node>)
    requires Ascending(m, a) && Ascending(m, b) && n !in ns && Lists(a, ns) && Lists(b, ns + {n})
    ensures PutIn(a, n, b)
  {
    hide Ascending, Lists;
    var i := PlaceOf(b, n, ns + {n});
    LeftOut(m, b, i, ns);
    OneListing(m, a, b[..i] + b[i + 1..], ns);
    InPlace(a, b, i);
  }

  lemma PlaceOf(b: seq<Node>, n: Node, ns: set<Node>) returns (i: nat)
    requires n in ns && Lists(b, ns)
    ensures i < |b| && b[i] == n
  {
    i :| 0 <= i < |b| && b[i] == n;
  }

  lemma InPlace(a: seq<Node>, b: seq<Node>, i: nat)
    requires i < |b| && a == b[..i] + b[i + 1..]
    ensures b == a[..i] + [b[i]] + a[i..]
  {
  }

  lemma LeftOut(m: Memory, b: seq<Node>, i: nat, ns: set<Node>)
    requires i < |b| && Ascending(m, b) && b[i] !in ns && Lists(b, ns + {b[i]})
    ensures Ascending(m, b[..i] + b[i + 1..]) && Lists(b[..i] + b[i + 1..], ns)
  {
    hide Lists, Ascending;
    var c := b[..i] + b[i + 1..];
    assert forall j :: 0 <= j < |c| ==> c[j] == b[if j < i then j else j + 1];
    LeftOutAscends(m, b, i, c);
    LeftOutLists(m, b, i, c, ns);
  }

  lemma LeftOutAscends(m: Memory, b: seq<Node>, i: nat, c: seq<Node>)
    requires i < |b| && Ascending(m, b) && |c| == |b| - 1 && forall j :: 0 <= j < |c| ==>
      c[j] == b[if j < i then j else j + 1]
    ensures Ascending(m, c)
  {
    forall j, k | 0 <= j < k < |c|
      ensures c[j] in m && c[k] in m && m[c[j]].key < m[c[k]].key
    {
      assert c[j] == b[if j < i then j else j + 1] && c[k] == b[if k < i then k else k + 1];
    }
    forall j | 0 <= j < |c|
      ensures c[j] in m
    {
      assert c[j] == b[if j < i then j else j + 1];
    }
  }

  lemma LeftOutLists(m: Memory, b: seq<Node>, i: nat, c: seq<Node>, ns: set<Node>)
    requires i < |b| && Ascending(m, b) && b[i] !in ns && Lists(b, ns + {b[i]})
    requires |c| == |b| - 1 && forall j :: 0 <= j < |c| ==> c[j] == b[if j < i then j else j + 1]
    ensures Lists(c, ns)
  {
    forall x | x in c
      ensures x in ns
    {
      var j :| 0 <= j < |c| && c[j] == x;
      var k := if j < i then j else j + 1;
      assert x == b[k] && x in b && x in ns + {b[i]};
      assert if k < i then m[b[k]].key < m[b[i]].key else m[b[i]].key < m[b[k]].key;
    }
    forall x | x in ns
      ensures x in c
    {
      assert x in ns + {b[i]};
      var k :| 0 <= k < |b| && b[k] == x;
      assert k != i;
      assert c[if k < i then k else k - 1] == x;
    }
  }
}
