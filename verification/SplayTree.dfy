/** Top-down splaying on trees. What has been passed on either side is kept as a spine of nodes,
    the most recent first, each with the subtree that hangs off it. */
module SplayTree {
  datatype Tree = Leaf | Node(left: Tree, key: int, right: Tree)

  datatype Link = Link(hang: Tree, key: int)

  function Keys(t: Tree): seq<int> {
    match t
    case Leaf => []
    case Node(l, k, r) => Keys(l) + [k] + Keys(r)
  }

  function LeftKeys(ls: seq<Link>): seq<int> {
    if ls == [] then [] else LeftKeys(ls[1..]) + (Keys(ls[0].hang) + [ls[0].key])
  }

  function RightKeys(rs: seq<Link>): seq<int> {
    if rs == [] then [] else ([rs[0].key] + Keys(rs[0].hang)) + RightKeys(rs[1..])
  }

  /** The left tree with `t` as the last right child, and the mirror image. */
  function LeftTree(ls: seq<Link>, t: Tree): Tree
    decreases |ls|
  {
    if ls == [] then t else LeftTree(ls[1..], Node(ls[0].hang, ls[0].key, t))
  }

  function RightTree(rs: seq<Link>, t: Tree): Tree
    decreases |rs|
  {
    if rs == [] then t else RightTree(rs[1..], Node(t, rs[0].key, rs[0].hang))
  }

  lemma {:induction false} LeftTreeKeys(ls: seq<Link>, t: Tree)
    ensures Keys(LeftTree(ls, t)) == LeftKeys(ls) + Keys(t)
    decreases |ls|
  {
    if ls != [] {
      LeftTreeKeys(ls[1..], Node(ls[0].hang, ls[0].key, t));
      var a, b, c := LeftKeys(ls[1..]), Keys(ls[0].hang) + [ls[0].key], Keys(t);
      assert a + (b + c) == (a + b) + c;
    }
  }

  lemma {:induction false} RightTreeKeys(rs: seq<Link>, t: Tree)
    ensures Keys(RightTree(rs, t)) == Keys(t) + RightKeys(rs)
    decreases |rs|
  {
    if rs != [] {
      RightTreeKeys(rs[1..], Node(t, rs[0].key, rs[0].hang));
      var a, k, h, b := Keys(t), [rs[0].key], Keys(rs[0].hang), RightKeys(rs[1..]);
      assert (a + k + h) + b == a + ((k + h) + b);
    }
  }

  ghost predicate Sorted(s: seq<int>) { forall i, j :: 0 <= i < j < |s| ==> s[i] < s[j] }

  /** No key lies strictly between the sought one and `x`. */
  ghost predicate Nearest(s: seq<int>, k: int, x: int) {
    x in s && forall y <- s :: !(k <= y < x) && !(x < y <= k)
  }

  // ----- one turn of the loop

  function RotateRight(t: Tree): Tree
    requires t.Node? && t.left.Node?
  {
    Node(t.left.left, t.left.key, Node(t.left.right, t.key, t.right))
  }

  function RotateLeft(t: Tree): Tree
    requires t.Node? && t.right.Node?
  {
    Node(Node(t.left, t.key, t.right.left), t.right.key, t.right.right)
  }

  lemma RotateRightKeys(t: Tree)
    requires t.Node? && t.left.Node?
    ensures Keys(RotateRight(t)) == Keys(t)
  {
    Regroup(Keys(t.left.left), [t.left.key], Keys(t.left.right), [t.key], Keys(t.right));
  }

  lemma RotateLeftKeys(t: Tree)
    requires t.Node? && t.right.Node?
    ensures Keys(RotateLeft(t)) == Keys(t)
  {
    Regroup(Keys(t.left), [t.key], Keys(t.right.left), [t.right.key], Keys(t.right.right));
  }

  lemma Regroup(a: seq<int>, j: seq<int>, b: seq<int>, k: seq<int>, c: seq<int>)
    ensures a + j + (b + k + c) == (a + j + b) + k + c
  {
  }

  /** All keys, in order: passed on the left, still to go, passed on the right. */
  ghost function All(ls: seq<Link>, t: Tree, rs: seq<Link>): seq<int> { LeftKeys(ls) + Keys(t) + RightKeys(rs) }

  lemma RegroupRight(a: seq<int>, l: seq<int>, k: seq<int>, r: seq<int>, b: seq<int>)
    ensures a + l + ((k + r) + b) == a + (l + k + r) + b
  {
  }

  lemma RegroupLeft(a: seq<int>, l: seq<int>, k: seq<int>, r: seq<int>, b: seq<int>)
    ensures (a + (l + k)) + r + b == a + (l + k + r) + b
  {
  }

  lemma RegroupBoth(a: seq<int>, l: seq<int>, k: seq<int>, r: seq<int>, b: seq<int>)
    ensures (a + l) + k + (r + b) == a + (l + k + r) + b
  {
  }

  lemma LinkLeft(ls: seq<Link>, t: Tree, rs: seq<Link>)
    requires t.Node?
    ensures All(ls, t.left, [Link(t.right, t.key)] + rs) == All(ls, t, rs)
  {
    var rs' := [Link(t.right, t.key)] + rs;
    assert rs'[1..] == rs;
    RegroupRight(LeftKeys(ls), Keys(t.left), [t.key], Keys(t.right), RightKeys(rs));
  }

  lemma LinkRight(ls: seq<Link>, t: Tree, rs: seq<Link>)
    requires t.Node?
    ensures All([Link(t.left, t.key)] + ls, t.right, rs) == All(ls, t, rs)
  {
    var ls' := [Link(t.left, t.key)] + ls;
    assert ls'[1..] == ls;
    RegroupLeft(LeftKeys(ls), Keys(t.left), [t.key], Keys(t.right), RightKeys(rs));
  }

  lemma Parts(a: seq<int>, m: seq<int>, b: seq<int>)
    requires Sorted(a + m + b)
    ensures Sorted(m)
    ensures forall x <- a, y <- m :: x < y
    ensures forall x <- m, y <- b :: x < y
  {
    var s := a + m + b;
    assert forall i :: 0 <= i < |a| ==> s[i] == a[i];
    assert forall i :: 0 <= i < |m| ==> s[|a| + i] == m[i];
    assert forall i :: 0 <= i < |b| ==> s[|a| + |m| + i] == b[i];
  }

  lemma KeyParts(t: Tree)
    requires t.Node? && Sorted(Keys(t))
    ensures t.key in Keys(t)
    ensures forall x <- Keys(t.left) :: x < t.key
    ensures forall x <- Keys(t.right) :: t.key < x
  {
    Parts(Keys(t.left), [t.key], Keys(t.right));
    assert t.key in [t.key];
  }

  /** Everything passed on the left is below the key, everything on the right above it. */
  ghost predicate Between(ls: seq<Link>, k: int, rs: seq<Link>) {
    (forall x <- LeftKeys(ls) :: x < k) && forall x <- RightKeys(rs) :: k < x
  }

  /** What assembling the root with the two spines leaves. */
  function Assemble(ls: seq<Link>, t: Tree, rs: seq<Link>): (r: Tree)
    requires t.Node?
    ensures r.Node? && r.key == t.key
  {
    Node(LeftTree(ls, t.left), t.key, RightTree(rs, t.right))
  }

  lemma AssembleKeys(ls: seq<Link>, t: Tree, rs: seq<Link>)
    requires t.Node?
    ensures Keys(Assemble(ls, t, rs)) == All(ls, t, rs)
  {
    LeftTreeKeys(ls, t.left);
    RightTreeKeys(rs, t.right);
    RegroupBoth(LeftKeys(ls), Keys(t.left), [t.key], Keys(t.right), RightKeys(rs));
  }

  /** Where the descent stops: at the key, or where the child to go on to is missing. */
  predicate Stop(t: Tree, k: int)
    requires t.Node?
  {
    t.key == k || (k < t.key && t.left.Leaf?) || (t.key < k && t.right.Leaf?)
  }

  lemma StopIsNearest(ls: seq<Link>, t: Tree, rs: seq<Link>, k: int)
    requires t.Node? && Stop(t, k)
    requires Sorted(All(ls, t, rs)) && Between(ls, k, rs)
    ensures Nearest(All(ls, t, rs), k, t.key)
  {
    Parts(LeftKeys(ls), Keys(t), RightKeys(rs));
    KeyParts(t);
  }

  lemma GoRight(ls: seq<Link>, t: Tree, rs: seq<Link>, k: int)
    requires t.Node? && t.key < k
    requires Sorted(All(ls, t, rs)) && Between(ls, k, rs)
    ensures Between([Link(t.left, t.key)] + ls, k, rs)
  {
    Parts(LeftKeys(ls), Keys(t), RightKeys(rs));
    KeyParts(t);
    assert ([Link(t.left, t.key)] + ls)[1..] == ls;
  }

  lemma GoLeft(ls: seq<Link>, t: Tree, rs: seq<Link>, k: int)
    requires t.Node? && k < t.key
    requires Sorted(All(ls, t, rs)) && Between(ls, k, rs)
    ensures Between(ls, k, [Link(t.right, t.key)] + rs)
  {
    Parts(LeftKeys(ls), Keys(t), RightKeys(rs));
    KeyParts(t);
    assert ([Link(t.right, t.key)] + rs)[1..] == rs;
  }

  // ----- inserting and removing at the root

  lemma SortedJoin(a: seq<int>, b: seq<int>)
    requires Sorted(a) && Sorted(b)
    requires forall x <- a, y <- b :: x < y
    ensures Sorted(a + b)
  {
    var s := a + b;
    forall i, j | 0 <= i < j < |s|
      ensures s[i] < s[j]
    {
      if i < |a| <= j {
        assert a[i] in a && b[j - |a|] in b;
      } else if |a| <= i {
        assert b[i - |a|] < b[j - |a|];
      }
    }
  }

  /** The three parts of a sorted sequence around `m`. */
  lemma Around(l: seq<int>, m: int, r: seq<int>)
    requires Sorted(l + [m] + r)
    ensures Sorted(l) && Sorted(r) && Sorted(l + [m]) && Sorted([m] + r)
    ensures forall x <- l :: x < m
    ensures forall x <- r :: m < x
  {
    var s := l + [m] + r;
    Parts(l, [m], r);
    assert m in [m];
    assert l == s[..|l|] && l + [m] == s[..|l| + 1] && [m] + r == s[|l|..] && r == s[|l| + 1..];
  }

  lemma InsertBelow(l: seq<int>, k: int, m: int, r: seq<int>)
    requires Sorted(l + [m] + r) && Nearest(l + [m] + r, k, m) && k < m
    ensures Sorted(l + [k] + ([] + [m] + r))
    ensures forall x :: x in l + [k] + ([] + [m] + r) <==> x == k || x in l + [m] + r
  {
    Around(l, m, r);
    assert [] + [m] + r == [m] + r;
    assert forall x <- l :: x in l + [m] + r;
    SortedJoin(l, [k]);
    SortedJoin(l + [k], [m] + r);
  }

  lemma InsertAbove(l: seq<int>, k: int, m: int, r: seq<int>)
    requires Sorted(l + [m] + r) && Nearest(l + [m] + r, k, m) && m < k
    ensures Sorted((l + [m] + []) + [k] + r)
    ensures forall x :: x in (l + [m] + []) + [k] + r <==> x == k || x in l + [m] + r
  {
    Around(l, m, r);
    assert l + [m] + [] == l + [m];
    assert forall x <- r :: x in l + [m] + r;
    SortedJoin(l + [m], [k]);
    SortedJoin(l + [m] + [k], r);
  }

  lemma RemoveMiddle(l: seq<int>, k: int, r: seq<int>)
    requires Sorted(l + [k] + r)
    ensures Sorted(l) && Sorted(l + r)
    ensures forall x <- l :: x < k
    ensures forall x :: x in l + r <==> x != k && x in l + [k] + r
  {
    Around(l, k, r);
    SortedJoin(l, r);
  }

  lemma RootIn(t: Tree)
    ensures t.Leaf? || t.key in Keys(t)
  {
    if t.Node? {
      assert t.key in [t.key];
      assert t.key in Keys(t.left) + [t.key];
    }
  }

  lemma LargestHasNoRight(t: Tree, k: int)
    requires t.Node? && Sorted(Keys(t)) && Nearest(Keys(t), k, t.key)
    requires forall x <- Keys(t) :: x < k
    ensures t.right == Leaf
  {
    KeyParts(t);
    assert forall x <- Keys(t.right) :: x in Keys(t);
    RootIn(t.right);
  }
}
