/** The splay tree as it lies in memory: nodes with left and right pointers, changed one field at
    a time. A node is named by its key. */
module SplayHeap {
  import opened SplayTree

  datatype Side = Left | Right

  datatype Ptr = Null | At(key: int)

  datatype Cell = Cell(left: Ptr, right: Ptr)

  type Cells = map<int, Cell>

  function Other(s: Side): Side { if s.Left? then Right else Left }

  function Kid(c: Cell, s: Side): Ptr { if s.Left? then c.left else c.right }

  function SetKid(c: Cell, s: Side, p: Ptr): Cell { if s.Left? then c.(left := p) else c.(right := p) }

  function On(s: Side, t: Tree): Tree
    requires t.Node?
  {
    if s.Left? then t.left else t.right
  }

  function Join(s: Side, t: Tree, k: int, u: Tree): Tree { if s.Left? then Node(t, k, u) else Node(u, k, t) }

  // ----- no key twice

  function Ks(t: Tree): set<int> { if t.Leaf? then {} else Ks(t.left) + {t.key} + Ks(t.right) }

  ghost predicate Apart(t: Tree) {
    t.Node? ==>
      && t.key !in Ks(t.left) && t.key !in Ks(t.right) && Ks(t.left) !! Ks(t.right)
      && Apart(t.left) && Apart(t.right)
  }

  function SpineKs(p: seq<Link>): set<int> {
    if p == [] then {} else {p[0].key} + Ks(p[0].hang) + SpineKs(p[1..])
  }

  ghost predicate ApartSpine(ks: set<int>, p: seq<Link>)
    decreases |p|
  {
    p != [] ==>
      && p[0].key !in ks && p[0].key !in Ks(p[0].hang) && Ks(p[0].hang) !! ks && Apart(p[0].hang)
      && ApartSpine(ks + {p[0].key} + Ks(p[0].hang), p[1..])
  }

  lemma {:induction false} ApartSpineDisjoint(ks: set<int>, p: seq<Link>)
    requires ApartSpine(ks, p)
    ensures ks !! SpineKs(p)
    decreases |p|
  {
    if p != [] { ApartSpineDisjoint(ks + {p[0].key} + Ks(p[0].hang), p[1..]); }
  }

  // ----- cells that make up trees and spines

  function Top(t: Tree): Ptr { if t.Leaf? then Null else At(t.key) }

  ghost predicate Rep(c: Cells, t: Tree) {
    t.Node? ==> t.key in c && c[t.key] == Cell(Top(t.left), Top(t.right)) && Rep(c, t.left) && Rep(c, t.right)
  }

  /** A spine that grows on side `s`: the newest node's pointer on that side is still open. */
  ghost predicate RepSpine(c: Cells, s: Side, p: seq<Link>)
    decreases |p|
  {
    p != [] ==>
      && p[0].key in c && Kid(c[p[0].key], Other(s)) == Top(p[0].hang) && Rep(c, p[0].hang)
      && (|p| > 1 ==> p[1].key in c && Kid(c[p[1].key], s) == At(p[0].key))
      && RepSpine(c, s, p[1..])
  }

  function Newest(p: seq<Link>): Ptr { if p == [] then Null else At(p[0].key) }

  function Oldest(p: seq<Link>): Ptr { if p == [] then Null else At(p[|p| - 1].key) }

  function SpineTree(s: Side, p: seq<Link>, t: Tree): Tree { if s.Right? then LeftTree(p, t) else RightTree(p, t) }

  ghost predicate SameOn(c: Cells, c': Cells, ks: set<int>) { forall k <- ks :: k in c && k in c' && c'[k] == c[k] }

  lemma {:induction false} RepFrame(c: Cells, c': Cells, t: Tree)
    requires Rep(c, t) && SameOn(c, c', Ks(t))
    ensures Rep(c', t)
  {
    if t.Node? {
      RepFrame(c, c', t.left);
      RepFrame(c, c', t.right);
    }
  }

  lemma {:induction false} RepKeys(c: Cells, t: Tree)
    requires Rep(c, t)
    ensures Ks(t) <= c.Keys
  {
    if t.Node? {
      RepKeys(c, t.left);
      RepKeys(c, t.right);
    }
  }

  lemma {:induction false} SpineKeys(c: Cells, s: Side, p: seq<Link>)
    requires RepSpine(c, s, p)
    ensures SpineKs(p) <= c.Keys
    decreases |p|
  {
    if p != [] {
      RepKeys(c, p[0].hang);
      SpineKeys(c, s, p[1..]);
    }
  }

  lemma {:induction false} RepSpineFrame(c: Cells, c': Cells, s: Side, p: seq<Link>)
    requires RepSpine(c, s, p) && SameOn(c, c', SpineKs(p))
    ensures RepSpine(c', s, p)
    decreases |p|
  {
    if p != [] {
      assert |p| > 1 ==> p[1].key in SpineKs(p[1..]);
      RepFrame(c, c', p[0].hang);
      RepSpineFrame(c, c', s, p[1..]);
    }
  }

  /** Only the open pointer of the newest node changes. */
  lemma RepSpineOpen(c: Cells, c': Cells, s: Side, p: seq<Link>, ks: set<int>, to: Ptr)
    requires RepSpine(c, s, p) && ApartSpine(ks, p)
    requires p != [] ==> p[0].key in c && p[0].key in c' && c'[p[0].key] == SetKid(c[p[0].key], s, to)
    requires SameOn(c, c', if p == [] then {} else SpineKs(p) - {p[0].key})
    ensures RepSpine(c', s, p) && (p != [] ==> Kid(c'[p[0].key], s) == to)
  {
    if p != [] {
      ApartSpineDisjoint(ks + {p[0].key} + Ks(p[0].hang), p[1..]);
      assert p[0].key !in SpineKs(p[1..]);
      assert |p| > 1 ==> p[1].key in SpineKs(p[1..]);
      RepFrame(c, c', p[0].hang);
      RepSpineFrame(c, c', s, p[1..]);
    }
  }

  /** A spine whose open pointer holds `t` is a tree. */
  lemma {:induction false} ClosedSpine(c: Cells, s: Side, p: seq<Link>, t: Tree)
    requires RepSpine(c, s, p) && Rep(c, t) && (p != [] ==> Kid(c[p[0].key], s) == Top(t))
    ensures Rep(c, SpineTree(s, p, t)) && Top(SpineTree(s, p, t)) == if p == [] then Top(t) else Oldest(p)
    decreases |p|
  {
    if p != [] {
      var u := Join(s, t, p[0].key, p[0].hang);
      assert Rep(c, u);
      ClosedSpine(c, s, p[1..], u);
      assert |p| > 1 ==> p[1..][|p| - 2] == p[|p| - 1];
    }
  }

  lemma {:induction false} SpineTreeKs(s: Side, p: seq<Link>, t: Tree)
    requires Apart(t) && ApartSpine(Ks(t), p)
    ensures Ks(SpineTree(s, p, t)) == Ks(t) + SpineKs(p) && Apart(SpineTree(s, p, t))
    decreases |p|
  {
    if p != [] {
      var u := Join(s, t, p[0].key, p[0].hang);
      assert Ks(u) == Ks(t) + {p[0].key} + Ks(p[0].hang) && Apart(u);
      SpineTreeKs(s, p[1..], u);
    }
  }

  // ----- one node, by side

  lemma Unfold(c: Cells, t: Tree, s: Side)
    requires t.Node? && Rep(c, t) && Apart(t)
    ensures var a, b := On(s, t), On(Other(s), t);
            && t.key in c && Kid(c[t.key], s) == Top(a) && Kid(c[t.key], Other(s)) == Top(b)
            && Rep(c, a) && Rep(c, b) && Apart(a) && Apart(b)
            && Ks(t) == Ks(a) + {t.key} + Ks(b) && t.key !in Ks(a) && t.key !in Ks(b) && Ks(a) !! Ks(b)
            && (a.Node? ==> a.key in Ks(a) && a.key in c) && (b.Node? ==> b.key in Ks(b) && b.key in c)
  {
  }

  lemma Fold(c: Cells, s: Side, a: Tree, k: int, b: Tree)
    requires k in c && Kid(c[k], s) == Top(a) && Kid(c[k], Other(s)) == Top(b)
    requires Rep(c, a) && Rep(c, b) && Apart(a) && Apart(b)
    requires k !in Ks(a) && k !in Ks(b) && Ks(a) !! Ks(b)
    ensures var t := Join(s, a, k, b); Rep(c, t) && Apart(t) && Ks(t) == Ks(a) + {k} + Ks(b) && Top(t) == At(k)
  {
  }

  // ----- the steps

  /** The child on side `s` comes up. */
  function Turned(s: Side, t: Tree): Tree
    requires t.Node? && On(s, t).Node?
  {
    if s.Left? then RotateRight(t) else RotateLeft(t)
  }

  lemma TurnedRep(c: Cells, c': Cells, s: Side, t: Tree)
    requires t.Node? && On(s, t).Node? && Rep(c, t) && Apart(t)
    requires var y := On(s, t);
             && t.key in c && y.key in c && t.key in c' && y.key in c'
             && c'[t.key] == SetKid(c[t.key], s, Kid(c[y.key], Other(s)))
             && c'[y.key] == SetKid(c[y.key], Other(s), At(t.key))
             && SameOn(c, c', Ks(t) - {t.key, y.key})
    ensures Rep(c', Turned(s, t)) && Apart(Turned(s, t)) && Ks(Turned(s, t)) == Ks(t)
  {
    var y := On(s, t);
    var a, b, d := On(s, y), On(Other(s), y), On(Other(s), t);
    Unfold(c, t, s);
    Unfold(c, y, s);
    hide Rep, Apart, Ks;
    RepFrame(c, c', a);
    RepFrame(c, c', b);
    RepFrame(c, c', d);
    Fold(c', s, b, t.key, d);
    Fold(c', s, a, y.key, Join(s, b, t.key, d));
    assert Join(s, a, y.key, Join(s, b, t.key, d)) == Turned(s, t);
  }

  /** The tree still to go and the two spines, all in cells of their own. */
  ghost predicate Loose(c: Cells, s: Side, t: Tree, p: seq<Link>, q: seq<Link>) {
    && Rep(c, t) && RepSpine(c, s, p) && RepSpine(c, Other(s), q)
    && Apart(t) && ApartSpine(Ks(t), p) && ApartSpine(Ks(t), q) && SpineKs(p) !! SpineKs(q)
  }

  /** The root goes to the spine that grows on side `s`, and its child there is next. */
  lemma Linked(c: Cells, c': Cells, s: Side, t: Tree, p: seq<Link>, q: seq<Link>)
    requires t.Node? && Loose(c, s, t, p, q) && (p != [] ==> p[0].key in c)
    requires c' == if p == [] then c else c[p[0].key := SetKid(c[p[0].key], s, At(t.key))]
    ensures var p' := [Link(On(Other(s), t), t.key)] + p;
            && Loose(c', s, On(s, t), p', q) && Ks(On(s, t)) + SpineKs(p') == Ks(t) + SpineKs(p)
            && Oldest(p') == (if p == [] then At(t.key) else Oldest(p))
  {
    var p' := [Link(On(Other(s), t), t.key)] + p;
    var a, b := On(s, t), On(Other(s), t);
    assert p'[1..] == p;
    Unfold(c, t, s);
    ApartSpineDisjoint(Ks(t), p);
    ApartSpineDisjoint(Ks(t), q);
    RepKeys(c, t);
    SpineKeys(c, s, p);
    SpineKeys(c, Other(s), q);
    assert p != [] ==> p[0].key in SpineKs(p);
    ApartSpineShrinks(Ks(t), Ks(a), q);
    assert Ks(a) + {t.key} + Ks(b) == Ks(t);
    hide Rep, Apart, Ks;
    RepFrame(c, c', a);
    RepFrame(c, c', b);
    RepSpineFrame(c, c', Other(s), q);
    RepSpineOpen(c, c', s, p, Ks(t), At(t.key));
  }

  lemma {:induction false} ApartSpineShrinks(ks: set<int>, ks': set<int>, p: seq<Link>)
    requires ApartSpine(ks, p) && ks' <= ks
    ensures ApartSpine(ks', p)
    decreases |p|
  {
    if p != [] {
      ApartSpineShrinks(ks + {p[0].key} + Ks(p[0].hang), ks' + {p[0].key} + Ks(p[0].hang), p[1..]);
    }
  }

  // ----- the loop, by side

  /** The way to the key from `x` is on side `s`. */
  predicate Toward(s: Side, k: int, x: int) { if s.Left? then k < x else x < k }

  ghost function AllOn(s: Side, t: Tree, p: seq<Link>, q: seq<Link>): seq<int> {
    if s.Left? then All(q, t, p) else All(p, t, q)
  }

  ghost predicate BetweenOn(s: Side, k: int, p: seq<Link>, q: seq<Link>) {
    if s.Left? then Between(q, k, p) else Between(p, k, q)
  }

  /** What the descent keeps: the cells, the keys in their order, and the search. */
  ghost predicate Going(c: Cells, s: Side, k: int, t: Tree, p: seq<Link>, q: seq<Link>, keys: seq<int>, ks: set<int>) {
    && t.Node? && Loose(c, s, t, p, q)
    && AllOn(s, t, p, q) == keys && Ks(t) + SpineKs(p) + SpineKs(q) == ks
    && (Sorted(keys) ==> BetweenOn(s, k, p, q))
  }

  lemma GoingSwaps(c: Cells, s: Side, k: int, t: Tree, p: seq<Link>, q: seq<Link>, keys: seq<int>, ks: set<int>)
    requires Going(c, s, k, t, p, q, keys, ks)
    ensures Going(c, Other(s), k, t, q, p, keys, ks)
  {
  }

  lemma TurnedGoing(c: Cells, c': Cells, s: Side, k: int, t: Tree, p: seq<Link>, q: seq<Link>, keys: seq<int>,
                    ks: set<int>)
    requires Going(c, s, k, t, p, q, keys, ks) && On(s, t).Node?
    requires var y := On(s, t);
             && t.key in c && y.key in c
             && c' == c[t.key := SetKid(c[t.key], s, Kid(c[y.key], Other(s)))]
                       [y.key := SetKid(c[y.key], Other(s), At(t.key))]
    ensures Going(c', s, k, Turned(s, t), p, q, keys, ks)
    ensures |Keys(Turned(s, t))| == |Keys(t)|
  {
    var y := On(s, t);
    if s.Left? { RotateRightKeys(t); } else { RotateLeftKeys(t); }
    Unfold(c, t, s);
    RepKeys(c, t);
    SpineKeys(c, s, p);
    SpineKeys(c, Other(s), q);
    ApartSpineDisjoint(Ks(t), p);
    ApartSpineDisjoint(Ks(t), q);
    hide Rep, Apart, Ks, RepSpine, ApartSpine, SpineKs;
    TurnedRep(c, c', s, t);
    RepSpineFrame(c, c', s, p);
    RepSpineFrame(c, c', Other(s), q);
  }

  lemma LinkedGoing(c: Cells, c': Cells, s: Side, k: int, t: Tree, p: seq<Link>, q: seq<Link>, keys: seq<int>,
                    ks: set<int>)
    requires Going(c, s, k, t, p, q, keys, ks) && On(s, t).Node? && Toward(s, k, t.key) && (p != [] ==> p[0].key in c)
    requires c' == if p == [] then c else c[p[0].key := SetKid(c[p[0].key], s, At(t.key))]
    ensures var p' := [Link(On(Other(s), t), t.key)] + p;
            && Going(c', s, k, On(s, t), p', q, keys, ks)
            && Oldest(p') == (if p == [] then At(t.key) else Oldest(p))
    ensures |Keys(On(s, t))| < |Keys(t)|
  {
    Linked(c, c', s, t, p, q);
    if s.Left? {
      LinkLeft(q, t, p);
      if Sorted(keys) { GoLeft(q, t, p, k); }
    } else {
      LinkRight(p, t, q);
      if Sorted(keys) { GoRight(p, t, q, k); }
    }
  }

  lemma StoppedNear(c: Cells, k: int, t: Tree, ls: seq<Link>, rs: seq<Link>, keys: seq<int>, ks: set<int>)
    requires Going(c, Right, k, t, ls, rs, keys, ks) && Stop(t, k)
    ensures Sorted(keys) ==> Nearest(keys, k, t.key)
  {
    if Sorted(keys) { StopIsNearest(ls, t, rs, k); }
  }

  /** Outside `ks` nothing changes. */
  ghost predicate Within(c: Cells, c': Cells, ks: set<int>) { c'.Keys == c.Keys && SameOn(c, c', c.Keys - ks) }

  lemma WithinSelf(c: Cells, ks: set<int>)
    ensures Within(c, c, ks)
  {
  }

  lemma WithinTrans(c: Cells, c': Cells, c'': Cells, ks: set<int>)
    requires Within(c, c', ks) && Within(c', c'', ks)
    ensures Within(c, c'', ks)
  {
  }

  lemma FoundStops(t: Tree, k: int)
    requires t.Node? && t.key == k
    ensures Stop(t, k)
  {
  }

  /** The writes of the assembly leave the spines closed with the root's two subtrees. */
  lemma SpinesClosed(c: Cells, c': Cells, t: Tree, ls: seq<Link>, rs: seq<Link>)
    requires t.Node? && Loose(c, Right, t, ls, rs) && t.key in c
    requires ls != [] ==>
                 ls[0].key in c && ls[0].key in c' && c'[ls[0].key] == SetKid(c[ls[0].key], Right, Kid(c[t.key], Left))
    requires rs != [] ==>
                 rs[0].key in c && rs[0].key in c' && c'[rs[0].key] == SetKid(c[rs[0].key], Left, Kid(c[t.key], Right))
    requires SameOn(c, c', c.Keys
                           - (if ls == [] then {} else {ls[0].key}) - (if rs == [] then {} else {rs[0].key}) - {t.key})
    ensures RepSpine(c', Right, ls) && Rep(c', t.left) && (ls != [] ==> Kid(c'[ls[0].key], Right) == Top(t.left))
    ensures RepSpine(c', Left, rs) && Rep(c', t.right) && (rs != [] ==> Kid(c'[rs[0].key], Left) == Top(t.right))
  {
    var a, b := t.left, t.right;
    Unfold(c, t, Left);
    RepKeys(c, t);
    SpineKeys(c, Right, ls);
    SpineKeys(c, Left, rs);
    ApartSpineDisjoint(Ks(t), ls);
    ApartSpineDisjoint(Ks(t), rs);
    assert ls != [] ==> ls[0].key in SpineKs(ls);
    assert rs != [] ==> rs[0].key in SpineKs(rs);
    hide Rep, Apart, Ks, RepSpine, ApartSpine, SpineKs;
    RepSpineOpen(c, c', Right, ls, Ks(t), Top(a));
    RepSpineOpen(c, c', Left, rs, Ks(t), Top(b));
    RepFrame(c, c', a);
    RepFrame(c, c', b);
  }

  /** All four writes make the loose parts one tree. */
  lemma Assembled(c: Cells, c': Cells, k: int, t: Tree, ls: seq<Link>, rs: seq<Link>, keys: seq<int>, ks: set<int>)
    requires Going(c, Right, k, t, ls, rs, keys, ks) && t.key in c && t.key in c'
    requires ls != [] ==>
                 ls[0].key in c && ls[0].key in c' && c'[ls[0].key] == SetKid(c[ls[0].key], Right, Kid(c[t.key], Left))
    requires rs != [] ==>
                 rs[0].key in c && rs[0].key in c' && c'[rs[0].key] == SetKid(c[rs[0].key], Left, Kid(c[t.key], Right))
    requires SameOn(c, c', c.Keys
                           - (if ls == [] then {} else {ls[0].key}) - (if rs == [] then {} else {rs[0].key}) - {t.key})
    requires c'[t.key] == Cell(if ls == [] then Kid(c[t.key], Left) else Oldest(ls),
                               if rs == [] then Kid(c[t.key], Right) else Oldest(rs))
    ensures var t' := Assemble(ls, t, rs);
            Rep(c', t') && Apart(t') && Ks(t') == ks && Keys(t') == keys && Top(t') == At(t.key)
  {
    var a, b := t.left, t.right;
    assert Keys(Assemble(ls, t, rs)) == keys by { AssembleKeys(ls, t, rs); }
    SpinesClosed(c, c', t, ls, rs);
    SidesApart(t, ls, rs);
    hide Rep, Apart, Ks, RepSpine, ApartSpine, SpineKs, LeftTree, RightTree, All, SameOn;
    ClosedSpine(c', Right, ls, t.left);
    ClosedSpine(c', Left, rs, t.right);
    Fold(c', Left, LeftTree(ls, t.left), t.key, RightTree(rs, t.right));
  }

  lemma SidesApart(t: Tree, ls: seq<Link>, rs: seq<Link>)
    requires t.Node? && Apart(t) && ApartSpine(Ks(t), ls) && ApartSpine(Ks(t), rs) && SpineKs(ls) !! SpineKs(rs)
    ensures var a, b := LeftTree(ls, t.left), RightTree(rs, t.right);
            && Apart(a) && Apart(b) && t.key !in Ks(a) && t.key !in Ks(b) && Ks(a) !! Ks(b)
            && Ks(a) + {t.key} + Ks(b) == Ks(t) + SpineKs(ls) + SpineKs(rs)
  {
    ApartSpineDisjoint(Ks(t), ls);
    ApartSpineDisjoint(Ks(t), rs);
    ApartSpineShrinks(Ks(t), Ks(t.left), ls);
    ApartSpineShrinks(Ks(t), Ks(t.right), rs);
    SpineTreeKs(Right, ls, t.left);
    SpineTreeKs(Left, rs, t.right);
  }

  /** What the descent reads and writes is there, and inside the tree. */
  lemma Seen(c: Cells, s: Side, k: int, t: Tree, p: seq<Link>, q: seq<Link>, keys: seq<int>, ks: set<int>)
    requires Going(c, s, k, t, p, q, keys, ks)
    ensures t.Node? && t.key in c && t.key in ks
    ensures Kid(c[t.key], s) == Top(On(s, t)) && Kid(c[t.key], Other(s)) == Top(On(Other(s), t))
    ensures On(s, t).Node? ==> On(s, t).key in c && On(s, t).key in ks && On(s, t).key != t.key
    ensures p != [] ==> p[0].key in c && p[0].key in ks && p[0].key != t.key
    ensures q != [] ==> q[0].key in c && q[0].key in ks && q[0].key != t.key
    ensures p != [] && q != [] ==> p[0].key != q[0].key
  {
    Unfold(c, t, s);
    assert p != [] ==> p[0].key in SpineKs(p);
    assert q != [] ==> q[0].key in SpineKs(q);
  }

  lemma {:induction false} KsKeys(t: Tree)
    ensures forall x :: x in Ks(t) <==> x in Keys(t)
  {
    if t.Node? {
      KsKeys(t.left);
      KsKeys(t.right);
      assert forall x :: x in Keys(t) <==> x in Keys(t.left) || x in [t.key] || x in Keys(t.right);
    }
  }

  /** The old root goes below the new one, its child on side `s` beside it. */
  lemma RootedRep(c: Cells, c': Cells, s: Side, k: int, t: Tree)
    requires t.Node? && Rep(c, t) && Apart(t) && Ks(t) == c.Keys && k !in c
    requires c' == c[k := SetKid(SetKid(Cell(Null, Null), s, Top(On(s, t))), Other(s), At(t.key))]
                    [t.key := SetKid(c[t.key], s, Null)]
    ensures var t' := Join(s, On(s, t), k, Join(s, Leaf, t.key, On(Other(s), t)));
            Rep(c', t') && Apart(t') && Ks(t') == c'.Keys && Top(t') == At(k)
  {
    Unfold(c, t, s);
    RepKeys(c, t);
    assert Ks(Leaf) == {};
    var a, b := On(s, t), On(Other(s), t);
    hide Rep, Apart, Ks;
    RepFrame(c, c', a);
    RepFrame(c, c', b);
    assert Rep(c', Leaf) && Apart(Leaf);
    Fold(c', s, Leaf, t.key, b);
    Fold(c', s, a, k, Join(s, Leaf, t.key, b));
  }

  lemma InsertKeys(s: Side, k: int, t: Tree)
    requires t.Node? && Sorted(Keys(t)) && Nearest(Keys(t), k, t.key) && Toward(s, k, t.key)
    ensures var t' := Join(s, On(s, t), k, Join(s, Leaf, t.key, On(Other(s), t)));
            Sorted(Keys(t')) && forall x :: x in Keys(t') <==> x == k || x in Keys(t)
  {
    if s.Left? {
      InsertBelow(Keys(t.left), k, t.key, Keys(t.right));
    } else {
      assert Keys(Node(t.left, t.key, Leaf)) == Keys(t.left) + [t.key] + [];
      InsertAbove(Keys(t.left), k, t.key, Keys(t.right));
    }
  }

  lemma NoRightKs(t: Tree)
    requires t.Node? && t.right == Leaf
    ensures Ks(t) == Ks(t.left) + {t.key}
  {
  }

  /** The right subtree of the removed root goes below the largest node on the left. */
  lemma JoinedRep(c: Cells, c': Cells, u: Tree, r: Tree, k: int)
    requires u.Node? && Rep(c, u) && Apart(u) && u.right == Leaf && Rep(c, r) && Apart(r)
    requires k !in Ks(u) && k !in Ks(r) && Ks(u) !! Ks(r) && c.Keys == Ks(u) + {k} + Ks(r)
    requires u.key in c && u.key in c' && c'[u.key] == c[u.key].(right := Top(r))
    requires c'.Keys == c.Keys - {k} && SameOn(c, c', c.Keys - {u.key, k})
    ensures var t' := Node(u.left, u.key, r);
            Rep(c', t') && Apart(t') && Ks(t') == c'.Keys && Top(t') == At(u.key)
  {
    hide Rep, Apart, Ks;
    NoRightKs(u);
    Unfold(c, u, Left);
    assert Ks(u.left) + {u.key} + Ks(r) == c'.Keys;
    RepFrame(c, c', u.left);
    RepFrame(c, c', r);
    Fold(c', Left, u.left, u.key, r);
  }

  /** Below its largest key a tree has room for all that is above it. */
  lemma JoinedKeys(u: Tree, r: Tree, k: int)
    requires u.Node? && Sorted(Keys(u)) && Nearest(Keys(u), k, u.key) && forall x <- Keys(u) :: x < k
    ensures u.right == Leaf && Keys(Node(u.left, u.key, r)) == Keys(u) + Keys(r)
  {
    LargestHasNoRight(u, k);
    assert Keys(u) == Keys(u.left) + [u.key];
  }

  // ----- paths are halved

  /** Where the search for the key is after `d` steps down. */
  function Walk(t: Tree, k: int, d: nat): Tree
    decreases d
  {
    if d == 0 || t.Leaf? || t.key == k then t else Walk(if k < t.key then t.left else t.right, k, d - 1)
  }

  lemma {:induction false} WalkMore(t: Tree, k: int, d: nat)
    ensures var u := Walk(t, k, d);
            Walk(t, k, d + 1) == if u.Leaf? || u.key == k then u else if k < u.key then u.left else u.right
    decreases d
  {
    if d > 0 && t.Node? && t.key != k { WalkMore(if k < t.key then t.left else t.right, k, d - 1); }
  }

  function Down(s: Side, t: Tree, n: nat): Tree { if n == 0 || t.Leaf? then t else Down(s, On(s, t), n - 1) }

  /** The search ended `d` steps down: the two subtrees it ended above are now at most half as far
      below the root, and one more. */
  ghost predicate Halved(t: Tree, k: int, t': Tree, d: nat, a: nat, b: nat) {
    var w := Walk(t, k, d);
    && w.Node? && t'.Node? && w.key == t'.key && 2 * a <= d + 1 && 2 * b <= d + 1
    && Down(Right, t'.left, a) == w.left && Down(Left, t'.right, b) == w.right
  }

  ghost predicate PathHalved(t: Tree, k: int, t': Tree) { exists d, a, b :: Halved(t, k, t', d, a, b) }

  /** One turn to side `s`: it stops where the way ends, with the child there on top if the key is
      beyond it, or goes down one step, or two if the key is beyond the child. */
  ghost predicate TurnOf(s: Side, k: int, t: Tree, p: seq<Link>, stop: bool, t': Tree, p': seq<Link>) {
    && t.Node? && t'.Node?
    && if stop then
         p' == p
         && (t' == t || (On(s, t).Node? && Toward(s, k, On(s, t).key) && On(s, On(s, t)).Leaf? && t' == Turned(s, t)))
       else
         |p'| == |p| + 1 && On(s, t).Node?
         && t' == if Toward(s, k, On(s, t).key) then On(s, On(s, t)) else On(s, t)
  }

  /** The side of a turn that went down one step only: the next goes to the other side, so that
      neither spine gets more than half of what is passed. */
  datatype Last = Double | Single(s: Side)

  ghost predicate Halving(t: Tree, k: int, u: Tree, d: nat, last: Last, p: seq<Link>, q: seq<Link>, s: Side) {
    && u.Node? && u == Walk(t, k, d)
    && 2 * |p| <= d + (if last == Single(s) then 1 else 0) && 2 * |q| <= d + (if last == Single(Other(s)) then 1 else 0)
    && (last.Single? ==> !Toward(last.s, k, u.key))
  }

  lemma HalvingStep(t: Tree, k: int, u: Tree, d: nat, last: Last, p: seq<Link>, q: seq<Link>, s: Side,
                    u': Tree, p': seq<Link>) returns (d': nat, last': Last)
    requires Halving(t, k, u, d, last, p, q, s) && Toward(s, k, u.key) && TurnOf(s, k, u, p, false, u', p')
    ensures Halving(t, k, u', d', last', p', q, s)
  {
    WalkMore(t, k, d);
    WalkMore(t, k, d + 1);
    if Toward(s, k, On(s, u).key) { d', last' := d + 2, Double; } else { d', last' := d + 1, Single(s); }
  }

  /** At the end of the loop, before the parts are put together. */
  ghost predicate HalvedParts(t: Tree, k: int, u: Tree, d: nat, a: nat, b: nat, ls: seq<Link>, rs: seq<Link>) {
    var w := Walk(t, k, d);
    && w.Node? && u.Node? && w.key == u.key && |ls| <= a && |rs| <= b && 2 * a <= d + 1 && 2 * b <= d + 1
    && Down(Right, u.left, a - |ls|) == w.left && Down(Left, u.right, b - |rs|) == w.right
  }

  lemma HalvingStop(t: Tree, k: int, u: Tree, d: nat, last: Last, p: seq<Link>, q: seq<Link>, s: Side, u': Tree)
    returns (d': nat, a: nat, b: nat)
    requires Halving(t, k, u, d, last, p, q, s) && Toward(s, k, u.key) && TurnOf(s, k, u, p, true, u', p)
    ensures var ls, rs := if s.Left? then q else p, if s.Left? then p else q; HalvedParts(t, k, u', d', a, b, ls, rs)
  {
    var ls, rs := if s.Left? then q else p, if s.Left? then p else q;
    d', a, b := d, |ls|, |rs|;
    if u' != u {
      WalkMore(t, k, d);
      d' := d + 1;
      if s.Left? {
        b := b + 1;
        assert Down(Left, u'.right, 1) == Down(Left, u'.right.left, 0);
      } else {
        a := a + 1;
        assert Down(Right, u'.left, 1) == Down(Right, u'.left.right, 0);
      }
    }
  }

  /** Either way a turn goes, on either side. */
  lemma OneTurn(t: Tree, k: int, u: Tree, d: nat, last: Last, p: seq<Link>, q: seq<Link>, s: Side,
                stop: bool, u': Tree, p': seq<Link>) returns (d': nat, last': Last, a: nat, b: nat)
    requires Halving(t, k, u, d, last, p, q, s) && Toward(s, k, u.key) && TurnOf(s, k, u, p, stop, u', p')
    ensures var ls, rs := if s.Left? then q else p', if s.Left? then p' else q;
            if stop then HalvedParts(t, k, u', d', a, b, ls, rs) else Halving(t, k, u', d', last', ls, rs, Right)
  {
    last', a, b := Double, 0, 0;
    if stop {
      assert p' == p;
      d', a, b := HalvingStop(t, k, u, d, last, p, q, s, u');
    } else {
      d', last' := HalvingStep(t, k, u, d, last, p, q, s, u', p');
      if s.Left? { HalvingSwaps(t, k, u', d', last', p', q, s); }
    }
  }

  lemma HalvingStarts(t: Tree, k: int)
    requires t.Node?
    ensures Halving(t, k, t, 0, Double, [], [], Right)
  {
  }

  lemma HalvingFound(t: Tree, k: int, u: Tree, d: nat, last: Last, ls: seq<Link>, rs: seq<Link>)
    requires Halving(t, k, u, d, last, ls, rs, Right)
    ensures HalvedParts(t, k, u, d, |ls|, |rs|, ls, rs)
  {
  }

  lemma HalvingSwaps(t: Tree, k: int, u: Tree, d: nat, last: Last, p: seq<Link>, q: seq<Link>, s: Side)
    requires Halving(t, k, u, d, last, p, q, s)
    ensures Halving(t, k, u, d, last, q, p, Other(s))
  {
  }

  lemma {:induction false} DownLeftTree(ls: seq<Link>, t: Tree, n: nat)
    ensures Down(Right, LeftTree(ls, t), |ls| + n) == Down(Right, t, n)
    decreases |ls|
  {
    if ls != [] {
      var u := Node(ls[0].hang, ls[0].key, t);
      DownLeftTree(ls[1..], u, n + 1);
      assert Down(Right, u, n + 1) == Down(Right, t, n);
    }
  }

  lemma {:induction false} DownRightTree(rs: seq<Link>, t: Tree, n: nat)
    ensures Down(Left, RightTree(rs, t), |rs| + n) == Down(Left, t, n)
    decreases |rs|
  {
    if rs != [] {
      var u := Node(t, rs[0].key, rs[0].hang);
      DownRightTree(rs[1..], u, n + 1);
      assert Down(Left, u, n + 1) == Down(Left, t, n);
    }
  }

  lemma PartsHalved(t: Tree, k: int, u: Tree, d: nat, a: nat, b: nat, ls: seq<Link>, rs: seq<Link>)
    requires HalvedParts(t, k, u, d, a, b, ls, rs)
    ensures Halved(t, k, Assemble(ls, u, rs), d, a, b)
  {
    DownLeftTree(ls, u.left, a - |ls|);
    DownRightTree(rs, u.right, b - |rs|);
    hide Walk;
  }

  class Head {
    var cells: Cells
    var root: Ptr
    ghost var tree: Tree

    ghost predicate Holds(t: Tree)
      reads this`cells, this`root
    {
      root == Top(t) && Rep(cells, t) && Apart(t)
    }

    /** The nodes are those of a search tree that hangs from the root. */
    ghost predicate Valid()
      reads this
    {
      Holds(tree) && cells.Keys == Ks(tree) && Sorted(Keys(tree))
    }

    constructor ()
      ensures Valid() && Keys(tree) == []
    {
      cells, root, tree := map[], Null, Leaf;
    }

    /** The child on side `s` comes up over the root. */
    method Rotate(s: Side, tmp: Ptr, ghost k: int, ghost t: Tree, ghost p: seq<Link>, ghost q: seq<Link>,
                  ghost keys: seq<int>, ghost ks: set<int>)
      requires Going(cells, s, k, t, p, q, keys, ks) && root == Top(t) && On(s, t).Node? && tmp == Top(On(s, t))
      modifies this`cells, this`root
      ensures Going(cells, s, k, Turned(s, t), p, q, keys, ks) && root == Top(Turned(s, t))
              && |Keys(Turned(s, t))| == |Keys(t)|
      ensures Within(old(cells), cells, ks)
    {
      Seen(cells, s, k, t, p, q, keys, ks);
      hide Going, Rep, Apart, Ks, Keys;
      cells := cells[root.key := SetKid(cells[root.key], s, Kid(cells[tmp.key], Other(s)))];
      cells := cells[tmp.key := SetKid(cells[tmp.key], Other(s), root)];
      root := tmp;
      TurnedGoing(old(cells), cells, s, k, t, p, q, keys, ks);
    }

    /** The root goes to the end of the spine that grows on side `s`, and its child there is the
        new root. A null end is the header. */
    method LinkRoot(s: Side, end: Ptr, node: Cell, ghost k: int, ghost t: Tree, ghost p: seq<Link>, ghost q: seq<Link>,
                    ghost keys: seq<int>, ghost ks: set<int>)
      returns (end': Ptr, node': Cell)
      requires Going(cells, s, k, t, p, q, keys, ks) && root == Top(t) && On(s, t).Node? && Toward(s, k, t.key)
      requires end == Newest(p) && Kid(node, s) == Oldest(p)
      modifies this`cells, this`root
      ensures var p' := [Link(On(Other(s), t), t.key)] + p;
              && Going(cells, s, k, On(s, t), p', q, keys, ks) && root == Top(On(s, t)) && |Keys(On(s, t))| < |Keys(t)|
              && end' == Newest(p') && Kid(node', s) == Oldest(p') && Kid(node', Other(s)) == Kid(node, Other(s))
      ensures Within(old(cells), cells, ks)
    {
      Seen(cells, s, k, t, p, q, keys, ks);
      hide Going, Rep, Apart, Ks, Keys;
      node' := node;
      if end.Null? {
        node' := SetKid(node, s, root);
      } else {
        cells := cells[end.key := SetKid(cells[end.key], s, root)];
      }
      end' := root;
      root := Kid(cells[root.key], s);
      LinkedGoing(old(cells), cells, s, k, t, p, q, keys, ks);
    }

    /** One turn of the loop: stop, or pass the root on the side away from the key. */
    method Turn(k: int, s: Side, end: Ptr, node: Cell, ghost t: Tree, ghost p: seq<Link>, ghost q: seq<Link>,
                ghost keys: seq<int>, ghost ks: set<int>)
      returns (stop: bool, end': Ptr, node': Cell, ghost t': Tree, ghost p': seq<Link>)
      requires Going(cells, s, k, t, p, q, keys, ks) && root == Top(t) && Toward(s, k, t.key)
      requires end == Newest(p) && Kid(node, s) == Oldest(p)
      modifies this`cells, this`root
      ensures Going(cells, s, k, t', p', q, keys, ks) && root == Top(t')
      ensures end' == Newest(p') && Kid(node', s) == Oldest(p') && Kid(node', Other(s)) == Kid(node, Other(s))
      ensures if stop then Stop(t', k) else |Keys(t')| < |Keys(t)|
      ensures TurnOf(s, k, t, p, stop, t', p')
      ensures Within(old(cells), cells, ks)
    {
      hide Going, Rep, Apart, Ks, Keys;
      stop, end', node', t', p' := false, end, node, t, p;
      Seen(cells, s, k, t, p, q, keys, ks);
      var tmp := Kid(cells[root.key], s);
      if tmp.Null? {
        stop := true;
        return;
      }
      if Toward(s, k, tmp.key) {
        Rotate(s, tmp, k, t, p, q, keys, ks);
        t' := Turned(s, t);
        Seen(cells, s, k, t', p, q, keys, ks);
        if Kid(cells[root.key], s).Null? {
          stop := true;
          return;
        }
      }
      end', node' := LinkRoot(s, end, node, k, t', p, q, keys, ks);
      p' := [Link(On(Other(s), t'), t'.key)] + p;
      t' := On(s, t');
    }

    /** The two spines and the root become one tree again. */
    method Reassemble(k: int, left: Ptr, right: Ptr, node: Cell, ghost t: Tree, ghost ls: seq<Link>,
                      ghost rs: seq<Link>,
                      ghost keys: seq<int>, ghost ks: set<int>)
      requires Going(cells, Right, k, t, ls, rs, keys, ks) && root == Top(t)
      requires left == Newest(ls) && right == Newest(rs) && node == Cell(Oldest(rs), Oldest(ls))
      modifies this`cells
      ensures var t' := Assemble(ls, t, rs); Holds(t') && Ks(t') == ks && Keys(t') == keys
      ensures Within(old(cells), cells, ks)
    {
      hide Going, Rep, Apart, Ks, Keys, Assemble;
      Seen(cells, Right, k, t, ls, rs, keys, ks);
      var n, x := node, root.key;
      if left.Null? {
        n := n.(right := cells[x].left);
      } else {
        cells := cells[left.key := cells[left.key].(right := cells[x].left)];
      }
      if right.Null? {
        n := n.(left := cells[x].right);
      } else {
        cells := cells[right.key := cells[right.key].(left := cells[x].right)];
      }
      cells := cells[x := cells[x].(left := n.right)];
      cells := cells[x := cells[x].(right := n.left)];
      Assembled(old(cells), cells, k, t, ls, rs, keys, ks);
    }

    /** For every tree: the keys keep their order, in a search tree the root is the key sought or next
        to it, and what hung below it is half as far down. Nothing outside the tree changes. */
    method Splay(k: int, ghost t: Tree) returns (ghost t': Tree)
      requires t.Node? && Holds(t)
      modifies this`cells, this`root
      ensures t'.Node? && Holds(t') && Ks(t') == Ks(t) && Keys(t') == Keys(t)
      ensures Sorted(Keys(t)) ==> Nearest(Keys(t), k, t'.key)
      ensures PathHalved(t, k, t')
      ensures Within(old(cells), cells, Ks(t))
    {
      var node := Cell(Null, Null);
      var left, right := Null, Null;
      ghost var u, ls, rs := t, [], [];
      ghost var keys, ks := Keys(t), Ks(t);
      Start(cells, k, t);
      var stop := false;
      ghost var d: nat, a: nat, b: nat, last := 0, 0, 0, Double;
      WithinSelf(cells, ks);
      hide Going, Rep, Apart, Ks, Keys, Halving, HalvedParts, TurnOf, Halved, Within, Stop;
      assert Halving(t, k, u, d, last, ls, rs, Right) by { HalvingStarts(t, k); }
      while !stop && k != root.key
        invariant Going(cells, Right, k, u, ls, rs, keys, ks) && u.Node? && root == Top(u)
        invariant left == Newest(ls) && right == Newest(rs) && node == Cell(Oldest(rs), Oldest(ls))
        invariant stop ==> Stop(u, k)
        invariant if stop then HalvedParts(t, k, u, d, a, b, ls, rs) else Halving(t, k, u, d, last, ls, rs, Right)
        invariant Within(old(cells), cells, ks)
        decreases !stop, |Keys(u)|
      {
        ghost var c0, u0, ls0, rs0 := cells, u, ls, rs;
        if k < root.key {
          GoingSwaps(cells, Right, k, u, ls, rs, keys, ks);
          stop, right, node, u, rs := Turn(k, Left, right, node, u, rs, ls, keys, ks);
          GoingSwaps(cells, Left, k, u, rs, ls, keys, ks);
          HalvingSwaps(t, k, u0, d, last, ls, rs0, Right);
          d, last, a, b := OneTurn(t, k, u0, d, last, rs0, ls, Left, stop, u, rs);
        } else {
          stop, left, node, u, ls := Turn(k, Right, left, node, u, ls, rs, keys, ks);
          d, last, a, b := OneTurn(t, k, u0, d, last, ls0, rs, Right, stop, u, ls);
        }
        WithinTrans(old(cells), c0, cells, ks);
      }
      if !stop {
        HalvingFound(t, k, u, d, last, ls, rs);
        a, b := |ls|, |rs|;
        FoundStops(u, k);
      }
      PartsHalved(t, k, u, d, a, b, ls, rs);
      StoppedNear(cells, k, u, ls, rs, keys, ks);
      ghost var c0 := cells;
      Reassemble(k, left, right, node, u, ls, rs, keys, ks);
      WithinTrans(old(cells), c0, cells, ks);
      t' := Assemble(ls, u, rs);
    }

    method Find(k: int) returns (found: Ptr)
      requires Valid()
      modifies this
      ensures Valid() && Keys(tree) == old(Keys(tree))
      ensures found == if k in old(Keys(tree)) then At(k) else Null
      ensures found.At? ==> root == found
    {
      if root.Null? { return Null; }
      ghost var t := Splay(k, tree);
      tree := t;
      RootIn(t);
      found := if k == root.key then root else Null;
    }

    /** Gives back the node that was there, if there was one. */
    method Insert(k: int) returns (there: Ptr)
      requires Valid()
      modifies this
      ensures Valid() && root == At(k)
      ensures there == if k in old(Keys(tree)) then At(k) else Null
      ensures forall x :: x in Keys(tree) <==> x == k || x in old(Keys(tree))
    {
      if root.Null? {
        cells, root, tree := cells[k := Cell(Null, Null)], At(k), Node(Leaf, k, Leaf);
        return Null;
      }
      ghost var t := Splay(k, tree);
      RootIn(t);
      KsKeys(t);
      if k == root.key {
        tree := t;
        return root;
      }
      InsertRoot(k, if k < root.key then Left else Right, t);
      there := Null;
    }

    method InsertRoot(k: int, s: Side, ghost t: Tree)
      requires t.Node? && Holds(t) && cells.Keys == Ks(t) && k !in cells
      requires Sorted(Keys(t)) && Nearest(Keys(t), k, t.key) && Toward(s, k, t.key)
      modifies this
      ensures Valid() && root == At(k)
      ensures forall x :: x in Keys(tree) <==> x == k || x in Keys(t)
    {
      Unfold(cells, t, s);
      InsertKeys(s, k, t);
      hide Rep, Apart, Ks, Keys;
      var r := root.key;
      cells := cells[k := SetKid(SetKid(Cell(Null, Null), s, Kid(cells[r], s)), Other(s), root)];
      cells := cells[r := SetKid(cells[r], s, Null)];
      root := At(k);
      RootedRep(old(cells), cells, s, k, t);
      tree := Join(s, On(s, t), k, Join(s, Leaf, r, On(Other(s), t)));
    }

    /** Gives back the node removed, if there was one. */
    method Remove(k: int) returns (gone: Ptr)
      requires Valid()
      modifies this
      ensures Valid()
      ensures gone == if k in old(Keys(tree)) then At(k) else Null
      ensures forall x :: x in Keys(tree) <==> x != k && x in old(Keys(tree))
    {
      if root.Null? { return Null; }
      ghost var t := Splay(k, tree);
      RootIn(t);
      if k != root.key {
        tree := t;
        return Null;
      }
      RemoveMiddle(Keys(t.left), k, Keys(t.right));
      gone := root;
      RemoveRoot(k, t);
    }

    method RemoveRoot(k: int, ghost t: Tree)
      requires t.Node? && t.key == k && Holds(t) && cells.Keys == Ks(t)
      requires Sorted(Keys(t.left)) && forall x <- Keys(t.left) :: x < k
      requires Sorted(Keys(t.left) + Keys(t.right))
      modifies this
      ensures Valid() && Keys(tree) == Keys(t.left) + Keys(t.right)
    {
      Unfold(cells, t, Left);
      assert t.left == Leaf ==> Keys(t.left) + Keys(t.right) == Keys(t.right) && Ks(t.left) == {};
      hide Rep, Apart, Ks, Keys, Sorted, PathHalved, Nearest;
      if cells[k].left.Null? {
        root := cells[k].right;
        ghost var c := cells;
        cells := cells - {k};
        RepFrame(c, cells, t.right);
        tree := t.right;
      } else {
        var tmp := cells[k].right;
        root := cells[k].left;
        ghost var c := cells;
        ghost var u := Splay(k, t.left);
        RepFrame(c, cells, t.right);
        JoinedKeys(u, t.right, k);
        Unfold(cells, u, Left);
        c := cells;
        cells := cells[root.key := cells[root.key].(right := tmp)];
        cells := cells - {k};
        JoinedRep(c, cells, u, t.right, k);
        tree := Node(u.left, u.key, t.right);
      }
    }
  }

  lemma Start(c: Cells, k: int, t: Tree)
    requires t.Node? && Rep(c, t) && Apart(t)
    ensures Going(c, Right, k, t, [], [], Keys(t), Ks(t))
  {
    assert [] + Keys(t) + [] == Keys(t);
  }
}
