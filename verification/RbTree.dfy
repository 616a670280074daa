/** Red-black insertion and removal. A place in the tree is the subtree there and the path of
    frames up to the root, so climbing to the parent is dropping a frame. */
module RbTree {
  datatype Color = Red | Black

  datatype Tree = Leaf | Node(color: Color, left: Tree, key: int, right: Tree)

  datatype Side = Left | Right

  /** The parent seen from below: which child we are, its colour and key, and the other child. */
  datatype Frame = Frame(side: Side, color: Color, key: int, sib: Tree)

  function Other(s: Side): Side { if s.Left? then Right else Left }

  /** A node with `t` on side `s` and `u` on the other. */
  function Join(s: Side, c: Color, t: Tree, k: int, u: Tree): Tree {
    if s.Left? then Node(c, t, k, u) else Node(c, u, k, t)
  }

  function On(s: Side, t: Tree): Tree
    requires t.Node?
  {
    if s.Left? then t.left else t.right
  }

  function Up(t: Tree, f: Frame): Tree { Join(f.side, f.color, t, f.key, f.sib) }

  function Plug(t: Tree, path: seq<Frame>): Tree
    decreases |path|
  {
    if path == [] then t else Plug(Up(t, path[0]), path[1..])
  }

  predicate IsBlack(t: Tree) { t.Leaf? || t.color.Black? }

  function Paint(c: Color, t: Tree): Tree { if t.Leaf? then t else t.(color := c) }

  // ----- the keys, in order

  function Keys(t: Tree): seq<int> {
    match t
    case Leaf => []
    case Node(_, l, k, r) => Keys(l) + [k] + Keys(r)
  }

  function Before(path: seq<Frame>): seq<int> {
    if path == [] then []
    else Before(path[1..]) + (if path[0].side.Right? then Keys(path[0].sib) + [path[0].key] else [])
  }

  function After(path: seq<Frame>): seq<int> {
    if path == [] then []
    else (if path[0].side.Left? then [path[0].key] + Keys(path[0].sib) else []) + After(path[1..])
  }

  lemma {:induction false} PlugKeys(t: Tree, path: seq<Frame>)
    ensures Keys(Plug(t, path)) == Before(path) + Keys(t) + After(path)
    decreases |path|
  {
    if path != [] { PlugKeys(Up(t, path[0]), path[1..]); }
  }

  ghost predicate Sorted(s: seq<int>) { forall i, j :: 0 <= i < j < |s| ==> s[i] < s[j] }

  // ----- colours and black height

  function B(c: Color): int { if c.Black? then 1 else 0 }

  /** Every path down crosses `h` black nodes, and no red node has a red child. */
  ghost predicate Rb(t: Tree, h: int) {
    match t
    case Leaf => h == 0
    case Node(c, l, _, r) =>
      Rb(l, h - B(c)) && Rb(r, h - B(c)) && (c.Red? ==> IsBlack(l) && IsBlack(r))
  }

  /** The rest of the tree is sound if a subtree of black height `h` is put in the hole. */
  ghost predicate PathOk(path: seq<Frame>, h: int) {
    path != [] ==>
      var f := path[0];
      && Rb(f.sib, h) && PathOk(path[1..], h + B(f.color))
      && (f.color.Red? ==> IsBlack(f.sib) && |path| > 1 && path[1].color.Black?)
  }

  /** A whole tree: sound, with a black root. */
  ghost predicate Balanced(t: Tree) { IsBlack(t) && exists h :: Rb(t, h) }

  lemma {:induction false} RbHeight(t: Tree, h: int)
    requires Rb(t, h)
    ensures h >= 0 && (h == 0 ==> t.Leaf? || t.color.Red?)
  {
    if t.Node? { RbHeight(t.left, h - B(t.color)); }
  }

  lemma {:induction false} PlugRb(t: Tree, path: seq<Frame>, h: int)
    requires Rb(t, h) && PathOk(path, h)
    requires path == [] || path[0].color.Black? || IsBlack(t)
    ensures exists h' :: Rb(Plug(t, path), h')
    ensures path != [] ==> IsBlack(Plug(t, path))
    decreases |path|
  {
    if path == [] {
      assert Rb(Plug(t, path), h);
    } else {
      var f := path[0];
      assert Rb(Up(t, f), h + B(f.color));
      PlugRb(Up(t, f), path[1..], h + B(f.color));
      assert Plug(t, path) == Plug(Up(t, f), path[1..]);
    }
  }

  // ----- RB_INSERT_COLOR

  /** Red uncle: parent and uncle turn black, and the red grandparent is the new trouble. */
  function Recolor(e: Tree, p: Frame, g: Frame): Tree {
    Join(g.side, Red, Join(p.side, Black, e, p.key, p.sib), g.key, Paint(Black, g.sib))
  }

  /** Black uncle: the middle one of the three keys goes on top. */
  function Rotate(e: Tree, p: Frame, g: Frame): Tree
    requires e.Node?
  {
    var s := g.side;
    if p.side == s then Join(s, Black, e, p.key, Join(s, Red, p.sib, g.key, g.sib))
    else Join(s, Black, Join(s, Red, p.sib, p.key, On(s, e)), e.key, Join(s, Red, On(Other(s), e), g.key, g.sib))
  }

  lemma RecolorOk(e: Tree, p: Frame, g: Frame, h: int)
    requires Rb(e, h) && Rb(p.sib, h) && p.color.Red? && g.color.Black? && Rb(g.sib, h) && !IsBlack(g.sib)
    ensures Rb(Recolor(e, p, g), h + 1)
    ensures Keys(Recolor(e, p, g)) == Keys(Up(Up(e, p), g))
  {
  }

  lemma RotateOk(e: Tree, p: Frame, g: Frame, h: int)
    requires Rb(e, h) && e.Node? && e.color.Red? && Rb(p.sib, h) && IsBlack(p.sib)
    requires g.color.Black? && Rb(g.sib, h) && IsBlack(g.sib)
    ensures Rb(Rotate(e, p, g), h + 1) && IsBlack(Rotate(e, p, g))
  {
    hide Keys;
  }

  lemma RotateKeys(e: Tree, p: Frame, g: Frame)
    requires e.Node?
    ensures Keys(Rotate(e, p, g)) == Keys(Up(Up(e, p), g))
  {
    var a, b, c, d := Keys(e.left), Keys(e.right), Keys(p.sib), Keys(g.sib);
    var i, j, k := [e.key], [p.key], [g.key];
    assert Keys(e) == a + i + b;
    if p.side == g.side {
      Regroup(Keys(e), j, c, k, d);
      Regroup(d, k, c, j, Keys(e));
    } else if g.side.Left? {
      Regroup5(c, j, a, i, b, k, d);
    } else {
      Regroup5(d, k, a, i, b, j, c);
    }
  }

  lemma Regroup(a: seq<int>, j: seq<int>, c: seq<int>, k: seq<int>, d: seq<int>)
    ensures a + j + (c + k + d) == (a + j + c) + k + d
  {
  }

  lemma Regroup5(c: seq<int>, j: seq<int>, a: seq<int>, i: seq<int>, b: seq<int>, k: seq<int>, d: seq<int>)
    ensures (c + j + a) + i + (b + k + d) == (c + j + (a + i + b)) + k + d
    ensures (c + j + a) + i + (b + k + d) == c + j + ((a + i + b) + k + d)
  {
  }

  lemma SameKeysBelow(t: Tree, u: Tree, path: seq<Frame>)
    requires Keys(t) == Keys(u)
    ensures Keys(Plug(t, path)) == Keys(Plug(u, path))
  {
    PlugKeys(t, path);
    PlugKeys(u, path);
  }

  lemma RootBlack(t: Tree)
    requires exists h :: Rb(t, h)
    ensures Balanced(Paint(Black, t)) && Keys(Paint(Black, t)) == Keys(t)
  {
    var h :| Rb(t, h);
    if t.Node? { assert Rb(Paint(Black, t), h + 1 - B(t.color)); } else { assert Rb(Paint(Black, t), h); }
  }

  // ----- RB_REMOVE_COLOR

  /** Red sibling: it is rotated above the parent, whose new sibling is black. */
  function LowerParent(f: Frame): seq<Frame>
    requires f.sib.Node?
  {
    [Frame(f.side, Red, f.key, On(f.side, f.sib)), Frame(f.side, Black, f.sib.key, On(Other(f.side), f.sib))]
  }

  lemma LowerParentOk(e: Tree, path: seq<Frame>, h: int)
    requires path != [] && PathOk(path, h) && !IsBlack(path[0].sib)
    ensures var path' := LowerParent(path[0]) + path[1..];
            && PathOk(path', h) && IsBlack(path'[0].sib)
            && Keys(Plug(e, path')) == Keys(Plug(e, path))
  {
    var f := path[0];
    var path' := LowerParent(f) + path[1..];
    assert path'[1..] == [path'[1]] + path[1..] && path'[1..][1..] == path[1..];
    assert PathOk(path'[1..], h);
    var a, b, c := Keys(e), Keys(On(f.side, f.sib)), Keys(On(Other(f.side), f.sib));
    Regroup(a, [f.key], b, [f.sib.key], c);
    Regroup(c, [f.sib.key], b, [f.key], a);
    SameKeysBelow(Up(Up(e, path'[0]), path'[1]), Up(e, f), path[1..]);
    assert Plug(e, path') == Plug(Up(Up(e, path'[0]), path'[1]), path[1..]);
  }

  /** Black nephews: the sibling turns red and the shortage moves up. */
  function Deepen(e: Tree, f: Frame): Tree { Join(f.side, f.color, e, f.key, Paint(Red, f.sib)) }

  lemma DeepenOk(e: Tree, f: Frame, h: int)
    requires Rb(e, h) && IsBlack(e) && Rb(f.sib, h + 1) && f.sib.Node? && IsBlack(f.sib)
    requires IsBlack(f.sib.left) && IsBlack(f.sib.right)
    ensures var t := Deepen(e, f);
            if IsBlack(t) then Rb(t, h + 1) else Rb(Paint(Black, t), h + 1)
    ensures Keys(Deepen(e, f)) == Keys(Up(e, f))
  {
    assert Keys(Paint(Red, f.sib)) == Keys(f.sib);
    assert Rb(Paint(Red, f.sib), h);
  }

  /** The sibling with a red far child: if only the near child is red, it is rotated up. */
  function FarRed(f: Frame): Tree
    requires f.sib.Node?
  {
    var s, n := f.side, On(f.side, f.sib);
    if IsBlack(On(Other(s), f.sib)) && n.Node?
    then Join(s, Black, On(s, n), n.key, Join(s, Red, On(Other(s), n), f.sib.key, On(Other(s), f.sib)))
    else f.sib
  }

  /** A red nephew: the parent comes down on our side and makes up the shortage. */
  function Borrow(e: Tree, f: Frame): Tree
    requires f.sib.Node?
  {
    var s, t := f.side, FarRed(f);
    Join(s, f.color, Join(s, Black, e, f.key, On(s, t)), t.key, Paint(Black, On(Other(s), t)))
  }

  lemma FarRedOk(f: Frame, h: int)
    requires Rb(f.sib, h + 1) && f.sib.Node? && IsBlack(f.sib)
    requires !(IsBlack(f.sib.left) && IsBlack(f.sib.right))
    ensures var t := FarRed(f);
            && Rb(On(f.side, t), h) && Rb(Paint(Black, On(Other(f.side), t)), h + 1)
            && Keys(t) == Keys(f.sib)
  {
    var s, n, m := f.side, On(f.side, f.sib), On(Other(f.side), f.sib);
    if IsBlack(m) && n.Node? {
      Regroup(Keys(n.left), [n.key], Keys(n.right), [f.sib.key], Keys(m));
      Regroup(Keys(m), [f.sib.key], Keys(n.left), [n.key], Keys(n.right));
    }
  }

  lemma BorrowOk(e: Tree, f: Frame, h: int)
    requires Rb(e, h) && Rb(f.sib, h + 1) && f.sib.Node? && IsBlack(f.sib)
    requires !(IsBlack(f.sib.left) && IsBlack(f.sib.right))
    ensures Rb(Borrow(e, f), h + 1 + B(f.color)) && Borrow(e, f).Node? && Borrow(e, f).color == f.color
    ensures Keys(Borrow(e, f)) == Keys(Up(e, f))
  {
    FarRedOk(f, h);
    var s, t := f.side, FarRed(f);
    hide FarRed;
    var m := On(Other(s), t);
    assert Keys(Paint(Black, m)) == Keys(m);
    Regroup(Keys(e), [f.key], Keys(On(s, t)), [t.key], Keys(m));
    Regroup(Keys(m), [t.key], Keys(On(s, t)), [f.key], Keys(e));
  }

  lemma PaintKeys(e: Tree, path: seq<Frame>)
    ensures Keys(Plug(Paint(Black, e), path)) == Keys(Plug(e, path))
  {
    SameKeysBelow(Paint(Black, e), e, path);
  }

  // ----- RB_INSERT, RB_REMOVE

  lemma TopFrame(f: Frame, path: seq<Frame>, k: int)
    requires f.side.Right?
    ensures After([f] + path) == After(path)
    ensures Before([f.(key := k)] + path) == Before(path) + (Keys(f.sib) + [k])
  {
    assert ([f] + path)[1..] == path && ([f.(key := k)] + path)[1..] == path;
    assert [] + After(path) == After(path);
  }

  lemma FoundNode(t: Tree, path: seq<Frame>, k: int)
    requires k in Keys(Plug(t, path))
    requires t.Leaf? ==> (forall x <- Before(path) :: x < k) && forall x <- After(path) :: k < x
    ensures t.Node?
    ensures Keys(Plug(t, path)) == (Before(path) + Keys(t.left)) + [t.key] + (Keys(t.right) + After(path))
  {
    PlugKeys(t, path);
    if t.Node? { RegroupAround(Before(path), Keys(t.left), [t.key], Keys(t.right), After(path)); }
  }

  lemma RegroupAround(a: seq<int>, l: seq<int>, k: seq<int>, r: seq<int>, b: seq<int>)
    ensures a + (l + k + r) + b == (a + l) + k + (r + b)
  {
  }

  lemma LeftmostKeys(e: Tree)
    requires e.Node? && e.left.Leaf?
    ensures Keys(e) == [] + [e.key] + Keys(e.right)
  {
  }

  lemma LeftKeys(e: Tree, q: seq<Frame>)
    requires e.Node?
    ensures var q' := [Frame(Left, e.color, e.key, e.right)] + q;
            Before(q') == Before(q) && Keys(e.left) + After(q') == Keys(e) + After(q)
  {
    var q' := [Frame(Left, e.color, e.key, e.right)] + q;
    assert q'[1..] == q;
    assert Before(q) + [] == Before(q);
    assert Keys(e.left) + ([e.key] + Keys(e.right) + After(q)) == Keys(e.left) + [e.key] + Keys(e.right) + After(q);
  }

  /** Changing the key of the one frame we went right at changes only what comes before. */
  lemma {:induction false} RekeyTop(lower: seq<Frame>, f: Frame, path: seq<Frame>, k: int, h: int)
    requires PathOk(lower + [f] + path, h) && f.side.Right?
    requires forall i :: 0 <= i < |lower| ==> lower[i].side.Left?
    ensures var f' := f.(key := k);
            && PathOk(lower + [f'] + path, h)
            && After(lower + [f'] + path) == After(lower + [f] + path)
            && Before(lower + [f'] + path) == Before([f'] + path)
            && (lower + [f'] + path)[0].color == (lower + [f] + path)[0].color
    decreases |lower|
  {
    var f' := f.(key := k);
    var q, q' := lower + [f] + path, lower + [f'] + path;
    hide Rb, Keys;
    if lower == [] {
      assert q == [f] + path && q' == [f'] + path;
      assert q[1..] == path && q'[1..] == path;
    } else {
      assert q[1..] == lower[1..] + [f] + path && q'[1..] == lower[1..] + [f'] + path;
      RekeyTop(lower[1..], f, path, k, h + B(lower[0].color));
      assert Before(q'[1..]) + [] == Before(q'[1..]);
    }
  }

  /** Splicing out the node found leaves every key but the removed one, in order. */
  lemma SpliceKeys(t: Tree, path: seq<Frame>, e: Tree, q: seq<Frame>)
    requires t.Node? && e.Node?
    requires (e == t && q == path && (t.left.Leaf? || t.right.Leaf?))
          || (e.left.Leaf? && Before(q) == Before(path) + (Keys(t.left) + [e.key])
              && [e.key] + Keys(e.right) + After(q) == Keys(t.right) + After(path))
    ensures var child := if e.left.Leaf? then e.right else e.left;
            Keys(Plug(child, q)) == (Before(path) + Keys(t.left)) + (Keys(t.right) + After(path))
  {
    var child := if e.left.Leaf? then e.right else e.left;
    PlugKeys(child, q);
    var a, l, r, b := Before(path), Keys(t.left), Keys(t.right), After(path);
    if e == t && q == path {
      OneSided(t);
      hide *;
      RegroupHere(a, l, r, b);
    } else {
      hide *;
      RegroupBelow(a, l, [e.key], Keys(e.right), After(q));
    }
  }

  lemma OneSided(t: Tree)
    requires t.Node? && (t.left.Leaf? || t.right.Leaf?)
    ensures Keys(t.left) + Keys(t.right) == Keys(if t.left.Leaf? then t.right else t.left)
  {
  }

  lemma RegroupHere(a: seq<int>, l: seq<int>, r: seq<int>, b: seq<int>)
    ensures (a + l) + (r + b) == a + (l + r) + b
  {
  }

  lemma RegroupBelow(a: seq<int>, l: seq<int>, k: seq<int>, c: seq<int>, d: seq<int>)
    ensures a + (l + k) + c + d == (a + l) + (k + c + d)
  {
  }

  lemma RemoveMiddle(s: seq<int>, a: seq<int>, k: int, b: seq<int>)
    requires s == a + [k] + b && Sorted(s)
    ensures Sorted(a + b) && Removed(s, a + b, k)
  {
    assert s[..|a|] == a && s[|a| + 1..] == b && s[|a|] == k;
    SortedMiddle(a, [k], b);
    JoinSorted(a, [], b);
    assert a + [] + b == a + b;
  }

  ghost predicate Removed(before: seq<int>, after: seq<int>, k: int) {
    exists i :: 0 <= i < |before| && before[i] == k && after == before[..i] + before[i + 1..]
  }

  /** `after` is `before` with `k` put in at one place. */
  ghost predicate Inserted(before: seq<int>, after: seq<int>, k: int) {
    exists i :: 0 <= i <= |before| && after == before[..i] + [k] + before[i..]
  }

  /** Going to the side the key belongs to keeps it between what is left out on either side. */
  lemma NarrowDown(t: Tree, path: seq<Frame>, k: int)
    requires t.Node? && t.key != k && Sorted(Keys(Plug(t, path)))
    requires (forall x <- Before(path) :: x < k) && (forall x <- After(path) :: k < x)
    ensures var s := if k < t.key then Left else Right;
            var path' := [Frame(s, t.color, t.key, On(Other(s), t))] + path;
            (forall x <- Before(path') :: x < k) && (forall x <- After(path') :: k < x)
  {
    var s := if k < t.key then Left else Right;
    var path' := [Frame(s, t.color, t.key, On(Other(s), t))] + path;
    assert path'[1..] == path;
    PlugKeys(t, path);
    SortedMiddle(Before(path), Keys(t), After(path));
    SortedMiddle(Keys(t.left), [t.key], Keys(t.right));
    assert t.key in [t.key];
    hide Sorted;
    if s.Left? {
      assert After(path') == [t.key] + Keys(t.right) + After(path);
      assert Before(path') == Before(path) + [];
    } else {
      assert Before(path') == Before(path) + (Keys(t.left) + [t.key]);
      assert After(path') == [] + After(path);
    }
  }

  /** One step down: the frame left behind is sound above the child. */
  lemma OneDown(t: Tree, path: seq<Frame>, s: Side, h: int)
    requires t.Node? && Rb(t, h) && PathOk(path, h)
    requires t.color.Red? ==> path != [] && path[0].color.Black?
    ensures var path' := [Frame(s, t.color, t.key, On(Other(s), t))] + path;
            && Plug(On(s, t), path') == Plug(t, path)
            && Rb(On(s, t), h - B(t.color)) && PathOk(path', h - B(t.color))
            && (On(s, t).Node? && On(s, t).color.Red? ==> path'[0].color.Black?)
  {
    var f := Frame(s, t.color, t.key, On(Other(s), t));
    assert ([f] + path)[1..] == path && Up(On(s, t), f) == t;
  }

  lemma JoinSorted(a: seq<int>, m: seq<int>, b: seq<int>)
    requires Sorted(a) && Sorted(m) && Sorted(b)
    requires (forall x <- a, y <- m :: x < y) && (forall x <- m, y <- b :: x < y) && forall x <- a, y <- b :: x < y
    ensures Sorted(a + m + b)
  {
    var s := a + m + b;
    forall i, j | 0 <= i < j < |s|
      ensures s[i] < s[j]
    {
      if i < |a| <= j < |a| + |m| { assert a[i] in a && m[j - |a|] in m; }
      if i < |a| && |a| + |m| <= j { assert a[i] in a && b[j - |a| - |m|] in b; }
      if |a| <= i < |a| + |m| <= j { assert m[i - |a|] in m && b[j - |a| - |m|] in b; }
    }
  }

  lemma SortedMiddle(a: seq<int>, m: seq<int>, b: seq<int>)
    requires Sorted(a + m + b)
    ensures Sorted(m) && Sorted(a) && Sorted(b)
    ensures forall x <- a, y <- m :: x < y
    ensures forall x <- m, y <- b :: x < y
    ensures forall x <- a, y <- b :: x < y
  {
    var s := a + m + b;
    assert forall i :: 0 <= i < |a| ==> s[i] == a[i];
    assert forall i :: 0 <= i < |m| ==> s[|a| + i] == m[i];
    assert forall i :: 0 <= i < |b| ==> s[|a| + |m| + i] == b[i];
  }

  lemma InsertMiddle(a: seq<int>, k: int, b: seq<int>)
    requires Sorted(a + [] + b) && (forall x <- a :: x < k) && (forall x <- b :: k < x)
    ensures Sorted(a + [k] + b) && Inserted(a + [] + b, a + [k] + b, k) && k !in a + [] + b
  {
    var s := a + [] + b;
    assert s == a + b && s[..|a|] == a && s[|a|..] == b;
    assert a + [k] + b == s[..|a|] + [k] + s[|a|..];
    SortedMiddle(a, [], b);
    JoinSorted(a, [k], b);
  }

  // ----- the longest path

  function Height(t: Tree): nat {
    if t.Leaf? then 0 else 1 + if Height(t.left) < Height(t.right) then Height(t.right) else Height(t.left)
  }

  function Pow2(n: nat): nat { if n == 0 then 1 else 2 * Pow2(n - 1) }

  lemma {:induction false} Pow2Adds(a: nat, b: nat)
    ensures Pow2(a + b) == Pow2(a) * Pow2(b)
  {
    if a > 0 {
      Pow2Adds(a - 1, b);
      assert 2 * (Pow2(a - 1) * Pow2(b)) == (2 * Pow2(a - 1)) * Pow2(b);
    }
  }

  lemma {:induction false} Pow2Grows(a: nat, b: nat)
    requires a <= b
    ensures Pow2(a) <= Pow2(b)
  {
    if a < b { Pow2Grows(a, b - 1); }
  }

  lemma {:induction false} BlackHeightBounds(t: Tree, h: int)
    requires Rb(t, h)
    ensures h >= 0 && Pow2(h) <= |Keys(t)| + 1
    ensures Height(t) <= 2 * h + if IsBlack(t) then 0 else 1
  {
    if t.Node? {
      BlackHeightBounds(t.left, h - B(t.color));
      BlackHeightBounds(t.right, h - B(t.color));
    }
  }

  /** The height is at most 2 lg (n + 1): two to the height is at most the square of n + 1. */
  lemma HeightIsLogarithmic(t: Tree)
    requires Balanced(t)
    ensures Pow2(Height(t)) <= (|Keys(t)| + 1) * (|Keys(t)| + 1)
  {
    var h :| Rb(t, h);
    BlackHeightBounds(t, h);
    Pow2Grows(Height(t), h + h);
    Pow2Adds(h, h);
    Square(Pow2(h), |Keys(t)| + 1);
  }

  lemma Square(a: nat, b: nat)
    requires a <= b
    ensures a * a <= b * b
  {
    assert a * a <= a * b <= b * b;
  }
}
