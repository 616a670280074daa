/** The red-black tree as it lies in memory: nodes with left, right and parent pointers and a
    colour, changed one field at a time. A node is named by its key. */
module RbHeap {
  import opened RbTree

  datatype Ptr = Null | At(key: int)

  datatype Cell = Cell(left: Ptr, right: Ptr, parent: Ptr, color: Color)

  type Cells = map<int, Cell>

  function Kid(c: Cell, s: Side): Ptr { if s.Left? then c.left else c.right }

  function SetKid(c: Cell, s: Side, p: Ptr): Cell { if s.Left? then c.(left := p) else c.(right := p) }

  /** A node with `p` on side `s` and `q` on the other. */
  function Pair(s: Side, p: Ptr, q: Ptr, up: Ptr, color: Color): Cell {
    if s.Left? then Cell(p, q, up, color) else Cell(q, p, up, color)
  }

  // ----- no key twice

  function Ks(t: Tree): set<int> { if t.Leaf? then {} else Ks(t.left) + {t.key} + Ks(t.right) }

  ghost predicate Apart(t: Tree) {
    t.Node? ==>
      && t.key !in Ks(t.left) && t.key !in Ks(t.right) && Ks(t.left) !! Ks(t.right)
      && Apart(t.left) && Apart(t.right)
  }

  function PathKs(path: seq<Frame>): set<int> {
    if path == [] then {} else {path[0].key} + Ks(path[0].sib) + PathKs(path[1..])
  }

  /** The frames hold each key once, and none of `ks`. */
  ghost predicate ApartPath(ks: set<int>, path: seq<Frame>)
    decreases |path|
  {
    path != [] ==>
      var f := path[0];
      && f.key !in ks && f.key !in Ks(f.sib) && Ks(f.sib) !! ks && Apart(f.sib)
      && ApartPath(ks + {f.key} + Ks(f.sib), path[1..])
  }

  lemma {:induction false} ApartPathDisjoint(ks: set<int>, path: seq<Frame>)
    requires ApartPath(ks, path)
    ensures ks !! PathKs(path)
    decreases |path|
  {
    if path != [] { ApartPathDisjoint(ks + {path[0].key} + Ks(path[0].sib), path[1..]); }
  }

  // ----- cells that make up a tree

  function Top(t: Tree): Ptr { if t.Leaf? then Null else At(t.key) }

  ghost predicate Rep(c: Cells, t: Tree, up: Ptr) {
    t.Node? ==>
      && t.key in c && c[t.key] == Cell(Top(t.left), Top(t.right), up, t.color)
      && Rep(c, t.left, At(t.key)) && Rep(c, t.right, At(t.key))
  }

  function Above(path: seq<Frame>): Ptr { if path == [] then Null else At(path[0].key) }

  function FrameCell(child: Ptr, f: Frame, up: Ptr): Cell { Pair(f.side, child, Top(f.sib), up, f.color) }

  ghost predicate RepPath(c: Cells, child: Ptr, path: seq<Frame>)
    decreases |path|
  {
    path != [] ==>
      var f := path[0];
      && f.key in c && c[f.key] == FrameCell(child, f, Above(path[1..]))
      && Rep(c, f.sib, At(f.key)) && RepPath(c, At(f.key), path[1..])
  }

  function RootOf(child: Ptr, path: seq<Frame>): Ptr
    decreases |path|
  {
    if path == [] then child else RootOf(At(path[0].key), path[1..])
  }

  /** The cells are exactly the tree with `t` at the end of `path`, every parent pointer right. */
  ghost predicate Stands(c: Cells, root: Ptr, t: Tree, path: seq<Frame>) {
    && Apart(t) && ApartPath(Ks(t), path)
    && Rep(c, t, Above(path)) && RepPath(c, Top(t), path)
    && root == RootOf(Top(t), path) && c.Keys == Ks(t) + PathKs(path)
  }

  /** The same cells seen from one frame higher. */
  lemma Climb(c: Cells, root: Ptr, t: Tree, path: seq<Frame>)
    requires path != []
    ensures Stands(c, root, t, path) <==> Stands(c, root, Up(t, path[0]), path[1..])
  {
    var f := path[0];
    assert Ks(Up(t, f)) == Ks(t) + {f.key} + Ks(f.sib);
    assert Ks(t) + PathKs(path) == Ks(Up(t, f)) + PathKs(path[1..]);
  }

  /** Or from one lower. */
  lemma Enter(c: Cells, root: Ptr, t: Tree, path: seq<Frame>, s: Side)
    requires t.Node?
    ensures var q := [Frame(s, t.color, t.key, On(Other(s), t))] + path;
            Stands(c, root, t, path) <==> Stands(c, root, On(s, t), q)
  {
    var q := [Frame(s, t.color, t.key, On(Other(s), t))] + path;
    Climb(c, root, On(s, t), q);
    assert q[1..] == path && Up(On(s, t), q[0]) == t;
  }

  lemma {:induction false} ClimbAll(c: Cells, root: Ptr, t: Tree, a: seq<Frame>, b: seq<Frame>)
    ensures Stands(c, root, t, a + b) <==> Stands(c, root, Plug(t, a), b)
    decreases |a|
  {
    if a == [] {
      assert a + b == b;
    } else {
      Climb(c, root, t, a + b);
      assert (a + b)[1..] == a[1..] + b && (a + b)[0] == a[0];
      ClimbAll(c, root, Up(t, a[0]), a[1..], b);
    }
  }

  // ----- what a change leaves alone

  ghost predicate SameOn(c: Cells, c': Cells, ks: set<int>) { forall k <- ks :: k in c && k in c' && c'[k] == c[k] }

  lemma {:induction false} RepFrame(c: Cells, c': Cells, t: Tree, up: Ptr)
    requires Rep(c, t, up) && SameOn(c, c', Ks(t))
    ensures Rep(c', t, up)
  {
    if t.Node? {
      RepFrame(c, c', t.left, At(t.key));
      RepFrame(c, c', t.right, At(t.key));
    }
  }

  lemma {:induction false} RepPathFrame(c: Cells, c': Cells, child: Ptr, path: seq<Frame>)
    requires RepPath(c, child, path) && SameOn(c, c', PathKs(path))
    ensures RepPath(c', child, path)
    decreases |path|
  {
    if path != [] {
      RepFrame(c, c', path[0].sib, At(path[0].key));
      RepPathFrame(c, c', At(path[0].key), path[1..]);
    }
  }

  /** A subtree hung under another parent: only its top cell changes. */
  lemma RepMoved(c: Cells, c': Cells, t: Tree, up: Ptr, up': Ptr)
    requires Rep(c, t, up) && Apart(t) && SameOn(c, c', if t.Leaf? then {} else Ks(t) - {t.key})
    requires t.Node? ==> t.key in c' && c'[t.key] == c[t.key].(parent := up')
    ensures Rep(c', t, up')
  {
    if t.Node? {
      RepFrame(c, c', t.left, At(t.key));
      RepFrame(c, c', t.right, At(t.key));
    }
  }

  /** The path with another child at its end: only the last frame's cell changes. */
  lemma RepPathMoved(c: Cells, c': Cells, child: Ptr, child': Ptr, path: seq<Frame>, ks: set<int>)
    requires RepPath(c, child, path) && ApartPath(ks, path)
    requires SameOn(c, c', if path == [] then {} else PathKs(path) - {path[0].key})
    requires path != [] ==> path[0].key in c' && c'[path[0].key] == SetKid(c[path[0].key], path[0].side, child')
    ensures RepPath(c', child', path)
  {
    if path != [] {
      var f := path[0];
      ApartPathDisjoint(ks + {f.key} + Ks(f.sib), path[1..]);
      assert f.key !in PathKs(path[1..]);
      RepFrame(c, c', f.sib, At(f.key));
      RepPathFrame(c, c', At(f.key), path[1..]);
    }
  }

  // ----- one node, by side

  lemma Unfold(c: Cells, t: Tree, up: Ptr, s: Side)
    requires t.Node? && Rep(c, t, up) && Apart(t)
    ensures var a, b := On(s, t), On(Other(s), t);
            && t.key in c && c[t.key] == Pair(s, Top(a), Top(b), up, t.color)
            && Rep(c, a, At(t.key)) && Rep(c, b, At(t.key)) && Apart(a) && Apart(b)
            && Ks(t) == Ks(a) + {t.key} + Ks(b) && t.key !in Ks(a) && t.key !in Ks(b) && Ks(a) !! Ks(b)
            && (a.Node? ==> a.key in Ks(a) && a.key in c) && (b.Node? ==> b.key in Ks(b) && b.key in c)
  {
  }

  lemma Fold(c: Cells, s: Side, color: Color, a: Tree, k: int, b: Tree, up: Ptr)
    requires k in c && c[k] == Pair(s, Top(a), Top(b), up, color)
    requires Rep(c, a, At(k)) && Rep(c, b, At(k)) && Apart(a) && Apart(b)
    requires k !in Ks(a) && k !in Ks(b) && Ks(a) !! Ks(b)
    ensures var t := Join(s, color, a, k, b);
            Rep(c, t, up) && Apart(t) && Ks(t) == Ks(a) + {k} + Ks(b) && Top(t) == At(k)
  {
  }

  // ----- rotations and colours

  /** The child on the far side comes up, and the node goes down on side `s`. */
  function Rotated(s: Side, t: Tree): Tree
    requires t.Node? && On(Other(s), t).Node?
  {
    var y := On(Other(s), t);
    Join(s, y.color, Join(s, t.color, On(s, t), t.key, On(s, y)), y.key, On(Other(s), y))
  }

  /** What the pointer assignments of a rotation amount to. */
  ghost predicate RotatedCells(c: Cells, c': Cells, s: Side, t: Tree, path: seq<Frame>)
    requires t.Node? && On(Other(s), t).Node?
  {
    var y := On(Other(s), t);
    var b := On(s, y);
    && c'.Keys == c.Keys && t.key in c && y.key in c
    && c'[t.key] == Pair(s, Top(On(s, t)), Top(b), At(y.key), t.color)
    && c'[y.key] == Pair(s, At(t.key), Top(On(Other(s), y)), Above(path), y.color)
    && (b.Node? ==> b.key in c && c'[b.key] == c[b.key].(parent := At(t.key)))
    && (path != [] ==> path[0].key in c && c'[path[0].key] == SetKid(c[path[0].key], path[0].side, At(y.key)))
    && forall k <- c :: k != t.key && k != y.key && (b.Node? ==> k != b.key) && (path != [] ==> k != path[0].key) ==>
         c'[k] == c[k]
  }

  /** The rotated subtree in the new cells. */
  lemma RotateBelow(c: Cells, c': Cells, s: Side, t: Tree, path: seq<Frame>)
    requires t.Node? && On(Other(s), t).Node? && Rep(c, t, Above(path)) && Apart(t) && ApartPath(Ks(t), path)
    requires Ks(t) <= c.Keys && RotatedCells(c, c', s, t, path)
    ensures Rep(c', Rotated(s, t), Above(path)) && Apart(Rotated(s, t)) && Ks(Rotated(s, t)) == Ks(t)
  {
    var y := On(Other(s), t);
    var a, b, d := On(s, t), On(s, y), On(Other(s), y);
    Unfold(c, t, Above(path), s);
    Unfold(c, y, At(t.key), s);
    ApartPathDisjoint(Ks(t), path);
    assert path != [] ==> path[0].key in PathKs(path);
    hide Rep, Apart, Ks, ApartPath, PathKs;
    RepFrame(c, c', a, At(t.key));
    RepFrame(c, c', d, At(y.key));
    RepMoved(c, c', b, At(y.key), At(t.key));
    hide SameOn;
    Fold(c', s, t.color, a, t.key, b, At(y.key));
    Fold(c', s, y.color, Join(s, t.color, a, t.key, b), y.key, d, Above(path));
  }

  lemma RotateStands(c: Cells, c': Cells, root: Ptr, s: Side, t: Tree, path: seq<Frame>)
    requires t.Node? && On(Other(s), t).Node? && Stands(c, root, t, path) && RotatedCells(c, c', s, t, path)
    ensures Stands(c', if path == [] then At(On(Other(s), t).key) else root, Rotated(s, t), path)
  {
    var y := On(Other(s), t);
    RotateBelow(c, c', s, t, path);
    Unfold(c, t, Above(path), s);
    Unfold(c, y, At(t.key), s);
    hide Rep, Apart, Ks;
    ApartPathDisjoint(Ks(t), path);
    RepPathMoved(c, c', At(t.key), At(y.key), path, Ks(t));
    RootMoves(At(t.key), At(y.key), path);
  }

  /** The nodes a rotation touches are different ones. */
  lemma RotateNames(c: Cells, root: Ptr, s: Side, t: Tree, path: seq<Frame>)
    requires t.Node? && On(Other(s), t).Node? && Stands(c, root, t, path)
    ensures var y := On(Other(s), t);
            var b := On(s, y);
            && t.key in c && y.key in c && t.key != y.key
            && c[t.key] == Pair(s, Top(On(s, t)), At(y.key), Above(path), t.color)
            && c[y.key] == Pair(s, Top(b), Top(On(Other(s), y)), At(t.key), y.color)
            && (b.Node? ==> b.key in c && b.key != t.key && b.key != y.key)
            && (path != [] ==>
                  && path[0].key in c && path[0].key != t.key && path[0].key != y.key
                    && (b.Node? ==> path[0].key != b.key)
                  && (c[path[0].key].left == At(t.key) <==> path[0].side.Left?))
  {
    var y := On(Other(s), t);
    Unfold(c, t, Above(path), s);
    Unfold(c, y, At(t.key), s);
    ApartPathDisjoint(Ks(t), path);
    if path != [] {
      assert path[0].key in PathKs(path);
      assert path[0].sib.Node? ==> path[0].sib.key in Ks(path[0].sib);
      hide Rep, Apart, Ks;
    }
  }

  /** The assignments of a rotation, in their order: `y` comes up over `x`. */
  function Assigned(c: Cells, s: Side, x: int, y: int, inner: Ptr, up: Ptr, side: Side): Cells
    requires x in c && y in c && x != y
    requires inner.At? ==> inner.key in c && inner.key != x && inner.key != y
    requires up.At? ==> up.key in c && up.key != x && up.key != y && inner != up
  {
    var c1 := c[x := SetKid(c[x], Other(s), inner)];
    var c2 := if inner.At? then c1[inner.key := c1[inner.key].(parent := At(x))] else c1;
    var c3 := c2[y := c2[y].(parent := up)];
    var c4 := if up.At? then c3[up.key := SetKid(c3[up.key], side, At(y))] else c3;
    var c5 := c4[y := SetKid(c4[y], s, At(x))];
    c5[x := c5[x].(parent := At(y))]
  }

  lemma AssignedAt(c: Cells, s: Side, x: int, y: int, inner: Ptr, up: Ptr, side: Side)
    requires x in c && y in c && x != y
    requires inner.At? ==> inner.key in c && inner.key != x && inner.key != y
    requires up.At? ==> up.key in c && up.key != x && up.key != y && inner != up
    ensures var c' := Assigned(c, s, x, y, inner, up, side);
            && c'.Keys == c.Keys
            && c'[x] == SetKid(c[x], Other(s), inner).(parent := At(y))
            && c'[y] == SetKid(c[y], s, At(x)).(parent := up)
            && (inner.At? ==> c'[inner.key] == c[inner.key].(parent := At(x)))
            && (up.At? ==> c'[up.key] == SetKid(c[up.key], side, At(y)))
            && forall k <- c :: k != x && k != y && At(k) != inner && At(k) != up ==> c'[k] == c[k]
  {
  }

  lemma AssignedCells(c: Cells, root: Ptr, s: Side, t: Tree, path: seq<Frame>)
    requires t.Node? && On(Other(s), t).Node? && Stands(c, root, t, path)
    ensures var y := On(Other(s), t);
            var inner, up := Top(On(s, y)), Above(path);
            && t.key in c && y.key in c && t.key != y.key
            && (inner.At? ==> inner.key in c && inner.key != t.key && inner.key != y.key)
            && (up.At? ==> up.key in c && up.key != t.key && up.key != y.key && inner != up)
            && RotatedCells(c, Assigned(c, s, t.key, y.key, inner, up, if path == [] then s else path[0].side),
                            s, t, path)
  {
    var y := On(Other(s), t);
    RotateNames(c, root, s, t, path);
    AssignedAt(c, s, t.key, y.key, Top(On(s, y)), Above(path), if path == [] then s else path[0].side);
    hide Assigned, Stands;
  }

  lemma RootMoves(child: Ptr, child': Ptr, path: seq<Frame>)
    ensures path != [] ==> RootOf(child, path) == RootOf(child', path)
  {
  }

  class Head {
    var cells: Cells
    var root: Ptr

    ghost var tree: Tree

    /** The cells make up a balanced search tree. */
    ghost predicate Valid() reads this { Stands(cells, root, tree, []) && Balanced(tree) && Sorted(Keys(tree)) }

    constructor ()
      ensures Valid() && Keys(tree) == []
    {
      cells, root := map[], Null;
      tree := Leaf;
      new;
      assert Rb(tree, 0);
    }

    // ----- RB_INSERT

    /** Goes down to the key, or to the null pointer where it belongs; `parent` is the last node passed. */
    method Descend(k: int) returns (tmp: Ptr, parent: Ptr, ghost t: Tree, ghost path: seq<Frame>, ghost h: int)
      requires Valid()
      ensures Going(cells, root, tree, k, t, path, h) && tmp == Top(t) && parent == Above(path)
      ensures t.Node? ==> t.key == k
    {
      tmp, parent := root, Null;
      t, path := tree, [];
      h :| Rb(tree, h);
      TopIsRoot(cells, root, t);
      assert Going(cells, root, tree, k, t, path, h);
      hide Going;
      while tmp != Null && tmp.key != k
        invariant Going(cells, root, tree, k, t, path, h) && tmp == Top(t) && parent == Above(path)
        decreases t
      {
        StepDown(cells, root, tree, k, t, path, h);
        ghost var s := if k < t.key then Left else Right;
        parent := tmp;
        tmp := if k < tmp.key then cells[tmp.key].left else cells[tmp.key].right;
        path := [Frame(s, t.color, t.key, On(Other(s), t))] + path;
        h := h - B(t.color);
        t := On(s, t);
      }
    }

    /** Adds the key unless it is there. */
    method Insert(k: int) returns (found: bool)
      requires Valid()
      modifies this
      ensures Valid()
      ensures found == (k in old(Keys(tree)))
      ensures found ==> cells == old(cells) && root == old(root) && tree == old(tree)
      ensures !found ==> Inserted(old(Keys(tree)), Keys(tree), k)
    {
      var tmp, parent;
      ghost var t, path, h;
      tmp, parent, t, path, h := Descend(k);
      PlugKeys(t, path);
      if tmp != Null { return true; }
      KeyIsNew(cells, root, k, path);
      ghost var c, r, e := cells, root, Node(Red, Leaf, k, Leaf);
      hide Stands, PathOk;
      cells := cells[k := Cell(Null, Null, parent, Red)];
      if parent != Null {
        if k < parent.key {
          cells := cells[parent.key := cells[parent.key].(left := At(k))];
        } else {
          cells := cells[parent.key := cells[parent.key].(right := At(k))];
        }
      } else {
        root := At(k);
      }
      LeafLinked(c, cells, r, k, path);
      PlugKeys(e, path);
      assert Keys(e) == [k];
      InsertMiddle(Before(path), k, After(path));
      tree := InsertColor(k, e, path, h);
      return false;
    }

    /** The pointer to `x` in its parent `up`, or the root, is made to point to `p`. */
    method Redirect(x: int, up: Ptr, p: Ptr, ghost side: Side)
      requires up.At? ==> up.key in cells && (cells[up.key].left == At(x) <==> side.Left?)
      modifies this
      ensures up.At? ==> up.key in old(cells) && root == old(root)
                         && cells == old(cells)[up.key := SetKid(old(cells)[up.key], side, p)]
      ensures up.Null? ==> root == p && cells == old(cells)
    {
      if up != Null {
        if cells[up.key].left == At(x) {
          cells := cells[up.key := cells[up.key].(left := p)];
        } else {
          cells := cells[up.key := cells[up.key].(right := p)];
        }
      } else {
        root := p;
      }
    }

    /** RB_ROTATE_LEFT for the left side, RB_ROTATE_RIGHT for the right. */
    method Rotate(x: int, s: Side, ghost t: Tree, ghost path: seq<Frame>)
      requires t.Node? && On(Other(s), t).Node? && x == t.key && Stands(cells, root, t, path)
      modifies this
      ensures Stands(cells, root, Rotated(s, t), path)
    {
      ghost var c, r := cells, root;
      RotateNames(c, root, s, t, path);
      hide Stands, RotatedCells, Top, Above, Join, Rotated;
      var o := Other(s);
      var tmp := Kid(cells[x], o).key;
      var inner := Kid(cells[tmp], s);
      cells := cells[x := SetKid(cells[x], o, inner)];
      if inner != Null { cells := cells[inner.key := cells[inner.key].(parent := At(x))]; }
      var up := cells[x].parent;
      cells := cells[tmp := cells[tmp].(parent := up)];
      ghost var side := if path == [] then s else path[0].side;
      Redirect(x, up, At(tmp), side);
      cells := cells[tmp := SetKid(cells[tmp], s, At(x))];
      cells := cells[x := cells[x].(parent := At(tmp))];
      assert cells == Assigned(c, s, x, tmp, inner, up, side);
      AssignedCells(c, r, s, t, path);
      RotateStands(c, cells, r, s, t, path);
    }

    method SetColor(x: int, color: Color, ghost t: Tree, ghost path: seq<Frame>)
      requires t.Node? && x == t.key && Stands(cells, root, t, path)
      modifies this
      ensures Stands(cells, root, t.(color := color), path)
    {
      ghost var c := cells;
      cells := cells[x := cells[x].(color := color)];
      ApartPathDisjoint(Ks(t), path);
      RepFrame(c, cells, t.left, At(x));
      RepFrame(c, cells, t.right, At(x));
      RepPathFrame(c, cells, At(x), path);
    }

    /** The same for a child of the node at hand. */
    method ColorKid(x: int, color: Color, ghost s: Side, ghost t: Tree, ghost path: seq<Frame>)
      requires t.Node? && On(s, t).Node? && x == On(s, t).key && Stands(cells, root, t, path)
      modifies this
      ensures Stands(cells, root, WithKid(s, t, On(s, t).(color := color)), path)
    {
      hide Stands;
      ghost var q := [Frame(s, t.color, t.key, On(Other(s), t))] + path;
      Enter(cells, root, t, path, s);
      SetColor(x, color, On(s, t), q);
      Climb(cells, root, On(s, t).(color := color), q);
      assert q[1..] == path;
    }

    method RotateKid(x: int, dir: Side, ghost s: Side, ghost t: Tree, ghost path: seq<Frame>)
      requires t.Node? && On(s, t).Node? && On(Other(dir), On(s, t)).Node? && x == On(s, t).key
      requires Stands(cells, root, t, path)
      modifies this
      ensures Stands(cells, root, WithKid(s, t, Rotated(dir, On(s, t))), path)
    {
      hide Stands;
      ghost var q := [Frame(s, t.color, t.key, On(Other(s), t))] + path;
      Enter(cells, root, t, path, s);
      Rotate(x, dir, On(s, t), q);
      Climb(cells, root, Rotated(dir, On(s, t)), q);
      assert q[1..] == path;
    }

    // ----- RB_INSERT_COLOR

    /** The uncle is red. */
    method RecolorUp(tmp: int, parent: int, gparent: int, ghost e: Tree, ghost p: Frame, ghost g: Frame,
                     ghost rest: seq<Frame>)
      requires Stands(cells, root, Up(Up(e, p), g), rest) && g.sib.Node?
      requires tmp == g.sib.key && parent == p.key && gparent == g.key
      modifies this
      ensures Stands(cells, root, Recolor(e, p, g), rest)
    {
      hide Stands;
      ghost var s := g.side;
      ghost var t0 := Up(Up(e, p), g);
      ColorKid(tmp, Black, Other(s), t0, rest);
      ghost var t1 := WithKid(Other(s), t0, Paint(Black, g.sib));
      ColorKid(parent, Black, s, t1, rest);
      ghost var t2 := WithKid(s, t1, Up(e, p).(color := Black));
      SetColor(gparent, Red, t2, rest);
      assert t2.(color := Red) == Recolor(e, p, g);
    }

    /** The red node at hand may have a red parent: the colours are repaired upwards. */
    method InsertColor(elm0: int, ghost e0: Tree, ghost path0: seq<Frame>, ghost h0: int) returns (ghost tree: Tree)
      requires e0.Node? && elm0 == e0.key && Stands(cells, root, e0, path0)
      requires e0.color.Red? && Rb(e0, h0) && PathOk(path0, h0)
      modifies this
      ensures Stands(cells, root, tree, []) && Balanced(tree) && Keys(tree) == Keys(Plug(e0, path0))
    {
      var elm := elm0;
      ghost var e, path, h := e0, path0, h0;
      Around(cells, root, e, path);
      var parent := cells[elm].parent;
      hide Stands, Keys;
      while parent != Null && cells[parent.key].color.Red?
        invariant Stands(cells, root, e, path) && e.Node? && elm == e.key && parent == Above(path)
        invariant path != [] ==> path[0].key in cells && cells[path[0].key].color == path[0].color
        invariant Rb(e, h) && PathOk(path, h) && e.color.Red?
        invariant Keys(Plug(e, path)) == Keys(Plug(e0, path0))
        decreases |path|
      {
        hide Rb, PathOk, Plug;
        var done;
        elm, done, e, path, h := InsertTurn(elm, parent.key, e, path, h);
        if done {
          tree := BlackRoot(e, path, h);
          return;
        }
        Around(cells, root, e, path);
        parent := cells[elm].parent;
      }
      tree := BlackRoot(e, path, h);
    }

    /** One turn of the repair, with a red parent. */
    method InsertTurn(elm: int, parent: int, ghost e: Tree, ghost path: seq<Frame>, ghost h: int)
      returns (elm': int, done: bool, ghost e': Tree, ghost path': seq<Frame>, ghost h': int)
      requires e.Node? && elm == e.key && Stands(cells, root, e, path)
      requires path != [] && path[0].color.Red? && parent == path[0].key
      requires e.color.Red? && Rb(e, h) && PathOk(path, h)
      modifies this
      ensures |path'| < |path| && e'.Node? && Stands(cells, root, e', path') && Rb(e', h') && PathOk(path', h')
      ensures Keys(Plug(e', path')) == Keys(Plug(e, path))
      ensures if done then IsBlack(e') else elm' == e'.key && e'.color.Red?
    {
      InsertFacts(e, path, h);
      ghost var p, g, rest := path[0], path[1], path[2..];
      Grand(cells, root, e, path);
      hide Stands, Keys, Rb, PathOk, Plug, Recolor, RbTree.Rotate, Up;
      var gparent := cells[parent].parent.key;
      var s := if cells[gparent].left == At(parent) then Left else Right;
      var tmp := Kid(cells[gparent], Other(s));
      if tmp != Null && cells[tmp.key].color.Red? {
        RecolorUp(tmp.key, parent, gparent, e, p, g, rest);
        elm', done := gparent, false;
        e', path', h' := Recolor(e, p, g), rest, h + 1;
      } else {
        RotateUp(elm, parent, gparent, s, e, p, g, rest);
        elm', done := elm, true;
        e', path', h' := RbTree.Rotate(e, p, g), rest, h + 1;
      }
    }

    /** The root turns black. */
    method BlackRoot(ghost e: Tree, ghost path: seq<Frame>, ghost h: int) returns (ghost tree: Tree)
      requires e.Node? && Stands(cells, root, e, path) && Rb(e, h) && PathOk(path, h)
      requires path == [] || path[0].color.Black? || IsBlack(e)
      modifies this
      ensures Stands(cells, root, tree, []) && Balanced(tree) && Keys(tree) == Keys(Plug(e, path))
    {
      tree := Plug(e, path);
      PlugRb(e, path, h);
      assert path + [] == path;
      ClimbAll(cells, root, e, path, []);
      PlugNode(e, path);
      assert root == At(tree.key);
      SetColor(root.key, Black, tree, []);
      RootBlack(tree);
      tree := Paint(Black, tree);
    }

    // ----- RB_REMOVE

    /** A node with at most one child goes, and the child takes its place. */
    method SpliceOut(x: int, child: Ptr, ghost e: Tree, ghost path: seq<Frame>)
      requires e.Node? && x == e.key && Stands(cells, root, e, path)
      requires (e.left.Leaf? || e.right.Leaf?) && child == Top(OnlyChild(e))
      modifies this
      ensures Stands(cells, root, OnlyChild(e), path) && x !in cells
    {
      ghost var c, r := cells, root;
      SpliceNames(c, r, e, path);
      hide Stands;
      var parent := cells[x].parent;
      if child != Null { cells := cells[child.key := cells[child.key].(parent := parent)]; }
      Redirect(x, parent, child, if path == [] then Left else path[0].side);
      cells := cells - {x};
      SpliceStands(c, cells, r, e, path);
    }

    /** A node takes over the pointers of another, and those to it. */
    method Replace(x: int, y: int, ghost t: Tree, ghost path: seq<Frame>)
      requires t.Node? && t.left.Node? && x == t.key && y !in cells && Stands(cells, root, t, path)
      modifies this
      ensures Stands(cells, root, t.(key := y), path)
    {
      ghost var c, r := cells, root;
      ReplaceNames(c, r, t, path);
      hide Stands;
      cells := cells[y := cells[x]];
      var up, left, right := cells[x].parent, cells[x].left, cells[x].right;
      Redirect(x, up, At(y), if path == [] then Left else path[0].side);
      cells := cells[left.key := cells[left.key].(parent := At(y))];
      if right != Null { cells := cells[right.key := cells[right.key].(parent := At(y))]; }
      cells := cells - {x};
      ReplaceStands(c, cells, r, y, t, path);
    }

    /** Takes out a key that is in the tree. */
    method Remove(k: int)
      requires Valid() && k in Keys(tree)
      modifies this
      ensures Valid() && Removed(old(Keys(tree)), Keys(tree), k)
    {
      ghost var t, path, h := Located(cells, root, tree, k);
      hide Sorted, Removed, Keys, Before, After, Stands, Plug, PathOk, Rb, Balanced;
      if cells[k].left == Null || cells[k].right == Null {
        var child := if cells[k].left == Null then cells[k].right else cells[k].left;
        var parent, color := cells[k].parent, cells[k].color;
        SpliceKeys(t, path, t, path);
        SpliceOut(k, child, t, path);
        tree := Recolour(color, parent, child, t, path, h);
      } else {
        var parent, child, color;
        ghost var e, q, he;
        parent, child, color, e, q, he := TakeSuccessor(k, t, path, h);
        SpliceKeys(t, path, e, q);
        tree := Recolour(color, parent, child, e, q, he);
      }
    }

    /** With the child in its node's place, only the colours are left to put right. */
    method Recolour(color: Color, parent: Ptr, child: Ptr, ghost e: Tree, ghost q: seq<Frame>, ghost h: int)
      returns (ghost tree': Tree)
      requires e.Node? && (e.left.Leaf? || e.right.Leaf?) && color == e.color && Rb(e, h) && PathOk(q, h)
      requires e.color.Red? ==> q != [] && q[0].color.Black?
      requires Stands(cells, root, OnlyChild(e), q) && child == Top(OnlyChild(e)) && parent == Above(q)
      modifies this
      ensures Stands(cells, root, tree', []) && Balanced(tree') && Keys(tree') == Keys(Plug(OnlyChild(e), q))
    {
      hide Stands, Keys;
      if color.Black? {
        tree' := RemoveColor(parent, child, OnlyChild(e), q, h - 1);
      } else {
        PlugRb(OnlyChild(e), q, h);
        tree' := Plug(OnlyChild(e), q);
        RootBlack(tree');
        assert q + [] == q;
        ClimbAll(cells, root, OnlyChild(e), q, []);
      }
    }

    /** The leftmost node of the right subtree is spliced out and put in the place of `k`. */
    method TakeSuccessor(k: int, ghost t: Tree, ghost path: seq<Frame>, ghost h: int)
      returns (parent: Ptr, child: Ptr, color: Color, ghost e: Tree, ghost q: seq<Frame>, ghost he: int)
      requires t.Node? && t.left.Node? && t.right.Node? && t.key == k && Stands(cells, root, t, path)
      requires Rb(t, h) && PathOk(path, h) && (t.color.Red? ==> path != [] && path[0].color.Black?)
      modifies this
      ensures e.Node? && e.left.Leaf? && Rb(e, he) && PathOk(q, he) && color == e.color
      ensures e.color.Red? ==> q != [] && q[0].color.Black?
      ensures Before(q) == Before(path) + (Keys(t.left) + [e.key])
      ensures [e.key] + Keys(e.right) + After(q) == Keys(t.right) + After(path)
      ensures Stands(cells, root, OnlyChild(e), q) && child == Top(OnlyChild(e)) && parent == Above(q)
    {
      var elm;
      ghost var lower;
      elm, e, lower, he := FindSuccessor(k, t, path, h);
      ghost var top := Frame(Right, t.color, t.key, t.left);
      q := lower + [top.(key := elm)] + path;
      SuccessorFacts(cells, root, t, path, e, lower, top, he);
      hide Stands, Keys, Rb, PathOk, Before, After, Plug, Leftwards;
      child, parent, color := cells[elm].right, cells[elm].parent, cells[elm].color;
      SpliceOut(elm, child, e, lower + [top] + path);
      if parent == At(k) { parent := At(elm); }
      MoveUp(k, elm, OnlyChild(e), lower, top, path);
    }

    /** Renames the node we went right at. */
    method MoveUp(k: int, elm: int, ghost kid: Tree, ghost lower: seq<Frame>, ghost top: Frame, ghost path: seq<Frame>)
      requires top.key == k && top.side.Right? && top.sib.Node? && elm !in cells
      requires Stands(cells, root, kid, lower + [top] + path)
      modifies this
      ensures Stands(cells, root, kid, lower + [top.(key := elm)] + path)
    {
      ghost var a, b := lower + [top], lower + [top.(key := elm)];
      ghost var t := Plug(kid, a);
      PlugTop(kid, lower, top, elm);
      ClimbAll(cells, root, kid, a, path);
      hide Stands;
      assert lower + [top] + path == a + path;
      Replace(k, elm, t, path);
      ClimbAll(cells, root, kid, b, path);
      assert lower + [top.(key := elm)] + path == b + path;
    }

    method FindSuccessor(k: int, ghost t: Tree, ghost path: seq<Frame>, ghost h: int)
      returns (elm: int, ghost e: Tree, ghost lower: seq<Frame>, ghost he: int)
      requires t.Node? && t.right.Node? && t.key == k && Stands(cells, root, t, path)
      requires Rb(t, h) && PathOk(path, h) && (t.color.Red? ==> path != [] && path[0].color.Black?)
      ensures var q := lower + [Frame(Right, t.color, t.key, t.left)] + path;
              Leftwards(cells, root, t, path, e, lower, q, he) && e.left.Leaf? && elm == e.key
    {
      hide Stands, Keys, Rb, PathOk, After, Leftwards;
      ghost var top := Frame(Right, t.color, t.key, t.left);
      Around(cells, root, t, path);
      elm := cells[k].right.key;
      lower, e, he := [], t.right, h - B(t.color);
      ghost var q := [top] + path;
      StartRight(cells, root, t, path, h);
      assert [] + [top] + path == q;
      var left := LeftOf(elm, t, path, e, lower, q, he);
      while left != Null
        invariant Leftwards(cells, root, t, path, e, lower, q, he) && e.Node? && elm == e.key && left == Top(e.left)
        invariant q == lower + [top] + path
        decreases e
      {
        StepLeft(cells, root, t, path, e, lower, q, he);
        elm := left.key;
        ghost var f := Frame(Left, e.color, e.key, e.right);
        assert [f] + q == ([f] + lower) + [top] + path;
        lower, q := [f] + lower, [f] + q;
        e, he := e.left, he - B(e.color);
        left := LeftOf(elm, t, path, e, lower, q, he);
      }
    }

    method LeftOf(elm: int, ghost t: Tree, ghost path: seq<Frame>, ghost e: Tree, ghost lower: seq<Frame>,
                  ghost q: seq<Frame>, ghost he: int)
      returns (left: Ptr)
      requires Leftwards(cells, root, t, path, e, lower, q, he) && e.Node? && elm == e.key
      ensures left == Top(e.left)
    {
      Around(cells, root, e, q);
      left := cells[elm].left;
    }

    // ----- RB_REMOVE_COLOR

    /** The sibling is red: it goes above the parent. */
    method LowerUp(parent: int, tmp: int, s: Side, ghost e: Tree, ghost f: Frame, ghost rest: seq<Frame>)
      requires f.sib.Node? && Stands(cells, root, Up(e, f), rest)
      requires parent == f.key && tmp == f.sib.key && s == f.side
      modifies this
      ensures Stands(cells, root, e, LowerParent(f) + rest)
    {
      hide Stands;
      ghost var t := Up(e, f);
      ColorKid(tmp, Black, Other(s), t, rest);
      t := WithKid(Other(s), t, f.sib.(color := Black));
      SetColor(parent, Red, t, rest);
      t := t.(color := Red);
      Rotate(parent, s, t, rest);
      t := Rotated(s, t);
      ghost var path := LowerParent(f) + rest;
      Climb(cells, root, e, path);
      Climb(cells, root, Up(e, path[0]), path[1..]);
      assert path[1..][1..] == rest && Up(Up(e, path[0]), path[1]) == t;
    }

    /** The near nephew is red and the far one black: the near one goes above the sibling. */
    method TurnFar(parent: int, tmp: int, near: int, s: Side, ghost e: Tree, ghost f: Frame, ghost rest: seq<Frame>)
      requires f.sib.Node? && On(f.side, f.sib).Node? && IsBlack(On(Other(f.side), f.sib))
      requires Stands(cells, root, Up(e, f), rest)
      requires parent == f.key && tmp == f.sib.key && near == On(f.side, f.sib).key && s == f.side
      modifies this
      ensures Stands(cells, root, Join(s, f.color, e, f.key, FarRed(f)), rest)
    {
      hide Stands;
      ghost var q := [Frame(Other(s), f.color, f.key, e)] + rest;
      Enter(cells, root, Up(e, f), rest, Other(s));
      ghost var t := f.sib;
      ColorKid(near, Black, s, t, q);
      t := WithKid(s, t, On(s, t).(color := Black));
      SetColor(tmp, Red, t, q);
      t := t.(color := Red);
      Rotate(tmp, Other(s), t, q);
      t := Rotated(Other(s), t);
      assert t == FarRed(f);
      Climb(cells, root, t, q);
      assert q[1..] == rest;
    }

    /** The far nephew turns black and the parent comes down. */
    method BorrowAbove(parent: int, tmp: int, s: Side, ghost e: Tree, ghost f: Frame, ghost rest: seq<Frame>)
      requires f.sib.Node? && FarRed(f).Node? && Stands(cells, root, Join(s, f.color, e, f.key, FarRed(f)), rest)
      requires parent == f.key && tmp == FarRed(f).key && s == f.side
      modifies this
      ensures Stands(cells, root, Borrow(e, f), rest)
    {
      ghost var u := FarRed(f);
      ghost var t := Join(s, f.color, e, f.key, u);
      SiblingOf(cells, root, s, f.color, e, f.key, u, rest);
      hide Stands, FarRed;
      var color := cells[parent].color;
      ColorKid(tmp, color, Other(s), t, rest);
      t := WithKid(Other(s), t, u.(color := color));
      SetColor(parent, Black, t, rest);
      t := t.(color := Black);
      SiblingOf(cells, root, s, Black, e, f.key, u.(color := color), rest);
      var far := Kid(cells[tmp], Other(s));
      if far != Null {
        ghost var q := [Frame(Other(s), Black, f.key, e)] + rest;
        Enter(cells, root, t, rest, Other(s));
        ghost var v := u.(color := color);
        ColorKid(far.key, Black, Other(s), v, q);
        v := WithKid(Other(s), v, On(Other(s), v).(color := Black));
        Climb(cells, root, v, q);
        assert q[1..] == rest;
        t := Join(s, Black, e, f.key, v);
      }
      Rotate(parent, s, t, rest);
      assert Rotated(s, t) == Borrow(e, f);
    }

    /** The sibling to look at, after a red one has been rotated away. */
    method BlackSibling(elm: Ptr, parent: int, ghost e: Tree, ghost path: seq<Frame>, ghost h: int)
      returns (s: Side, tmp: int, ghost path': seq<Frame>)
      requires path != [] && Stands(cells, root, e, path) && elm == Top(e) && parent == path[0].key
      requires Rb(e, h) && PathOk(path, h + 1)
      modifies this
      ensures path' != [] && Stands(cells, root, e, path') && s == path'[0].side && parent == path'[0].key
      ensures path'[0].sib.Node? && IsBlack(path'[0].sib) && tmp == path'[0].sib.key
      ensures PathOk(path', h + 1) && Keys(Plug(e, path')) == Keys(Plug(e, path))
      ensures path' == path || (path'[0].color.Red? && |path'| == |path| + 1)
    {
      ghost var f, rest := path[0], path[1..];
      RbHeight(e, h);
      RbHeight(f.sib, h + 1);
      Nephews(cells, root, e, path);
      Climb(cells, root, e, path);
      if !IsBlack(f.sib) { LowerParentOk(e, path, h + 1); }
      hide Stands, PathOk, Keys, Plug, Rb;
      path' := path;
      s := if cells[parent].left == elm then Left else Right;
      tmp := Kid(cells[parent], Other(s)).key;
      if cells[tmp].color.Red? {
        LowerUp(parent, tmp, s, e, f, rest);
        path' := LowerParent(f) + rest;
        LoweredSibling(path', path, h);
        Nephews(cells, root, e, path');
        tmp := Kid(cells[parent], Other(s)).key;
      }
    }

    /** Both nephews are black: the shortage moves up to the parent. */
    method DeepenUp(parent: int, tmp: int, ghost e: Tree, ghost f: Frame, ghost rest: seq<Frame>) returns (parent': Ptr)
      requires f.sib.Node? && Stands(cells, root, Up(e, f), rest) && parent == f.key && tmp == f.sib.key
      modifies this
      ensures Stands(cells, root, Deepen(e, f), rest) && parent' == Above(rest)
    {
      hide Stands;
      ColorKid(tmp, Red, Other(f.side), Up(e, f), rest);
      DeepenIs(e, f);
      Around(cells, root, Deepen(e, f), rest);
      parent' := cells[parent].parent;
    }

    /** A nephew is red: the shortage is made up. */
    method BorrowFrom(parent: int, tmp0: int, s: Side, ghost e: Tree, ghost f: Frame, ghost rest: seq<Frame>)
      requires f.sib.Node? && Stands(cells, root, Up(e, f), rest) && parent == f.key && tmp0 == f.sib.key && s == f.side
      requires !(IsBlack(f.sib.left) && IsBlack(f.sib.right)) && FarRed(f).Node?
      modifies this
      ensures Stands(cells, root, Borrow(e, f), rest)
    {
      var tmp := tmp0;
      NephewsOf(cells, root, e, f, rest);
      hide Stands, FarRed, Borrow;
      var near, far := Kid(cells[tmp], s), Kid(cells[tmp], Other(s));
      if far == Null || cells[far.key].color.Black? {
        TurnFar(parent, tmp, near.key, s, e, f, rest);
        SiblingOf(cells, root, s, f.color, e, f.key, FarRed(f), rest);
        tmp := Kid(cells[parent], Other(s)).key;
      } else {
        FarIsRed(f);
      }
      BorrowAbove(parent, tmp, s, e, f, rest);
    }

    /** One turn of the repair. */
    method RemoveTurn(elm: Ptr, parent: int, ghost e: Tree, ghost path: seq<Frame>, ghost h: int)
      returns (elm': Ptr, parent': Ptr, done: bool, ghost e': Tree, ghost path': seq<Frame>, ghost h': int)
      requires path != [] && Stands(cells, root, e, path) && elm == Top(e) && parent == path[0].key
      requires IsBlack(e) && Rb(e, h) && PathOk(path, h + 1)
      modifies this
      ensures Stands(cells, root, e', path') && e'.Node? && Keys(Plug(e', path')) == Keys(Plug(e, path))
      ensures done ==> Rb(e', h') && PathOk(path', h') && (path' == [] || path'[0].color.Black? || IsBlack(e'))
      ensures !done ==> elm' == Top(e') && parent' == Above(path') && PathOk(path', h' + 1)
      ensures !done ==> if IsBlack(e') then Rb(e', h') && |path'| < |path| else Rb(Paint(Black, e'), h' + 1)
    {
      hide Stands, Keys, Rb, PathOk, Plug, Deepen, Borrow, FarRed;
      var s, tmp;
      ghost var low;
      s, tmp, low := BlackSibling(elm, parent, e, path, h);
      ghost var f, rest := low[0], low[1..];
      RemoveFacts(e, low, h);
      Climb(cells, root, e, low);
      NephewsOf(cells, root, e, f, rest);
      var near, far := Kid(cells[tmp], s), Kid(cells[tmp], Other(s));
      if (near == Null || cells[near.key].color.Black?) && (far == Null || cells[far.key].color.Black?) {
        DeepenIs(e, f);
        parent' := DeepenUp(parent, tmp, e, f, rest);
        e', path', h' := Deepen(e, f), rest, h + B(f.color);
        elm', done := At(parent), false;
      } else {
        BorrowFrom(parent, tmp, s, e, f, rest);
        e', path', h' := Borrow(e, f), rest, h + 1 + B(f.color);
        elm', parent', done := root, Null, true;
      }
    }

    /** The node the repair ends at turns black. */
    method BlackElm(elm: Ptr, ghost e: Tree, ghost path: seq<Frame>, ghost h: int) returns (ghost tree': Tree)
      requires Stands(cells, root, e, path) && elm == Top(e) && PathOk(path, h + 1)
      requires if IsBlack(e) then Rb(e, h) && path == [] else Rb(Paint(Black, e), h + 1)
      modifies this
      ensures Stands(cells, root, tree', []) && Balanced(tree') && Keys(tree') == Keys(Plug(e, path))
    {
      PaintKeys(e, path);
      if !IsBlack(e) { PlugRb(Paint(Black, e), path, h + 1); }
      tree' := Plug(Paint(Black, e), path);
      assert exists h' :: Rb(tree', h');
      assert IsBlack(tree') by { RootBlack(tree'); }
      hide Stands, Keys, Rb, PathOk;
      if elm != Null { SetColor(elm.key, Black, e, path); }
      assert path + [] == path;
      ClimbAll(cells, root, Paint(Black, e), path, []);
    }

    /** The place is one black node short: the colours are repaired upwards. */
    method RemoveColor(parent0: Ptr, elm0: Ptr, ghost e0: Tree, ghost path0: seq<Frame>, ghost h0: int)
      returns (ghost tree': Tree)
      requires Stands(cells, root, e0, path0) && elm0 == Top(e0) && parent0 == Above(path0)
      requires Rb(e0, h0) && PathOk(path0, h0 + 1)
      modifies this
      ensures Stands(cells, root, tree', []) && Balanced(tree') && Keys(tree') == Keys(Plug(e0, path0))
    {
      var elm, parent := elm0, parent0;
      ghost var e, path, h := e0, path0, h0;
      assert !IsBlack(e) ==> Rb(Paint(Black, e), h + 1);
      Around(cells, root, e, path);
      AtRoot(cells, root, e, path);
      hide Stands, Keys, Rb, PathOk, Plug;
      while (elm == Null || cells[elm.key].color.Black?) && elm != root
        invariant Stands(cells, root, e, path) && elm == Top(e) && parent == Above(path)
                  && (elm == root <==> path == [])
        invariant e.Node? ==> e.key in cells && cells[e.key].color == e.color
        invariant PathOk(path, h + 1) && (if IsBlack(e) then Rb(e, h) else Rb(Paint(Black, e), h + 1))
        invariant Keys(Plug(e, path)) == Keys(Plug(e0, path0))
        decreases if IsBlack(e) then |path| + 1 else 0
      {
        var done;
        elm, parent, done, e, path, h := RemoveTurn(elm, parent.key, e, path, h);
        if done {
          tree' := BlackRoot(e, path, h);
          return;
        }
        Around(cells, root, e, path);
        AtRoot(cells, root, e, path);
      }
      tree' := BlackElm(elm, e, path, h);
    }

    /** The uncle is black. */
    method RotateUp(elm: int, parent0: int, gparent: int, s: Side, ghost e: Tree, ghost p: Frame, ghost g: Frame,
                    ghost rest: seq<Frame>)
      requires e.Node? && Stands(cells, root, Up(Up(e, p), g), rest) && e.color.Red? && p.color.Red?
      requires elm == e.key && parent0 == p.key && gparent == g.key && s == g.side
      modifies this
      ensures Stands(cells, root, RbTree.Rotate(e, p, g), rest)
    {
      var parent := parent0;
      ghost var t := Up(Up(e, p), g);
      InnerKid(cells, root, e, p, g, rest);
      hide Stands;
      if Kid(cells[parent], Other(s)) == At(elm) {
        RotateKid(parent, s, s, t, rest);
        t := WithKid(s, t, Rotated(s, On(s, t)));
        parent := elm;
      }
      ColorKid(parent, Black, s, t, rest);
      t := WithKid(s, t, On(s, t).(color := Black));
      SetColor(gparent, Red, t, rest);
      t := t.(color := Red);
      Rotate(gparent, Other(s), t, rest);
      assert Rotated(Other(s), t) == RbTree.Rotate(e, p, g);
    }
  }

  /** Two frames up: the pointers, and the cells seen from there. */
  lemma Grand(c: Cells, root: Ptr, e: Tree, path: seq<Frame>)
    requires e.Node? && |path| >= 2 && Stands(c, root, e, path)
    ensures var p, g := path[0], path[1];
            && Stands(c, root, Up(Up(e, p), g), path[2..])
            && p.key in c && c[p.key].parent == At(g.key) && g.key in c
            && (c[g.key].left == At(p.key) <==> g.side.Left?) && Kid(c[g.key], Other(g.side)) == Top(g.sib)
            && (g.sib.Node? ==> g.sib.key in c && c[g.sib.key].color == g.sib.color)
  {
    Around(c, root, e, path);
    Climb(c, root, e, path);
    Around(c, root, Up(e, path[0]), path[1..]);
    Climb(c, root, Up(e, path[0]), path[1..]);
    assert path[1..][1..] == path[2..];
    hide Stands;
  }

  /** The case of a red parent on the tree itself. */
  lemma InsertFacts(e: Tree, path: seq<Frame>, h: int)
    requires e.Node? && e.color.Red? && Rb(e, h) && PathOk(path, h) && path != [] && path[0].color.Red?
    ensures |path| >= 2
    ensures var p, g, rest := path[0], path[1], path[2..];
            && PathOk(rest, h + 1)
            && Recolor(e, p, g).Node? && Recolor(e, p, g).key == g.key && Recolor(e, p, g).color.Red?
            && (!IsBlack(g.sib) ==>
                Rb(Recolor(e, p, g), h + 1) && Keys(Plug(Recolor(e, p, g), rest)) == Keys(Plug(e, path)))
            && (IsBlack(g.sib) ==>
                  && Rb(RbTree.Rotate(e, p, g), h + 1) && IsBlack(RbTree.Rotate(e, p, g))
                    && RbTree.Rotate(e, p, g).Node?
                  && Keys(Plug(RbTree.Rotate(e, p, g), rest)) == Keys(Plug(e, path)))
  {
    var p, g, rest := path[0], path[1], path[2..];
    assert path[1..][1..] == rest;
    assert Plug(e, path) == Plug(Up(Up(e, p), g), rest);
    assert PathOk(path[1..], h) && PathOk(path[1..][1..], h + 1);
    hide Keys, Plug;
    if IsBlack(g.sib) {
      RotateOk(e, p, g, h);
      RotateKeys(e, p, g);
      SameKeysBelow(RbTree.Rotate(e, p, g), Up(Up(e, p), g), rest);
    } else {
      RecolorOk(e, p, g, h);
      SameKeysBelow(Recolor(e, p, g), Up(Up(e, p), g), rest);
    }
  }

  lemma {:induction false} PlugNode(t: Tree, path: seq<Frame>)
    requires t.Node?
    ensures Plug(t, path).Node?
    decreases |path|
  {
    if path != [] { PlugNode(Up(t, path[0]), path[1..]); }
  }

  lemma TopIsRoot(c: Cells, root: Ptr, t: Tree)
    requires Stands(c, root, t, [])
    ensures root == Top(t)
  {
  }

  function OnlyChild(e: Tree): Tree
    requires e.Node?
  {
    if e.left.Leaf? then e.right else e.left
  }

  /** The nodes a splice touches. */
  lemma SpliceNames(c: Cells, root: Ptr, e: Tree, path: seq<Frame>)
    requires e.Node? && (e.left.Leaf? || e.right.Leaf?) && Stands(c, root, e, path)
    ensures var kid := OnlyChild(e);
            && e.key in c && c[e.key].parent == Above(path)
            && (kid.Node? ==> kid.key in c && kid.key != e.key)
            && (path != [] ==>
                  && path[0].key in c && path[0].key != e.key && (kid.Node? ==> path[0].key != kid.key)
                  && (c[path[0].key].left == At(e.key) <==> path[0].side.Left?))
  {
    Unfold(c, e, Above(path), Left);
    Around(c, root, e, path);
    ApartPathDisjoint(Ks(e), path);
    if path != [] { assert path[0].key in PathKs(path); }
    hide Rep, Apart, Ks;
  }

  lemma SpliceStands(c: Cells, c': Cells, root: Ptr, e: Tree, path: seq<Frame>)
    requires e.Node? && (e.left.Leaf? || e.right.Leaf?) && Stands(c, root, e, path)
    requires var kid := OnlyChild(e);
             && c'.Keys == c.Keys - {e.key}
             && (kid.Node? ==> kid.key in c' && kid.key in c && c'[kid.key] == c[kid.key].(parent := Above(path)))
             && (path != [] ==> path[0].key in c && path[0].key in c'
                                && c'[path[0].key] == SetKid(c[path[0].key], path[0].side, Top(kid)))
             && forall k <- c' :: At(k) != Top(kid) && At(k) != Above(path) ==> k in c && c'[k] == c[k]
    ensures Stands(c', if path == [] then Top(OnlyChild(e)) else root, OnlyChild(e), path)
  {
    var kid := OnlyChild(e);
    Unfold(c, e, Above(path), if e.left.Leaf? then Left else Right);
    assert Ks(e) == {e.key} + Ks(kid) && Apart(kid) && Rep(c, kid, At(e.key)) && e.key !in Ks(kid);
    ApartPathDisjoint(Ks(e), path);
    ApartPathShrinks(Ks(e), Ks(kid), path);
    hide Rep, Apart, Ks;
    assert path != [] ==> path[0].key in PathKs(path);
    RepMoved(c, c', kid, At(e.key), Above(path));
    RepPathMoved(c, c', At(e.key), Top(kid), path, Ks(e));
    RootMoves(At(e.key), Top(kid), path);
  }

  lemma {:induction false} ApartPathShrinks(ks: set<int>, ks': set<int>, path: seq<Frame>)
    requires ApartPath(ks, path) && ks' <= ks
    ensures ApartPath(ks', path)
    decreases |path|
  {
    if path != [] {
      var f := path[0];
      ApartPathShrinks(ks + {f.key} + Ks(f.sib), ks' + {f.key} + Ks(f.sib), path[1..]);
    }
  }

  lemma ReplaceNames(c: Cells, root: Ptr, t: Tree, path: seq<Frame>)
    requires t.Node? && t.left.Node? && Stands(c, root, t, path)
    ensures && t.key in c && c[t.key] == Cell(At(t.left.key), Top(t.right), Above(path), t.color)
            && t.left.key in c && t.left.key != t.key
            && (t.right.Node? ==> t.right.key in c && t.right.key != t.key && t.right.key != t.left.key)
            && (path != [] ==>
                  && path[0].key in c && path[0].key != t.key && path[0].key != t.left.key
                  && (t.right.Node? ==> path[0].key != t.right.key)
                  && (c[path[0].key].left == At(t.key) <==> path[0].side.Left?))
  {
    Unfold(c, t, Above(path), Left);
    Around(c, root, t, path);
    ApartPathDisjoint(Ks(t), path);
    if path != [] { assert path[0].key in PathKs(path); }
    hide Rep, Apart, Ks;
  }

  lemma ReplaceStands(c: Cells, c': Cells, root: Ptr, y: int, t: Tree, path: seq<Frame>)
    requires t.Node? && t.left.Node? && Stands(c, root, t, path) && y !in c
    requires && c'.Keys == c.Keys - {t.key} + {y} && t.key in c
             && c'[y] == c[t.key]
             && t.left.key in c && t.left.key in c' && c'[t.left.key] == c[t.left.key].(parent := At(y))
             && (t.right.Node? ==>
                 t.right.key in c && t.right.key in c' && c'[t.right.key] == c[t.right.key].(parent := At(y)))
             && (path != [] ==> path[0].key in c && path[0].key in c'
                                && c'[path[0].key] == SetKid(c[path[0].key], path[0].side, At(y)))
             && forall k <- c' :: k != y && At(k) != Top(t.left) && At(k) != Top(t.right) && At(k) != Above(path) ==>
                  k in c && c'[k] == c[k]
    ensures Stands(c', if path == [] then At(y) else root, t.(key := y), path)
  {
    Unfold(c, t, Above(path), Left);
    ApartPathDisjoint(Ks(t), path);
    ApartPathShrinks(Ks(t), Ks(t) - {t.key}, path);
    ApartPathGrows(Ks(t) - {t.key}, y, path);
    hide Rep, Apart, Ks;
    assert path != [] ==> path[0].key in PathKs(path);
    RepMoved(c, c', t.left, At(t.key), At(y));
    RepMoved(c, c', t.right, At(t.key), At(y));
    RepPathMoved(c, c', At(t.key), At(y), path, Ks(t));
    RootMoves(At(t.key), At(y), path);
    Fold(c', Left, t.color, t.left, y, t.right, Above(path));
    assert Ks(t.(key := y)) == Ks(t) - {t.key} + {y};
  }

  /** On the way to the leftmost node of the right subtree of `t`. */
  ghost predicate Leftwards(c: Cells, root: Ptr, t: Tree, path: seq<Frame>, e: Tree, lower: seq<Frame>,
                            q: seq<Frame>, he: int) {
    && Stands(c, root, e, q) && e.Node? && q != [] && Rb(e, he) && PathOk(q, he) && (e.color.Red? ==> q[0].color.Black?)
    && (forall i :: 0 <= i < |lower| ==> lower[i].side.Left?)
    && t.Node? && Keys(e) + After(q) == Keys(t.right) + After(path)
  }

  lemma StartRight(c: Cells, root: Ptr, t: Tree, path: seq<Frame>, h: int)
    requires t.Node? && t.right.Node? && Stands(c, root, t, path) && Rb(t, h) && PathOk(path, h)
    requires t.color.Red? ==> path != [] && path[0].color.Black?
    ensures Leftwards(c, root, t, path, t.right, [], [Frame(Right, t.color, t.key, t.left)] + path, h - B(t.color))
  {
    OneDown(t, path, Right, h);
    TopFrame(Frame(Right, t.color, t.key, t.left), path, t.key);
    Enter(c, root, t, path, Right);
    hide Stands, Keys, Rb, PathOk, After;
  }

  lemma StepLeft(c: Cells, root: Ptr, t: Tree, path: seq<Frame>, e: Tree, lower: seq<Frame>, q: seq<Frame>, he: int)
    requires Leftwards(c, root, t, path, e, lower, q, he) && e.left.Node?
    ensures var f := Frame(Left, e.color, e.key, e.right);
            Leftwards(c, root, t, path, e.left, [f] + lower, [f] + q, he - B(e.color))
  {
    OneDown(e, q, Left, he);
    LeftKeys(e, q);
    Enter(c, root, e, q, Left);
    hide Stands, Keys, Rb, PathOk, After;
  }

  lemma {:induction false} PlugTop(kid: Tree, lower: seq<Frame>, top: Frame, k: int)
    requires top.side.Right?
    ensures var t, u := Plug(kid, lower + [top]), Plug(kid, lower + [top.(key := k)]);
            t.Node? && t.key == top.key && t.left == top.sib && u == t.(key := k)
    decreases |lower|
  {
    if lower == [] {
      assert ([] + [top])[1..] == [] && ([] + [top.(key := k)])[1..] == [];
    } else {
      var f := lower[0];
      PlugTop(Up(kid, f), lower[1..], top, k);
      assert (lower + [top])[1..] == lower[1..] + [top];
      assert (lower + [top.(key := k)])[1..] == lower[1..] + [top.(key := k)];
    }
  }

  /** The successor's parent is the node itself exactly if no step to the left was made. */
  lemma SuccessorKeys(c: Cells, root: Ptr, e: Tree, lower: seq<Frame>, top: Frame, path: seq<Frame>)
    requires e.Node? && Stands(c, root, e, lower + [top] + path)
    ensures Above(lower + [top] + path) == At(top.key) <==> lower == []
    ensures lower != [] ==> Above(lower + [top] + path) == At(lower[0].key)
  {
    if lower != [] {
      var q := lower + [top] + path;
      Climb(c, root, e, q);
      assert q[1..] == lower[1..] + [top] + path && q[0] == lower[0];
      ApartPathDisjoint(Ks(Up(e, q[0])), q[1..]);
      InPath(lower[1..], top, path);
    }
  }

  /** What is known of the successor, and of its place once it stands where the other was. */
  lemma SuccessorFacts(c: Cells, root: Ptr, t: Tree, path: seq<Frame>, e: Tree, lower: seq<Frame>, top: Frame, he: int)
    requires t.Node? && top == Frame(Right, t.color, t.key, t.left)
    requires Leftwards(c, root, t, path, e, lower, lower + [top] + path, he) && e.left.Leaf?
    ensures var q0, q := lower + [top] + path, lower + [top.(key := e.key)] + path;
            && Stands(c, root, e, q0) && Rb(e, he) && PathOk(q, he) && (e.color.Red? ==> q[0].color.Black?)
            && Before(q) == Before(path) + (Keys(t.left) + [e.key])
            && [e.key] + Keys(e.right) + After(q) == Keys(t.right) + After(path)
            && e.key in c && c[e.key] == Cell(Null, Top(e.right), Above(q0), e.color)
            && Above(q) == (if Above(q0) == At(t.key) then At(e.key) else Above(q0))
  {
    var q0, q := lower + [top] + path, lower + [top.(key := e.key)] + path;
    Around(c, root, e, q0);
    LeftmostKeys(e);
    RekeyTop(lower, top, path, e.key, he);
    TopFrame(top, path, e.key);
    SuccessorKeys(c, root, e, lower, top, path);
    hide Stands, Rb, PathOk, Before, After;
    assert [] + [e.key] + Keys(e.right) == [e.key] + Keys(e.right);
  }

  lemma {:induction false} InPath(a: seq<Frame>, f: Frame, b: seq<Frame>)
    ensures f.key in PathKs(a + [f] + b)
    decreases |a|
  {
    var q := a + [f] + b;
    if a == [] {
      assert q[0] == f;
    } else {
      assert q[1..] == a[1..] + [f] + b && q[0] == a[0];
      InPath(a[1..], f, b);
    }
  }

  lemma {:induction false} LocateFrom(c: Cells, root: Ptr, tree: Tree, k: int, t0: Tree, path0: seq<Frame>, h0: int)
    returns (t: Tree, path: seq<Frame>, h: int)
    requires Going(c, root, tree, k, t0, path0, h0)
    ensures Going(c, root, tree, k, t, path, h) && (t.Node? ==> t.key == k)
    decreases t0
  {
    if t0.Node? && t0.key != k {
      StepDown(c, root, tree, k, t0, path0, h0);
      var s := if k < t0.key then Left else Right;
      t, path, h := LocateFrom(c, root, tree, k, On(s, t0), [Frame(s, t0.color, t0.key, On(Other(s), t0))] + path0,
        h0 - B(t0.color));
    } else {
      t, path, h := t0, path0, h0;
    }
  }

  /** Where a key of the tree stands. */
  lemma Locate(c: Cells, root: Ptr, tree: Tree, k: int) returns (t: Tree, path: seq<Frame>, h: int)
    requires Stands(c, root, tree, []) && Balanced(tree) && Sorted(Keys(tree)) && k in Keys(tree)
    ensures Going(c, root, tree, k, t, path, h) && t.Node? && t.key == k
  {
    var h0 :| Rb(tree, h0);
    assert Going(c, root, tree, k, tree, [], h0);
    t, path, h := LocateFrom(c, root, tree, k, tree, [], h0);
    FoundNode(t, path, k);
  }

  /** The node to be removed, and what will be left of the keys. */
  lemma Located(c: Cells, root: Ptr, tree: Tree, k: int) returns (t: Tree, path: seq<Frame>, h: int)
    requires Stands(c, root, tree, []) && Balanced(tree) && Sorted(Keys(tree)) && k in Keys(tree)
    ensures t.Node? && t.key == k && Stands(c, root, t, path) && Rb(t, h) && PathOk(path, h)
    ensures t.color.Red? ==> path != [] && path[0].color.Black?
    ensures k in c && c[k] == Cell(Top(t.left), Top(t.right), Above(path), t.color)
    ensures var rest := (Before(path) + Keys(t.left)) + (Keys(t.right) + After(path));
            Sorted(rest) && Removed(Keys(tree), rest, k)
  {
    t, path, h := Locate(c, root, tree, k);
    Around(c, root, t, path);
    PlugKeys(t, path);
    FoundNode(t, path, k);
    RemoveMiddle(Keys(tree), Before(path) + Keys(t.left), k, Keys(t.right) + After(path));
    hide Sorted, Removed, Keys, Before, After, Stands, Plug, PathOk, Rb;
  }

  lemma {:induction false} RootInPath(child: Ptr, path: seq<Frame>)
    requires path != []
    ensures RootOf(child, path).At? && RootOf(child, path).key in PathKs(path)
    decreases |path|
  {
    if |path| > 1 {
      RootInPath(At(path[0].key), path[1..]);
    } else {
      assert RootOf(At(path[0].key), path[1..]) == At(path[0].key);
    }
  }

  /** The place is the root exactly if the pointer to it is. */
  lemma AtRoot(c: Cells, root: Ptr, e: Tree, path: seq<Frame>)
    requires Stands(c, root, e, path)
    ensures Top(e) == root <==> path == []
  {
    if path != [] {
      RootInPath(Top(e), path);
      ApartPathDisjoint(Ks(e), path);
      assert e.Node? ==> e.key in Ks(e);
    }
  }

  lemma DeepenIs(e: Tree, f: Frame)
    requires f.sib.Node?
    ensures Deepen(e, f) == WithKid(Other(f.side), Up(e, f), f.sib.(color := Red))
    ensures Deepen(e, f).Node? && Deepen(e, f).key == f.key
  {
  }

  lemma FarIsRed(f: Frame)
    requires f.sib.Node? && !IsBlack(On(Other(f.side), f.sib))
    ensures FarRed(f) == f.sib
  {
  }

  /** The two cases of a black sibling on the tree itself. */
  lemma RemoveFacts(e: Tree, path: seq<Frame>, h: int)
    requires path != [] && IsBlack(e) && Rb(e, h) && PathOk(path, h + 1) && path[0].sib.Node? && IsBlack(path[0].sib)
    ensures var f, rest := path[0], path[1..];
            && PathOk(rest, h + 1 + B(f.color)) && FarRed(f).Node?
            && (IsBlack(f.sib.left) && IsBlack(f.sib.right) ==>
                  && (if f.color.Black? then IsBlack(Deepen(e, f)) && Rb(Deepen(e, f), h + 1)
                      else !IsBlack(Deepen(e, f)) && Rb(Paint(Black, Deepen(e, f)), h + 1))
                  && Keys(Plug(Deepen(e, f), rest)) == Keys(Plug(e, path)))
            && (!(IsBlack(f.sib.left) && IsBlack(f.sib.right)) ==>
                  && Rb(Borrow(e, f), h + 1 + B(f.color)) && Borrow(e, f).Node? && Borrow(e, f).color == f.color
                  && (f.color.Red? ==> rest != [] && rest[0].color.Black?)
                  && Keys(Plug(Borrow(e, f), rest)) == Keys(Plug(e, path)))
  {
    var f, rest := path[0], path[1..];
    assert Plug(e, path) == Plug(Up(e, f), rest);
    hide Keys, Plug;
    if IsBlack(f.sib.left) && IsBlack(f.sib.right) {
      DeepenOk(e, f, h);
      SameKeysBelow(Deepen(e, f), Up(e, f), rest);
    } else {
      BorrowOk(e, f, h);
      SameKeysBelow(Borrow(e, f), Up(e, f), rest);
    }
  }

  /** A lowered parent has a black sibling, which is there. */
  lemma LoweredSibling(path': seq<Frame>, path: seq<Frame>, h: int)
    requires path != [] && path[0].sib.Node? && path' == LowerParent(path[0]) + path[1..]
    requires PathOk(path', h + 1) && IsBlack(path'[0].sib) && h >= 0
    ensures path'[0].sib.Node? && path'[0].key == path[0].key && path'[0].side == path[0].side && path'[0].color.Red?
    ensures |path'| == |path| + 1
  {
    RbHeight(path'[0].sib, h + 1);
  }

  lemma SiblingOf(c: Cells, root: Ptr, s: Side, color: Color, e: Tree, k: int, u: Tree, rest: seq<Frame>)
    requires u.Node? && Stands(c, root, Join(s, color, e, k, u), rest)
    ensures k in c && c[k].color == color && Kid(c[k], Other(s)) == At(u.key)
    ensures u.key in c && Kid(c[u.key], Other(s)) == Top(On(Other(s), u))
  {
    var t := Join(s, color, e, k, u);
    Unfold(c, t, Above(rest), s);
    Unfold(c, u, At(k), s);
  }

  /** The sibling's children, near and far. */
  lemma Nephews(c: Cells, root: Ptr, e: Tree, path: seq<Frame>)
    requires Stands(c, root, e, path) && path != [] && path[0].sib.Node?
    ensures var f := path[0];
            var near, far := On(f.side, f.sib), On(Other(f.side), f.sib);
            && f.key in c && c[f.key] == FrameCell(Top(e), f, Above(path[1..]))
              && (c[f.key].left == Top(e) <==> f.side.Left?)
            && f.sib.key in c && c[f.sib.key] == Pair(f.side, Top(near), Top(far), At(f.key), f.sib.color)
            && (near.Node? ==> near.key in c && c[near.key].color == near.color)
            && (far.Node? ==> far.key in c && c[far.key].color == far.color)
  {
    Around(c, root, e, path);
    Unfold(c, path[0].sib, At(path[0].key), path[0].side);
  }

  lemma NephewsOf(c: Cells, root: Ptr, e: Tree, f: Frame, rest: seq<Frame>)
    requires f.sib.Node? && Stands(c, root, Up(e, f), rest)
    ensures var near, far := On(f.side, f.sib), On(Other(f.side), f.sib);
            && f.sib.key in c && Kid(c[f.sib.key], f.side) == Top(near) && Kid(c[f.sib.key], Other(f.side)) == Top(far)
            && (near.Node? ==> near.key in c && c[near.key].color == near.color)
            && (far.Node? ==> far.key in c && c[far.key].color == far.color)
            && (IsBlack(f.sib.left) && IsBlack(f.sib.right) <==> IsBlack(near) && IsBlack(far))
  {
    var path := [f] + rest;
    assert path[1..] == rest;
    Climb(c, root, e, path);
    Nephews(c, root, e, path);
    hide Stands;
  }

  lemma {:induction false} KsAreKeys(t: Tree)
    ensures forall x :: x in Ks(t) <==> x in Keys(t)
  {
    if t.Node? {
      KsAreKeys(t.left);
      KsAreKeys(t.right);
    }
  }

  lemma {:induction false} PathKsAreKeys(path: seq<Frame>)
    ensures forall x :: x in PathKs(path) <==> x in Before(path) || x in After(path)
    decreases |path|
  {
    if path != [] {
      KsAreKeys(path[0].sib);
      PathKsAreKeys(path[1..]);
    }
  }

  lemma KeyIsNew(c: Cells, root: Ptr, k: int, path: seq<Frame>)
    requires Stands(c, root, Leaf, path) && (forall x <- Before(path) :: x < k) && forall x <- After(path) :: k < x
    ensures k !in c && k !in PathKs(path) && (path != [] ==> path[0].key in c)
  {
    PathKsAreKeys(path);
    hide Before, After;
    if path != [] { assert path[0].key in PathKs(path); }
  }

  /** A new red node at the end of a path. */
  lemma LeafLinked(c: Cells, c': Cells, root: Ptr, k: int, path: seq<Frame>)
    requires Stands(c, root, Leaf, path) && k !in c && k !in PathKs(path) && (path != [] ==> path[0].key in c)
    requires var c1 := c[k := Cell(Null, Null, Above(path), Red)];
             c' == if path == [] then c1 else c1[path[0].key := SetKid(c[path[0].key], path[0].side, At(k))]
    ensures Stands(c', if path == [] then At(k) else root, Node(Red, Leaf, k, Leaf), path)
  {
    var e := Node(Red, Leaf, k, Leaf);
    assert Ks(e) == {} + {k};
    ApartPathGrows({}, k, path);
    RepPathMoved(c, c', Null, At(k), path, {});
    RootMoves(Null, At(k), path);
  }

  lemma {:induction false} ApartPathGrows(ks: set<int>, k: int, path: seq<Frame>)
    requires ApartPath(ks, path) && k !in PathKs(path)
    ensures ApartPath(ks + {k}, path)
    decreases |path|
  {
    if path != [] {
      var f := path[0];
      ApartPathGrows(ks + {f.key} + Ks(f.sib), k, path[1..]);
      assert ks + {k} + {f.key} + Ks(f.sib) == ks + {f.key} + Ks(f.sib) + {k};
    }
  }

  /** On the way down to `k`: the place, its colours, and nothing passed on the wrong side. */
  ghost predicate Going(c: Cells, root: Ptr, tree: Tree, k: int, t: Tree, path: seq<Frame>, h: int) {
    && Stands(c, root, t, path) && Plug(t, path) == tree && Sorted(Keys(tree)) && Rb(t, h) && PathOk(path, h)
    && (t.Node? && t.color.Red? ==> path != [] && path[0].color.Black?)
    && (forall x <- Before(path) :: x < k) && (forall x <- After(path) :: k < x)
    && (path != [] ==> path[0].side == if k < path[0].key then Left else Right)
  }

  /** One step of the descent, on the tree and on the cells. */
  lemma StepDown(c: Cells, root: Ptr, tree: Tree, k: int, t: Tree, path: seq<Frame>, h: int)
    requires t.Node? && t.key != k && Going(c, root, tree, k, t, path, h)
    ensures var s := if k < t.key then Left else Right;
            && Going(c, root, tree, k, On(s, t), [Frame(s, t.color, t.key, On(Other(s), t))] + path, h - B(t.color))
            && t.key in c && (if k < t.key then c[t.key].left else c[t.key].right) == Top(On(s, t))
  {
    var s := if k < t.key then Left else Right;
    NarrowDown(t, path, k);
    OneDown(t, path, s, h);
    Around(c, root, t, path);
    Enter(c, root, t, path, s);
    hide Keys, Sorted, Rb, Stands, PathOk, Plug, Before, After;
  }

  /** What the pointers around a place say. */
  lemma Around(c: Cells, root: Ptr, e: Tree, path: seq<Frame>)
    requires Stands(c, root, e, path)
    ensures e.Node? ==> e.key in c && c[e.key] == Cell(Top(e.left), Top(e.right), Above(path), e.color)
    ensures path != [] ==>
      var f := path[0];
      && f.key in c && c[f.key] == FrameCell(Top(e), f, Above(path[1..]))
      && (f.sib.Node? ==>
          f.sib.key in c && c[f.sib.key] == Cell(Top(f.sib.left), Top(f.sib.right), At(f.key), f.sib.color))
      && (e.Node? || f.sib.Node? ==> (c[f.key].left == Top(e) <==> f.side.Left?))
  {
    if path != [] {
      assert e.Node? ==> e.key in Ks(e);
      assert path[0].sib.Node? ==> path[0].sib.key in Ks(path[0].sib);
    }
  }

  /** The node with another child on side `s`. */
  function WithKid(s: Side, t: Tree, kid: Tree): Tree
    requires t.Node?
  {
    Join(s, t.color, kid, t.key, On(Other(s), t))
  }

  /** Whether the node is its parent's inner child can be told from the pointer. */
  lemma InnerKid(c: Cells, root: Ptr, e: Tree, p: Frame, g: Frame, rest: seq<Frame>)
    requires e.Node? && Stands(c, root, Up(Up(e, p), g), rest)
    ensures p.key in c && (Kid(c[p.key], Other(g.side)) == At(e.key) <==> p.side != g.side)
  {
    var t := Up(Up(e, p), g);
    Unfold(c, t, Above(rest), g.side);
    Unfold(c, Up(e, p), At(g.key), p.side);
    assert e.key in Ks(e);
  }
}
