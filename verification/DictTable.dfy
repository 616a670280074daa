/** The hash table's arrays as a value: bucket chains linked both ways through slots, and a
    free list threaded through the same `next` fields. */
module DictTable {
  import opened Words

  datatype Slot = Slot(hashCode: u32, next: int)

  datatype Item<K, V> = Item(key: K, value: V, prev: int)

  datatype Table<K, V> = Table(buckets: seq<int>, nodes: seq<Slot>, items: seq<Item<K, V>>,
                               freeList: int, freeCount: nat, count: nat)

  /** The mark of a slot that holds no row. */
  const DEAD: int := -2

  /** The neighbour at place `i`, or -1 past either end. */
  function At(c: seq<int>, i: int): int { if 0 <= i < |c| then c[i] else -1 }

  ghost predicate NoDup(c: seq<int>) { forall i, j :: 0 <= i < j < |c| ==> c[i] != c[j] }

  predicate Sized<K, V>(t: Table<K, V>) {
    0 < |t.buckets| == |t.nodes| == |t.items| && t.count <= |t.buckets|
  }

  function Bucket<K, V>(t: Table<K, V>, i: nat): nat
    requires Sized(t) && i < |t.nodes|
  {
    t.nodes[i].hashCode % |t.buckets|
  }

  ghost predicate InChain<K, V>(t: Table<K, V>, b: nat, c: seq<int>, i: nat)
    requires Sized(t) && i < |c|
  {
    && 0 <= c[i] < t.count
    && t.nodes[c[i]].next == At(c, i + 1)
    && t.items[c[i]].prev == At(c, i - 1)
    && Bucket(t, c[i]) == b
  }

  /** Bucket `b` is the chain `c`: its head, its links in both directions, and nothing twice. */
  ghost predicate ChainOk<K, V>(t: Table<K, V>, b: nat, c: seq<int>) {
    && Sized(t) && b < |t.buckets|
    && t.buckets[b] == At(c, 0)
    && (forall i :: 0 <= i < |c| ==> InChain(t, b, c, i))
    && NoDup(c)
  }

  ghost predicate FreeOk<K, V>(t: Table<K, V>, f: seq<int>) {
    && Sized(t) && t.freeList == At(f, 0) && t.freeCount == |f|
    && (forall i :: 0 <= i < |f| ==>
          0 <= f[i] < t.count && t.nodes[f[i]].next == At(f, i + 1) && t.items[f[i]].prev == DEAD)
    && NoDup(f)
  }

  ghost predicate ChainsOk<K, V>(t: Table<K, V>, cs: seq<seq<int>>) {
    && Sized(t) && |cs| == |t.buckets|
    && forall b :: 0 <= b < |cs| ==> ChainOk(t, b, cs[b])
  }

  ghost predicate Placed<K, V>(t: Table<K, V>, cs: seq<seq<int>>, f: seq<int>, i: nat)
    requires ChainsOk(t, cs) && i < t.count
  {
    if t.items[i].prev == DEAD then i in f else i in cs[Bucket(t, i)]
  }

  /** The arrays are sound, apart from the slot `hole`, which is in no chain and not free. */
  ghost predicate Shape<K, V>(t: Table<K, V>, cs: seq<seq<int>>, f: seq<int>, hole: int) {
    && ChainsOk(t, cs) && FreeOk(t, f)
    && (forall i :: 0 <= i < t.count && i != hole ==> Placed(t, cs, f, i))
    && hole !in f && (forall b :: 0 <= b < |cs| ==> hole !in cs[b])
  }

  predicate Live<K, V>(t: Table<K, V>, i: int) {
    Sized(t) && 0 <= i < t.count && t.items[i].prev != DEAD
  }

  // ----- chains that are left alone

  ghost predicate Untouched<K, V>(t: Table<K, V>, t': Table<K, V>, x: int) {
    && Sized(t) && Sized(t') && |t'.buckets| == |t.buckets|
    && (0 <= x < t.count ==>
          x < t'.count && t'.nodes[x] == t.nodes[x] && t'.items[x].prev == t.items[x].prev)
  }

  lemma ChainFrame<K, V>(t: Table<K, V>, t': Table<K, V>, b: nat, c: seq<int>)
    requires ChainOk(t, b, c) && Sized(t') && |t'.buckets| == |t.buckets|
    requires t'.buckets[b] == t.buckets[b]
    requires forall x :: x in c ==> Untouched(t, t', x)
    ensures ChainOk(t', b, c)
  {
    forall i | 0 <= i < |c|
      ensures InChain(t', b, c, i)
    {
      assert InChain(t, b, c, i) && c[i] in c;
    }
  }

  lemma FreeFrame<K, V>(t: Table<K, V>, t': Table<K, V>, f: seq<int>)
    requires FreeOk(t, f) && Sized(t') && |t'.buckets| == |t.buckets|
    requires t'.freeList == t.freeList && t'.freeCount == t.freeCount
    requires forall x :: x in f ==> Untouched(t, t', x)
    ensures FreeOk(t', f)
  {
    forall i | 0 <= i < |f|
      ensures 0 <= f[i] < t'.count && t'.nodes[f[i]].next == At(f, i + 1) && t'.items[f[i]].prev == DEAD
    {
      assert f[i] in f;
    }
  }

  /** A slot on a chain is live, a free slot is not. */
  lemma OnChainIsLive<K, V>(t: Table<K, V>, cs: seq<seq<int>>, b: nat, x: int)
    requires ChainsOk(t, cs) && b < |cs| && x in cs[b]
    ensures Live(t, x) && Bucket(t, x) == b
  {
    assert ChainOk(t, b, cs[b]);
    var i :| 0 <= i < |cs[b]| && cs[b][i] == x;
    assert InChain(t, b, cs[b], i);
    assert i > 0 ==> InChain(t, b, cs[b], i - 1);
  }

  /** Chains of different buckets share no slot. */
  lemma ChainsDisjoint<K, V>(t: Table<K, V>, cs: seq<seq<int>>, a: nat, b: nat, x: int)
    requires ChainsOk(t, cs) && a < |cs| && b < |cs| && x in cs[a] && x in cs[b]
    ensures a == b
  {
    assert ChainOk(t, a, cs[a]) && ChainOk(t, b, cs[b]);
    var i :| 0 <= i < |cs[a]| && cs[a][i] == x;
    var j :| 0 <= j < |cs[b]| && cs[b][j] == x;
    assert InChain(t, a, cs[a], i) && InChain(t, b, cs[b], j);
  }

  // ----- linking a slot in at the head of a bucket

  /** Hash, links and row of slot `x` as the new head of its bucket. */
  function LinkHead<K, V>(t: Table<K, V>, x: nat, h: u32, key: K, value: V): Table<K, V>
    requires Sized(t) && x < t.count
  {
    var b := h % |t.buckets|;
    var first := t.buckets[b];
    var items := if 0 <= first < |t.items| then t.items[first := t.items[first].(prev := x)] else t.items;
    t.(nodes := t.nodes[x := Slot(h, first)], buckets := t.buckets[b := x], items := items[x := Item(key, value, -1)])
  }

  lemma LinkedChain<K, V>(t: Table<K, V>, c: seq<int>, x: nat, h: u32, key: K, value: V)
    requires Sized(t) && x < t.count && ChainOk(t, h % |t.buckets|, c) && x !in c
    ensures ChainOk(LinkHead(t, x, h, key, value), h % |t.buckets|, [x] + c)
  {
    var b := h % |t.buckets|;
    var t', c' := LinkHead(t, x, h, key, value), [x] + c;
    assert c != [] ==> InChain(t, b, c, 0);
    forall i | 0 <= i < |c'|
      ensures InChain(t', b, c', i)
    {
      if i > 0 {
        assert c'[i] == c[i - 1] && InChain(t, b, c, i - 1);
        assert i > 1 ==> c[i - 1] != c[0];
      }
    }
  }


  lemma LinkChains<K, V>(t: Table<K, V>, cs: seq<seq<int>>, x: nat, h: u32, key: K, value: V)
    requires ChainsOk(t, cs) && x < t.count && forall b :: 0 <= b < |cs| ==> x !in cs[b]
    ensures var b := h % |t.buckets|;
            ChainsOk(LinkHead(t, x, h, key, value), cs[b := [x] + cs[b]])
  {
    var b := h % |t.buckets|;
    var t', cs' := LinkHead(t, x, h, key, value), cs[b := [x] + cs[b]];
    forall a | 0 <= a < |cs'|
      ensures ChainOk(t', a, cs'[a])
    {
      assert ChainOk(t, a, cs[a]) && ChainOk(t, b, cs[b]);
      if a == b {
        LinkedChain(t, cs[b], x, h, key, value);
      } else {
        forall y | y in cs[a]
          ensures Untouched(t, t', y)
        {
          OnChainIsLive(t, cs, a, y);
          if y == t.buckets[b] { ChainsDisjoint(t, cs, a, b, y); }
        }
        ChainFrame(t, t', a, cs[a]);
      }
    }
  }

  lemma LinkFree<K, V>(t: Table<K, V>, cs: seq<seq<int>>, f: seq<int>, x: nat, h: u32, key: K, value: V)
    requires ChainsOk(t, cs) && FreeOk(t, f) && x < t.count && x !in f
    ensures FreeOk(LinkHead(t, x, h, key, value), f)
  {
    var b := h % |t.buckets|;
    var t' := LinkHead(t, x, h, key, value);
    assert ChainOk(t, b, cs[b]);
    forall y | y in f
      ensures Untouched(t, t', y)
    {
      if y == t.buckets[b] && 0 <= y { OnChainIsLive(t, cs, b, y); }
    }
    FreeFrame(t, t', f);
  }

  lemma LinkPlaced<K, V>(t: Table<K, V>, cs: seq<seq<int>>, f: seq<int>, x: nat, h: u32, key: K, value: V, i: nat)
    requires Shape(t, cs, f, x) && x < t.count && i < t.count
    ensures var b := h % |t.buckets|;
            var t', cs' := LinkHead(t, x, h, key, value), cs[b := [x] + cs[b]];
            ChainsOk(t', cs') ==> Placed(t', cs', f, i)
  {
    var b := h % |t.buckets|;
    var cs' := cs[b := [x] + cs[b]];
    assert x in cs'[b];
    if i != x {
      assert Placed(t, cs, f, i);
      assert ChainOk(t, b, cs[b]);
      if i == t.buckets[b] { OnChainIsLive(t, cs, b, i); }
    }
  }

  /** The hole becomes the head of its bucket, and the table is sound again. */
  lemma LinkShape<K, V>(t: Table<K, V>, cs: seq<seq<int>>, f: seq<int>, x: nat, h: u32, key: K, value: V)
    requires Shape(t, cs, f, x) && x < t.count
    ensures var b := h % |t.buckets|;
            Shape(LinkHead(t, x, h, key, value), cs[b := [x] + cs[b]], f, -1)
  {
    var b := h % |t.buckets|;
    var t', cs' := LinkHead(t, x, h, key, value), cs[b := [x] + cs[b]];
    LinkChains(t, cs, x, h, key, value);
    LinkFree(t, cs, f, x, h, key, value);
    forall i | 0 <= i < t'.count
      ensures Placed(t', cs', f, i)
    {
      LinkPlaced(t, cs, f, x, h, key, value, i);
    }
    ShapeRange(t', cs', f);
  }

  lemma ShapeRange<K, V>(t: Table<K, V>, cs: seq<seq<int>>, f: seq<int>)
    requires ChainsOk(t, cs) && FreeOk(t, f)
    ensures -1 !in f && forall b :: 0 <= b < |cs| ==> -1 !in cs[b]
  {
    forall b | 0 <= b < |cs|
      ensures -1 !in cs[b]
    {
      if -1 in cs[b] { OnChainIsLive(t, cs, b, -1); }
    }
  }

  // ----- taking a slot

  /** The first free slot leaves the free list. */
  lemma TakeFree<K, V>(t: Table<K, V>, cs: seq<seq<int>>, f: seq<int>)
    requires Shape(t, cs, f, -1) && f != []
    ensures Shape(t.(freeList := t.nodes[f[0]].next, freeCount := t.freeCount - 1), cs, f[1..], f[0])
  {
    var t' := t.(freeList := t.nodes[f[0]].next, freeCount := t.freeCount - 1);
    SameArrays(t, t', cs);
    forall i | 0 <= i < t'.count && i != f[0]
      ensures Placed(t', cs, f[1..], i)
    {
      assert Placed(t, cs, f, i);
    }
    forall b | 0 <= b < |cs|
      ensures f[0] !in cs[b]
    {
      if f[0] in cs[b] { OnChainIsLive(t, cs, b, f[0]); }
    }
  }

  lemma SameArrays<K, V>(t: Table<K, V>, t': Table<K, V>, cs: seq<seq<int>>)
    requires ChainsOk(t, cs) && Sized(t') && t'.buckets == t.buckets && t'.nodes == t.nodes && t'.items == t.items
    requires t.count <= t'.count
    ensures ChainsOk(t', cs)
  {
    forall b | 0 <= b < |cs|
      ensures ChainOk(t', b, cs[b])
    {
      assert ChainOk(t, b, cs[b]);
      ChainFrame(t, t', b, cs[b]);
    }
  }

  /** The first slot never used comes into use. */
  lemma TakeNew<K, V>(t: Table<K, V>, cs: seq<seq<int>>, f: seq<int>)
    requires Shape(t, cs, f, -1) && t.count < |t.buckets|
    ensures Shape(t.(count := t.count + 1), cs, f, t.count)
  {
    var t' := t.(count := t.count + 1);
    SameArrays(t, t', cs);
    FreeFrame(t, t', f);
    forall i | 0 <= i < t'.count && i != t.count
      ensures Placed(t', cs, f, i)
    {
      assert Placed(t, cs, f, i);
    }
    forall b | 0 <= b < |cs|
      ensures t.count !in cs[b]
    {
      if t.count in cs[b] { OnChainIsLive(t, cs, b, t.count); }
    }
  }

  // ----- taking a slot off its chain

  /** The neighbours of slot `x` are joined; the slot itself keeps its contents. */
  function Unlink<K, V>(t: Table<K, V>, x: nat): Table<K, V>
    requires Sized(t) && x < t.count
  {
    var p, n, b := t.items[x].prev, t.nodes[x].next, Bucket(t, x);
    var t1 := if p < 0 then t.(buckets := t.buckets[b := n])
              else if p < |t.nodes| then t.(nodes := t.nodes[p := t.nodes[p].(next := n)])
              else t;
    if 0 <= n < |t.items| then t1.(items := t1.items[n := t1.items[n].(prev := p)]) else t1
  }

  function Without(c: seq<int>, p: nat): seq<int>
    requires p < |c|
  {
    c[..p] + c[p + 1..]
  }

  lemma UnlinkedChain<K, V>(t: Table<K, V>, b: nat, c: seq<int>, p: nat)
    requires ChainOk(t, b, c) && p < |c| && InChain(t, b, c, p)
    ensures ChainOk(Unlink(t, c[p]), b, Without(c, p))
  {
    var x, c' := c[p], Without(c, p);
    var t' := Unlink(t, x);
    assert p > 0 ==> InChain(t, b, c, p - 1);
    assert p + 1 < |c| ==> InChain(t, b, c, p + 1);
    forall i | 0 <= i < |c'|
      ensures InChain(t', b, c', i)
    {
      var j := if i < p then i else i + 1;
      assert c'[i] == c[j] && InChain(t, b, c, j);
      assert At(c', i + 1) == (if j + 1 == p then At(c, p + 1) else At(c, j + 1));
      assert At(c', i - 1) == (if j == p + 1 then At(c, p - 1) else At(c, j - 1));
    }
  }

  /** A slot that is neither `x` nor a neighbour of `x` does not notice. */
  lemma UnlinkUntouched<K, V>(t: Table<K, V>, b: nat, c: seq<int>, p: nat, y: int)
    requires ChainOk(t, b, c) && p < |c| && InChain(t, b, c, p)
    requires y !in c || y == c[p]
    ensures Untouched(t, Unlink(t, c[p]), y)
    ensures forall a :: 0 <= a < |t.buckets| && a != b ==> Unlink(t, c[p]).buckets[a] == t.buckets[a]
  {
    assert p > 0 ==> InChain(t, b, c, p - 1) && c[p - 1] in c && c[p - 1] != c[p];
    assert p + 1 < |c| ==> InChain(t, b, c, p + 1) && c[p + 1] in c && c[p + 1] != c[p];
  }

  lemma UnlinkChains<K, V>(t: Table<K, V>, cs: seq<seq<int>>, b: nat, p: nat)
    requires ChainsOk(t, cs) && b < |cs| && p < |cs[b]|
    ensures 0 <= cs[b][p] < t.count
    ensures ChainsOk(Unlink(t, cs[b][p]), cs[b := Without(cs[b], p)])
  {
    assert ChainOk(t, b, cs[b]) && InChain(t, b, cs[b], p);
    var x := cs[b][p];
    var t', cs' := Unlink(t, x), cs[b := Without(cs[b], p)];
    UnlinkedChain(t, b, cs[b], p);
    hide InChain;
    forall a | 0 <= a < |cs'|
      ensures ChainOk(t', a, cs'[a])
    {
      if a != b {
        assert ChainOk(t, a, cs[a]);
        forall y | y in cs[a]
          ensures Untouched(t, t', y)
        {
          if y in cs[b] { ChainsDisjoint(t, cs, a, b, y); }
          UnlinkUntouched(t, b, cs[b], p, y);
        }
        UnlinkUntouched(t, b, cs[b], p, x);
        hide Unlink;
        ChainFrame(t, t', a, cs[a]);
      }
    }
  }

  lemma UnlinkPrevs<K, V>(t: Table<K, V>, cs: seq<seq<int>>, b: nat, p: nat, i: nat)
    requires ChainsOk(t, cs) && b < |cs| && p < |cs[b]| && 0 <= cs[b][p] < t.count && i < t.count
    ensures var t' := Unlink(t, cs[b][p]);
            && (t'.items[i].prev == DEAD <==> t.items[i].prev == DEAD)
            && t'.nodes[i].hashCode == t.nodes[i].hashCode
            && t'.items[i].key == t.items[i].key && t'.items[i].value == t.items[i].value
  {
    var c := cs[b];
    assert ChainOk(t, b, c) && InChain(t, b, c, p);
    assert p > 0 ==> InChain(t, b, c, p - 1);
    assert p + 1 < |c| ==> InChain(t, b, c, p + 1);
  }

  /** The live slot at place `p` of chain `b` becomes the hole. */
  lemma UnlinkShape<K, V>(t: Table<K, V>, cs: seq<seq<int>>, f: seq<int>, b: nat, p: nat)
    requires Shape(t, cs, f, -1) && b < |cs| && p < |cs[b]|
    ensures 0 <= cs[b][p] < t.count
    ensures Shape(Unlink(t, cs[b][p]), cs[b := Without(cs[b], p)], f, cs[b][p])
  {
    UnlinkChains(t, cs, b, p);
    var x := cs[b][p];
    var t', cs' := Unlink(t, x), cs[b := Without(cs[b], p)];
    OnChainIsLive(t, cs, b, x);
    assert ChainOk(t, b, cs[b]) && InChain(t, b, cs[b], p);
    forall y | y in f
      ensures Untouched(t, t', y)
    {
      if y in cs[b] { OnChainIsLive(t, cs, b, y); }
      UnlinkUntouched(t, b, cs[b], p, y);
    }
    hide Unlink, InChain;
    assert t'.freeList == t.freeList && t'.freeCount == t.freeCount by { UnlinkKeeps(t, x); }
    FreeFrame(t, t', f);
    forall i | 0 <= i < t'.count && i != x
      ensures Placed(t', cs', f, i)
    {
      UnlinkKeeps(t, x);
      UnlinkPrevs(t, cs, b, p, i);
      assert Placed(t, cs, f, i);
    }
    forall a | 0 <= a < |cs'|
      ensures x !in cs'[a]
    {
      if a != b && x in cs[a] { ChainsDisjoint(t, cs, a, b, x); }
    }
  }

  lemma UnlinkKeeps<K, V>(t: Table<K, V>, x: nat)
    requires Sized(t) && x < t.count
    ensures var t' := Unlink(t, x);
            && t'.freeList == t.freeList && t'.freeCount == t.freeCount && t'.count == t.count
            && Sized(t') && |t'.buckets| == |t.buckets|
  {
  }

  // ----- giving a slot back

  function Release<K, V>(t: Table<K, V>, x: nat): Table<K, V>
    requires Sized(t) && x < t.count
  {
    t.(nodes := t.nodes[x := t.nodes[x].(next := t.freeList)], freeList := x, freeCount := t.freeCount + 1,
       items := t.items[x := t.items[x].(prev := DEAD)])
  }

  /** The hole becomes the first free slot. */
  lemma ReleaseShape<K, V>(t: Table<K, V>, cs: seq<seq<int>>, f: seq<int>, x: nat)
    requires Shape(t, cs, f, x) && x < t.count
    ensures Shape(Release(t, x), cs, [x] + f, -1)
  {
    var t', f' := Release(t, x), [x] + f;
    forall b | 0 <= b < |cs|
      ensures ChainOk(t', b, cs[b])
    {
      assert ChainOk(t, b, cs[b]);
      ChainFrame(t, t', b, cs[b]);
    }
    forall i | 0 <= i < |f'|
      ensures 0 <= f'[i] < t'.count && t'.nodes[f'[i]].next == At(f', i + 1) && t'.items[f'[i]].prev == DEAD
    {
      if i > 0 { assert f'[i] == f[i - 1] && f[i - 1] in f; }
    }
    forall i | 0 <= i < t'.count
      ensures Placed(t', cs, f', i)
    {
      if i != x { assert Placed(t, cs, f, i); }
    }
    ShapeRange(t', cs, f');
  }
}
