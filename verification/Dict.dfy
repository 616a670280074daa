/** The hash dictionary, its arrays changed in place. */
module Dict {
  import opened Words
  import opened DictTable

  datatype Row<K, V> = Row(key: K, value: V)

  /** What the dictionary holds: a row at each live slot, the free slots in the order they will
      be reused, and the number of slots ever used. */
  datatype View<K, V> = View(rows: map<int, Row<K, V>>, free: seq<int>, count: nat)

  ghost function RowsOf<K, V>(t: Table<K, V>): map<int, Row<K, V>> {
    map i | 0 <= i < t.count && i < |t.items| && t.items[i].prev != DEAD :: Row(t.items[i].key, t.items[i].value)
  }

  ghost predicate Hashed<K, V>(t: Table<K, V>, hash: K -> u32) {
    forall i :: Live(t, i) ==> t.nodes[i].hashCode == hash(t.items[i].key)
  }

  ghost predicate Unique<K, V>(rows: map<int, Row<K, V>>) {
    forall i, j :: i in rows && j in rows && rows[i].key == rows[j].key ==> i == j
  }

  ghost predicate HasKey<K, V>(s: View<K, V>, k: K) { exists i :: i in s.rows && s.rows[i].key == k }

  // ----- what the operations do to the view

  function NextSlot<K, V>(s: View<K, V>): int { if s.free != [] then s.free[0] else s.count }

  function Occupy<K, V>(s: View<K, V>, k: K, v: V): View<K, V> {
    View(s.rows[NextSlot(s) := Row(k, v)], if s.free != [] then s.free[1..] else [],
         if s.free != [] then s.count else s.count + 1)
  }

  function Vacate<K, V>(s: View<K, V>, i: int): View<K, V> { View(s.rows - {i}, [i] + s.free, s.count) }

  class Dict<K(==, 0), V(0)> {
    const hash: K -> u32
    const prime: nat -> nat
    var freeList: int
    var freeCount: nat
    var count: nat
    var buckets: seq<int>
    var nodes: seq<Slot>
    var items: seq<Item<K, V>>
    ghost var chains: seq<seq<int>>
    ghost var free: seq<int>

    ghost function T(): Table<K, V> reads this { Table(buckets, nodes, items, freeList, freeCount, count) }

    /** The arrays are sound and every row sits under its own hash. */
    ghost predicate Sound() reads this {
      && Shape(T(), chains, free, -1) && Hashed(T(), hash)
      && forall n: nat :: n > 0 ==> prime(2 * n) > n
    }

    /** Sound, and no key twice. */
    ghost predicate Valid() reads this { Sound() && Unique(RowsOf(T())) }

    ghost function Contents(): View<K, V> reads this { View(RowsOf(T()), free, count) }

    constructor (hash: K -> u32, prime: nat -> nat, capacity: nat)
      requires prime(capacity) > 0 && forall n: nat :: n > 0 ==> prime(2 * n) > n
      ensures Valid() && Contents() == View(map[], [], 0) && this.hash == hash && this.prime == prime
    {
      this.hash, this.prime := hash, prime;
      var k: K, v: V := *, *;
      freeList, freeCount, count := -1, 0, 0;
      var n := prime(capacity);
      buckets := seq(n, i => -1);
      nodes := seq(n, i => Slot(0, -1));
      items := seq(n, i => Item(k, v, 0));
      chains, free := seq(n, i => []), [];
      new;
      assert forall b :: 0 <= b < |chains| ==> ChainOk(T(), b, chains[b]);
      assert RowsOf(T()) == map[];
    }

    method Find(k: K) returns (idx: int)
      requires Sound()
      ensures idx == -1 ==> !HasKey(Contents(), k)
      ensures idx != -1 ==> idx in Contents().rows && Contents().rows[idx].key == k
    {
      var hashCode := hash(k);
      idx := Search(hashCode, k);
    }

    /** The walk along one chain. */
    method Search(hashCode: u32, k: K) returns (idx: int)
      requires Sound() && hashCode == hash(k)
      ensures idx == -1 ==> !HasKey(Contents(), k)
      ensures idx != -1 ==> Live(T(), idx) && items[idx].key == k
      ensures idx != -1 ==> idx in Contents().rows && Contents().rows[idx].key == k
    {
      var b := hashCode % |buckets|;
      ghost var c, p := chains[b], 0;
      assert ChainOk(T(), b, c);
      idx := buckets[b];
      while idx >= 0
        invariant 0 <= p <= |c| && idx == At(c, p)
        invariant forall j :: 0 <= j < p ==> 0 <= c[j] < |items| && items[c[j]].key != k
        decreases |c| - p
      {
        assert InChain(T(), b, c, p);
        OnChainIsLive(T(), chains, b, idx);
        if nodes[idx].hashCode == hashCode && items[idx].key == k { return; }
        idx, p := nodes[idx].next, p + 1;
      }
      assert p < |c| ==> InChain(T(), b, c, p);
      AbsentFromChain(T(), chains, free, hash, k);
    }

    /** A fresh key goes into the next slot; a key already there is overwritten or refused. */
    method Add(k: K, v: V, override: bool) returns (success: bool, index: int)
      requires Valid()
      modifies this
      ensures Valid()
      ensures !old(HasKey(Contents(), k)) ==>
                success && index == NextSlot(old(Contents())) && Contents() == Occupy(old(Contents()), k, v)
      ensures old(HasKey(Contents(), k)) ==>
                && success == override
                && index in old(Contents()).rows && old(Contents()).rows[index].key == k
                && Contents() == if override then old(Contents()).(rows := old(Contents()).rows[index := Row(k, v)])
                                 else old(Contents())
    {
      hide Shape, Hashed, HashedBut, RowsOf, LinkHead;
      var hashCode := hash(k);
      index := Search(hashCode, k);
      if index >= 0 {
        success := override;
        if override { Overwrite(index, v); }
        return;
      }
      ghost var s := Contents();
      index := TakeSlot();
      Link(index, hashCode, k, v);
      FreshKey(s.rows, index, k, v);
      success := true;
    }

    method Overwrite(index: int, v: V)
      requires Valid() && Live(T(), index)
      modifies this`items
      ensures Valid()
      ensures var s := old(Contents());
              index in s.rows && Contents() == s.(rows := s.rows[index := Row(s.rows[index].key, v)])
    {
      var item := items[index].(value := v);
      SetItem(T(), chains, free, hash, index, item);
      SameKey(RowsOf(T()), index, v);
      hide Shape;
      items := items[index := item];
    }

    /** The next slot holds no row yet. */
    lemma NextIsFresh()
      requires Valid()
      ensures NextSlot(Contents()) !in Contents().rows
    {
      assert free != [] ==> items[free[0]].prev == DEAD;
    }

    /** A slot for a new row: the first free one, or the first never used after growing if
        need be. The slot is left as a hole. */
    method TakeSlot() returns (index: int)
      requires Valid()
      modifies this
      ensures 0 <= index < count && Shape(T(), chains, free, index) && HashedBut(T(), hash, index)
      ensures forall n: nat :: n > 0 ==> prime(2 * n) > n
      ensures RowsOf(T()) - {index} == old(Contents()).rows
      ensures var s := old(Contents());
              && index == NextSlot(s)
              && free == (if s.free != [] then s.free[1..] else [])
              && count == (if s.free != [] then s.count else s.count + 1)
    {
      if freeCount > 0 {
        index := freeList;
        TakeFree(T(), chains, free);
        TakeFreeRows(T(), chains, free);
        freeList := nodes[index].next;
        freeCount := freeCount - 1;
        free := free[1..];
      } else {
        if count == |buckets| { Grow(); }
        index := count;
        TakeNew(T(), chains, free);
        count := count + 1;
      }
    }

    /** Makes the hole the head of its bucket. */
    method Link(index: int, hashCode: u32, k: K, v: V)
      requires 0 <= index < count && Shape(T(), chains, free, index) && HashedBut(T(), hash, index)
      requires hashCode == hash(k) && forall n: nat :: n > 0 ==> prime(2 * n) > n
      modifies this`nodes, this`items, this`buckets, this`chains
      ensures Sound() && RowsOf(T()) == (RowsOf(old(T())) - {index})[index := Row(k, v)]
      ensures T() == LinkHead(old(T()), index, hashCode, k, v)
    {
      LinkShape(T(), chains, free, index, hashCode, k, v);
      LinkRows(T(), chains, free, hash, index, hashCode, k, v);
      var b := hashCode % |buckets|;
      nodes := nodes[index := Slot(hashCode, buckets[b])];
      if buckets[b] >= 0 {
        var first := buckets[b];
        assert ChainOk(old(T()), b, chains[b]);
        assert InChain(old(T()), b, chains[b], 0);
        items := items[first := items[first].(prev := index)];
      }
      chains := chains[b := [index] + chains[b]];
      buckets := buckets[b := index];
      items := items[index := Item(k, v, -1)];
    }

    /** The row at `idx` goes and its slot is the next to be reused. */
    method RemoveAt(idx: int)
      requires Valid() && idx in Contents().rows
      modifies this
      ensures Valid() && Contents() == Vacate(old(Contents()), idx)
    {
      ghost var t0, b := T(), Bucket(T(), idx);
      ghost var p := PlaceOf(t0, chains, free, idx);
      hide Shape, RowsOf, Hashed, Unlink, Without;
      RemoveShape(t0, chains, free, b, p);
      RemoveRows(t0, chains, free, hash, b, p);
      Neighbours(t0, chains, free, b, p);
      hide Release;
      Detach(idx);
      Discard(idx);
      chains := chains[b := Without(chains[b], p)];
      free := [idx] + free;
      Fewer(RowsOf(t0), idx);
    }

    /** Puts a detached slot at the front of the free list. */
    method Discard(idx: int)
      requires Sized(T()) && 0 <= idx < count
      modifies this`nodes, this`items, this`freeList, this`freeCount
      ensures T() == Release(old(T()), idx)
    {
      nodes := nodes[idx := nodes[idx].(next := freeList)];
      freeList := idx;
      freeCount := freeCount + 1;
      items := items[idx := items[idx].(prev := DEAD)];
    }

    /** Joins the neighbours of a slot. */
    method Detach(idx: int)
      requires Sized(T()) && 0 <= idx < count
      requires items[idx].prev < |nodes| && nodes[idx].next < |items|
      modifies this`buckets, this`nodes, this`items
      ensures T() == Unlink(old(T()), idx)
    {
      var prev, next := items[idx].prev, nodes[idx].next;
      if prev < 0 {
        var b := nodes[idx].hashCode % |buckets|;
        buckets := buckets[b := next];
      } else {
        nodes := nodes[prev := nodes[prev].(next := next)];
      }
      if next >= 0 { items := items[next := items[next].(prev := prev)]; }
    }

    method ValueAt(idx: int) returns (v: V)
      requires Sound() && idx in Contents().rows
      ensures v == Contents().rows[idx].value
    {
      v := items[idx].value;
    }

    method Remove(k: K)
      requires Valid()
      modifies this
      ensures Valid()
      ensures !old(HasKey(Contents(), k)) ==> Contents() == old(Contents())
      ensures old(HasKey(Contents(), k)) ==>
                exists i :: i in old(Contents()).rows && old(Contents()).rows[i].key == k
                            && Contents() == Vacate(old(Contents()), i)
    {
      hide Shape, RowsOf, Hashed;
      var idx := Find(k);
      if idx != -1 { RemoveAt(idx); }
    }

    method TryGetValue(k: K) returns (found: bool, v: V)
      requires Valid()
      ensures found == HasKey(Contents(), k)
      ensures found ==> exists i :: i in Contents().rows && Contents().rows[i] == Row(k, v)
    {
      v := *;
      var idx := Find(k);
      found := idx >= 0;
      if found { v := items[idx].value; }
    }

    method Clear()
      requires Valid()
      modifies this
      ensures Valid() && Contents() == View(map[], [], 0)
    {
      if count > 0 {
        buckets := seq(|buckets|, i => -1);
        freeList, freeCount, count := -1, 0, 0;
        chains, free := seq(|buckets|, i => []), [];
        NoRows(T(), chains);
        assert RowsOf(T()) == map[];
      } else {
        assert free == [] && RowsOf(T()) == map[];
      }
    }

    /** Gives the row at `idx` a new key. A key already used elsewhere is refused only if it
        belongs to another bucket; within the same bucket the check is skipped, and the key is
        then there twice. */
    method UpdateAt(idx: int, newKey: K) returns (ok: bool)
      requires Valid() && idx in Contents().rows
      modifies this
      ensures Sound() && |buckets| == old(|buckets|)
      ensures var s := old(Contents());
              && ok == !(Clash(s, idx, newKey) && !SameBucket(s, idx, newKey))
              && Contents() == if ok then s.(rows := s.rows[idx := Row(newKey, s.rows[idx].value)]) else s
      ensures var s := old(Contents());
              Valid() <==> !(Clash(s, idx, newKey) && SameBucket(s, idx, newKey))
    {
      ghost var s := Contents();
      var newHash := hash(newKey);
      var n := |buckets|;
      Rekey(s.rows, idx, newKey);
      if nodes[idx].hashCode % n == newHash % n {
        SetKey(T(), chains, free, hash, idx, newKey);
        hide Shape, RowsOf, Hashed;
        if nodes[idx].hashCode != newHash { nodes := nodes[idx := nodes[idx].(hashCode := newHash)]; }
        assert nodes == old(nodes)[idx := old(nodes)[idx].(hashCode := newHash)];
        items := items[idx := items[idx].(key := newKey)];
        return true;
      }
      hide Shape, RowsOf, Hashed;
      var other := Search(newHash, newKey);
      if other >= 0 { return false; }
      Move(idx, newHash, newKey);
      return true;
    }

    ghost predicate SameBucket(s: View<K, V>, idx: int, k: K)
      reads this
      requires idx in s.rows
    {
      |buckets| > 0 && hash(s.rows[idx].key) % |buckets| == hash(k) % |buckets|
    }

    /** Takes the row off one chain and puts it at the head of another. */
    method Move(idx: int, newHash: u32, newKey: K)
      requires Sound() && Live(T(), idx) && newHash == hash(newKey)
      modifies this`buckets, this`nodes, this`items, this`chains
      ensures Sound() && |buckets| == old(|buckets|)
      ensures var s := old(Contents());
              idx in s.rows && Contents() == s.(rows := s.rows[idx := Row(newKey, s.rows[idx].value)])
    {
      ghost var t0, b := T(), Bucket(T(), idx);
      ghost var p := PlaceOf(t0, chains, free, idx);
      UnlinkShape(t0, chains, free, b, p);
      UnlinkRows(t0, chains, free, hash, b, p);
      Neighbours(t0, chains, free, b, p);
      UnlinkKeeps(t0, idx);
      hide Shape, Hashed, Unlink, Without, HashedBut;
      var value := items[idx].value;
      Detach(idx);
      chains := chains[b := Without(chains[b], p)];
      Link(idx, newHash, newKey, value);
    }

    /** Twice the buckets or more; every row is linked in again under its new bucket. */
    method Grow()
      requires Valid() && count == |buckets| && free == []
      modifies this
      ensures Valid() && Contents() == old(Contents()) && count < |buckets| && free == []
    {
      ghost var t0 := T();
      AllLive(t0, chains);
      var n := prime(2 * count);
      var spare := items[0];
      buckets := seq(n, i => -1);
      nodes := nodes + seq(n - count, i => Slot(0, -1));
      items := items + seq(n - count, i => spare);
      chains := seq(n, i => []);
      hide Shape, RowsOf, Hashed;
      assert Shape(Upto(0), chains, [], -1) by { NoRows(Upto(0), chains); }
      for i := 0 to count
        invariant Upto(i).buckets == buckets && |buckets| == n > count && freeList == -1 && freeCount == 0 && free == []
        invariant count == t0.count && Sized(T())
        invariant Shape(Upto(i), chains, [], -1) && SameRows(t0, T())
      {
        RelinkOne(i, t0);
      }
      Relinked(t0, T(), chains, hash);
    }

    /** The table as if only the first `i` slots were in use. */
    ghost function Upto(i: nat): Table<K, V> reads this { T().(count := i) }

    method RelinkOne(i: nat, ghost t0: Table<K, V>)
      requires i < count < |buckets| && Sized(T()) && Shape(Upto(i), chains, [], -1) && SameRows(t0, T())
      modifies this`buckets, this`nodes, this`items, this`chains
      ensures Sized(T()) && |buckets| == old(|buckets|) && Shape(Upto(i + 1), chains, [], -1) && SameRows(t0, T())
    {
      ghost var t1 := Upto(i + 1);
      var b := nodes[i].hashCode % |buckets|;
      TakeNew(Upto(i), chains, []);
      LinkShape(t1, chains, [], i, nodes[i].hashCode, items[i].key, items[i].value);
      assert ChainOk(t1, b, chains[b]) by { ChainOfShape(t1, chains, [], i, b); }
      if chains[b] != [] { assert InChain(t1, b, chains[b], 0); }
      hide Shape;
      if buckets[b] >= 0 { items := items[buckets[b] := items[buckets[b]].(prev := i)]; }
      items := items[i := items[i].(prev := -1)];
      nodes := nodes[i := nodes[i].(next := buckets[b])];
      chains := chains[b := [i] + chains[b]];
      buckets := buckets[b := i];
      assert Upto(i + 1) == LinkHead(t1, i, t1.nodes[i].hashCode, t1.items[i].key, t1.items[i].value);
    }
  }

  /** Rows sit under their own hash, apart from the hole. */
  ghost predicate HashedBut<K, V>(t: Table<K, V>, hash: K -> u32, x: int) {
    forall i :: Live(t, i) && i != x ==> t.nodes[i].hashCode == hash(t.items[i].key)
  }

  lemma ChainOfShape<K, V>(t: Table<K, V>, cs: seq<seq<int>>, f: seq<int>, hole: int, b: nat)
    requires Shape(t, cs, f, hole) && b < |cs|
    ensures ChainOk(t, b, cs[b])
  {
  }

  /** With no free slot every slot in use holds a row. */
  lemma AllLive<K, V>(t: Table<K, V>, cs: seq<seq<int>>)
    requires Shape(t, cs, [], -1)
    ensures forall i :: 0 <= i < t.count ==> Live(t, i)
  {
    forall i | 0 <= i < t.count
      ensures Live(t, i)
    {
      assert Placed(t, cs, [], i);
    }
  }

  lemma NoRows<K, V>(t: Table<K, V>, cs: seq<seq<int>>)
    requires Sized(t) && t.count == 0 && t.freeList == -1 && t.freeCount == 0
    requires |cs| == |t.buckets| && forall b :: 0 <= b < |cs| ==> t.buckets[b] == -1 && cs[b] == []
    ensures Shape(t, cs, [], -1)
  {
    assert forall b :: 0 <= b < |cs| ==> ChainOk(t, b, cs[b]);
  }

  /** The slots of `t0` carry the same hash, key and value in `t`. */
  ghost predicate SameRows<K, V>(t0: Table<K, V>, t: Table<K, V>) {
    && Sized(t0) && Sized(t) && t.count == t0.count
    && forall i :: 0 <= i < t0.count ==>
         t.nodes[i].hashCode == t0.nodes[i].hashCode && t.items[i].key == t0.items[i].key
         && t.items[i].value == t0.items[i].value
  }

  lemma Relinked<K, V>(t0: Table<K, V>, t: Table<K, V>, cs: seq<seq<int>>, hash: K -> u32)
    requires SameRows(t0, t) && Shape(t, cs, [], -1) && Hashed(t0, hash)
    requires forall i :: 0 <= i < t0.count ==> Live(t0, i)
    ensures Hashed(t, hash) && RowsOf(t) == RowsOf(t0)
  {
    AllLive(t, cs);
    hide Shape;
    FullRows(t);
    FullRows(t0);
    assert RowsOf(t).Keys == RowsOf(t0).Keys;
  }

  lemma FullRows<K, V>(t: Table<K, V>)
    requires Sized(t) && forall i :: 0 <= i < t.count ==> Live(t, i)
    ensures forall i :: i in RowsOf(t) <==> 0 <= i < t.count
  {
    forall i | 0 <= i < t.count
      ensures i in RowsOf(t)
    {
      assert Live(t, i);
    }
  }

  /** Where a live slot stands on its chain. */
  ghost function PlaceOf<K, V>(t: Table<K, V>, cs: seq<seq<int>>, f: seq<int>, x: int): (p: nat)
    requires Shape(t, cs, f, -1) && Live(t, x)
    ensures var c := cs[Bucket(t, x)]; p < |c| && c[p] == x
  {
    assert Placed(t, cs, f, x);
    var c := cs[Bucket(t, x)];
    var p :| 0 <= p < |c| && c[p] == x;
    p
  }

  lemma RemoveShape<K, V>(t: Table<K, V>, cs: seq<seq<int>>, f: seq<int>, b: nat, p: nat)
    requires Shape(t, cs, f, -1) && b < |cs| && p < |cs[b]|
    ensures 0 <= cs[b][p] < t.count && Sized(Unlink(t, cs[b][p])) && cs[b][p] < Unlink(t, cs[b][p]).count
    ensures Shape(Release(Unlink(t, cs[b][p]), cs[b][p]), cs[b := Without(cs[b], p)], [cs[b][p]] + f, -1)
  {
    hide Shape;
    UnlinkShape(t, cs, f, b, p);
    SizedOf(t, cs, f);
    UnlinkKeeps(t, cs[b][p]);
    ReleaseShape(Unlink(t, cs[b][p]), cs[b := Without(cs[b], p)], f, cs[b][p]);
  }

  lemma Neighbours<K, V>(t: Table<K, V>, cs: seq<seq<int>>, f: seq<int>, b: nat, p: nat)
    requires Shape(t, cs, f, -1) && b < |cs| && p < |cs[b]|
    ensures var x := cs[b][p];
            && Sized(t) && 0 <= x < t.count
            && -1 <= t.items[x].prev < t.count && -1 <= t.nodes[x].next < t.count
  {
    assert ChainOk(t, b, cs[b]);
    assert InChain(t, b, cs[b], p);
    assert p > 0 ==> InChain(t, b, cs[b], p - 1);
    assert p + 1 < |cs[b]| ==> InChain(t, b, cs[b], p + 1);
  }

  lemma SizedOf<K, V>(t: Table<K, V>, cs: seq<seq<int>>, f: seq<int>)
    requires Shape(t, cs, f, -1)
    ensures Sized(t) && |cs| == |t.buckets|
  {
  }

  lemma RemoveRows<K, V>(t: Table<K, V>, cs: seq<seq<int>>, f: seq<int>, hash: K -> u32, b: nat, p: nat)
    requires Shape(t, cs, f, -1) && Hashed(t, hash) && b < |cs| && p < |cs[b]|
    ensures var x := cs[b][p];
            && 0 <= x < t.count && Sized(Unlink(t, x)) && x < Unlink(t, x).count
            && var t' := Release(Unlink(t, x), x);
            Sized(t') && Hashed(t', hash) && RowsOf(t') == RowsOf(t) - {x}
  {
    RemoveShape(t, cs, f, b, p);
    var x := cs[b][p];
    var t' := Release(Unlink(t, x), x);
    UnlinkKeeps(t, x);
    assert ChainsOk(t, cs);
    hide Shape, Unlink, ChainsOk;
    forall i | 0 <= i < t.count
      ensures t'.nodes[i].hashCode == t.nodes[i].hashCode && t'.items[i].key == t.items[i].key
      ensures t'.items[i].value == t.items[i].value
      ensures i != x ==> (t'.items[i].prev == DEAD <==> t.items[i].prev == DEAD)
    {
      UnlinkPrevs(t, cs, b, p, i);
    }
    assert t'.items[x].prev == DEAD;
    hide Release;
  }

  lemma UnlinkRows<K, V>(t: Table<K, V>, cs: seq<seq<int>>, f: seq<int>, hash: K -> u32, b: nat, p: nat)
    requires Shape(t, cs, f, -1) && Hashed(t, hash) && b < |cs| && p < |cs[b]|
    ensures var x := cs[b][p];
            && 0 <= x < t.count && Sized(Unlink(t, x))
            && HashedBut(Unlink(t, x), hash, x) && RowsOf(Unlink(t, x)) == RowsOf(t)
  {
    UnlinkShape(t, cs, f, b, p);
    var x := cs[b][p];
    var t' := Unlink(t, x);
    UnlinkKeeps(t, x);
    assert ChainsOk(t, cs);
    hide Shape, Unlink, ChainsOk;
    forall i | 0 <= i < t.count
      ensures t'.nodes[i].hashCode == t.nodes[i].hashCode && t'.items[i].key == t.items[i].key
      ensures t'.items[i].value == t.items[i].value && (t'.items[i].prev == DEAD <==> t.items[i].prev == DEAD)
    {
      UnlinkPrevs(t, cs, b, p, i);
    }
  }

  /** Another row already has the key. */
  ghost predicate Clash<K, V>(s: View<K, V>, idx: int, k: K) {
    exists j :: j in s.rows && j != idx && s.rows[j].key == k
  }

  lemma Rekey<K, V>(rows: map<int, Row<K, V>>, idx: int, k: K)
    requires Unique(rows) && idx in rows
    ensures Unique(rows[idx := Row(k, rows[idx].value)]) <==> !exists j :: j in rows && j != idx && rows[j].key == k
  {
    var rows' := rows[idx := Row(k, rows[idx].value)];
    if j :| j in rows && j != idx && rows[j].key == k {
      assert j in rows' && idx in rows' && rows'[j].key == rows'[idx].key;
    }
  }

  /** A new key in the same bucket leaves the links as they are. */
  lemma SetKey<K, V>(t: Table<K, V>, cs: seq<seq<int>>, f: seq<int>, hash: K -> u32, x: nat, k: K)
    requires Shape(t, cs, f, -1) && Hashed(t, hash) && Live(t, x)
    requires hash(k) % |t.buckets| == Bucket(t, x)
    ensures var t' := t.(nodes := t.nodes[x := t.nodes[x].(hashCode := hash(k))],
                         items := t.items[x := t.items[x].(key := k)]);
            && Shape(t', cs, f, -1) && Hashed(t', hash)
            && RowsOf(t') == RowsOf(t)[x := Row(k, t.items[x].value)]
  {
    var t' := t.(nodes := t.nodes[x := t.nodes[x].(hashCode := hash(k))],
                 items := t.items[x := t.items[x].(key := k)]);
    forall b | 0 <= b < |cs|
      ensures ChainOk(t', b, cs[b])
    {
      assert ChainOk(t, b, cs[b]);
      forall i | 0 <= i < |cs[b]|
        ensures InChain(t', b, cs[b], i)
      {
        assert InChain(t, b, cs[b], i);
      }
    }
    forall y | y in f
      ensures Untouched(t, t', y)
    {
    }
    FreeFrame(t, t', f);
    forall i | 0 <= i < t'.count
      ensures Placed(t', cs, f, i)
    {
      assert Placed(t, cs, f, i);
    }
    hide ChainsOk, FreeOk;
  }

  lemma Fewer<K, V>(rows: map<int, Row<K, V>>, i: int)
    requires Unique(rows)
    ensures Unique(rows - {i})
  {
  }

  lemma SameKey<K, V>(rows: map<int, Row<K, V>>, i: int, v: V)
    requires Unique(rows) && i in rows
    ensures Unique(rows[i := Row(rows[i].key, v)])
  {
  }

  lemma FreshKey<K, V>(rows: map<int, Row<K, V>>, i: int, k: K, v: V)
    requires Unique(rows) && forall j :: j in rows ==> rows[j].key != k
    ensures Unique(rows[i := Row(k, v)])
  {
  }

  lemma TakeFreeRows<K, V>(t: Table<K, V>, cs: seq<seq<int>>, f: seq<int>)
    requires Shape(t, cs, f, -1) && f != []
    ensures RowsOf(t) - {f[0]} == RowsOf(t)
  {
    assert f[0] !in RowsOf(t);
  }

  lemma LinkRows<K, V>(t: Table<K, V>, cs: seq<seq<int>>, f: seq<int>, hash: K -> u32, x: nat, h: u32, k: K, v: V)
    requires Shape(t, cs, f, x) && x < t.count && HashedBut(t, hash, x) && h == hash(k)
    ensures var t' := LinkHead(t, x, h, k, v);
            && Sized(t') && Hashed(t', hash)
            && RowsOf(t') == (RowsOf(t) - {x})[x := Row(k, v)]
  {
    var b := h % |t.buckets|;
    assert ChainOk(t, b, cs[b]);
    if cs[b] != [] { OnChainIsLive(t, cs, b, cs[b][0]); }
    hide Shape;
  }

  /** Replacing the row in a slot, links untouched. */
  lemma SetItem<K, V>(t: Table<K, V>, cs: seq<seq<int>>, f: seq<int>, hash: K -> u32, x: nat, item: Item<K, V>)
    requires Shape(t, cs, f, -1) && Hashed(t, hash) && Live(t, x) && item.prev == t.items[x].prev
    ensures var t' := t.(items := t.items[x := item]);
            && Shape(t', cs, f, -1)
            && RowsOf(t') == RowsOf(t)[x := Row(item.key, item.value)]
  {
    var t' := t.(items := t.items[x := item]);
    forall b | 0 <= b < |cs|
      ensures ChainOk(t', b, cs[b])
    {
      assert ChainOk(t, b, cs[b]);
      ChainFrame(t, t', b, cs[b]);
    }
    FreeFrame(t, t', f);
    forall i | 0 <= i < t'.count
      ensures Placed(t', cs, f, i)
    {
      assert Placed(t, cs, f, i);
    }
  }

  /** A key that is not on the chain of its own hash is nowhere. */
  lemma AbsentFromChain<K, V>(t: Table<K, V>, cs: seq<seq<int>>, f: seq<int>, hash: K -> u32, k: K)
    requires Shape(t, cs, f, -1) && Hashed(t, hash)
    requires var c := cs[hash(k) % |t.buckets|];
             forall j :: 0 <= j < |c| ==> 0 <= c[j] < |t.items| && t.items[c[j]].key != k
    ensures forall i :: i in RowsOf(t) ==> RowsOf(t)[i].key != k
  {
    forall i | i in RowsOf(t)
      ensures RowsOf(t)[i].key != k
    {
      assert Live(t, i) && Placed(t, cs, f, i);
      var c := cs[Bucket(t, i)];
      var j :| 0 <= j < |c| && c[j] == i;
    }
  }
}
