/** The multi-key dictionary: one dictionary per key, kept in step so that a row has the same
    slot in each. Only the slot found through any key is used to reach the value. */
module DictEx {
  import opened Words
  import D = Dict

  // ----- slots in the order they will be handed out

  function Range(lo: nat, hi: nat): (r: seq<int>)
    requires lo <= hi
    ensures |r| == hi - lo && forall i :: 0 <= i < |r| ==> r[i] == lo + i
  {
    seq(hi - lo, i => lo + i)
  }

  /** The slots `s` will hand out next: the free ones, then those never used, up to `m`. */
  function Upcoming<K, V>(s: D.View<K, V>, m: nat): seq<int>
    requires s.count <= m
  {
    s.free + Range(s.count, m)
  }

  /** Both will hand out the same slots from now on. Their free lists and counts may differ:
      a rolled-back add leaves a slot free in one that the other has never used. */
  ghost predicate Aligned<K, V, W>(a: D.View<K, V>, b: D.View<K, W>) {
    forall m: nat :: a.count <= m && b.count <= m ==> Upcoming(a, m) == Upcoming(b, m)
  }

  lemma AlignedNext<K, V, W>(a: D.View<K, V>, b: D.View<K, W>)
    requires Aligned(a, b)
    ensures D.NextSlot(a) == D.NextSlot(b)
  {
    var m := a.count + b.count + 1;
    assert Upcoming(a, m)[0] == D.NextSlot(a) && Upcoming(b, m)[0] == D.NextSlot(b);
  }

  lemma UpcomingOccupy<K, V>(s: D.View<K, V>, k: K, v: V, m: nat)
    requires s.count < m
    ensures var s' := D.Occupy(s, k, v);
            s'.count <= m && Upcoming(s', m) == Upcoming(s, m)[1..]
  {
  }

  lemma UpcomingVacate<K, V>(s: D.View<K, V>, i: int, m: nat)
    requires s.count <= m
    ensures Upcoming(D.Vacate(s, i), m) == [i] + Upcoming(s, m)
  {
  }

  /** Adding to both keeps them aligned. */
  lemma OccupyAligned<K, V, W>(a: D.View<K, V>, b: D.View<K, W>, k: K, v: V, k': K, v': W)
    requires Aligned(a, b)
    ensures Aligned(D.Occupy(a, k, v), D.Occupy(b, k', v'))
  {
    var a', b' := D.Occupy(a, k, v), D.Occupy(b, k', v');
    forall m: nat | a'.count <= m && b'.count <= m
      ensures Upcoming(a', m) == Upcoming(b', m)
    {
      var n := m + a.count + b.count + 1;
      UpcomingOccupy(a, k, v, n);
      UpcomingOccupy(b, k', v', n);
      UpcomingCut(a', m, n);
      UpcomingCut(b', m, n);
    }
  }

  lemma UpcomingCut<K, V>(s: D.View<K, V>, m: nat, n: nat)
    requires s.count <= m <= n
    ensures |Upcoming(s, n)| >= n - m && Upcoming(s, m) == Upcoming(s, n)[..|Upcoming(s, n)| - (n - m)]
  {
  }

  /** Removing the same slot from both keeps them aligned. */
  lemma VacateAligned<K, V, W>(a: D.View<K, V>, b: D.View<K, W>, i: int)
    requires Aligned(a, b)
    ensures Aligned(D.Vacate(a, i), D.Vacate(b, i))
  {
    forall m: nat | a.count <= m && b.count <= m
      ensures Upcoming(D.Vacate(a, i), m) == Upcoming(D.Vacate(b, i), m)
    {
      UpcomingVacate(a, i, m);
      UpcomingVacate(b, i, m);
    }
  }

  /** Adding and taking back leaves what comes next unchanged, although a slot never used
      before is now a free one. */
  lemma RollbackAligned<K, V, W>(a: D.View<K, V>, b: D.View<K, W>, k: K, v: V)
    requires Aligned(a, b)
    ensures Aligned(D.Vacate(D.Occupy(a, k, v), D.NextSlot(a)), b)
  {
    var i := D.NextSlot(a);
    var a1 := D.Occupy(a, k, v);
    var a2 := D.Vacate(a1, i);
    forall m: nat | a2.count <= m && b.count <= m
      ensures Upcoming(a2, m) == Upcoming(b, m)
    {
      var n := m + a.count + 1;
      UpcomingOccupy(a, k, v, n);
      UpcomingVacate(a1, i, n);
      assert Upcoming(a, n)[0] == i;
      assert Upcoming(a2, n) == Upcoming(a, n) == Upcoming(b, n);
      UpcomingCut(a2, m, n);
      UpcomingCut(b, m, n);
    }
  }

  /** The same slots are in use, and the same will be handed out. */
  ghost predicate InStep<K, V, W>(a: D.View<K, V>, b: D.View<K, W>) {
    Aligned(a, b) && a.rows.Keys == b.rows.Keys
  }

  lemma OccupyInStep<K, V, W>(a: D.View<K, V>, b: D.View<K, W>, k: K, v: V, k': K, v': W)
    requires InStep(a, b)
    ensures InStep(D.Occupy(a, k, v), D.Occupy(b, k', v'))
  {
    AlignedNext(a, b);
    OccupyAligned(a, b, k, v, k', v');
    hide Aligned;
  }

  lemma EmptyInStep<K, V>()
    ensures InStep<K, V, int>(D.View(map[], [], 0), D.View(map[], [], 0))
  {
  }

  lemma VacateInStep<K, V, W>(a: D.View<K, V>, b: D.View<K, W>, i: int)
    requires InStep(a, b)
    ensures InStep(D.Vacate(a, i), D.Vacate(b, i))
  {
    VacateAligned(a, b, i);
    hide Aligned;
  }

  /** Undoing an add restores the rows and stays in step with any dictionary it was in step
      with, undone or not. */
  lemma RollbackInStep<K, V, W>(a: D.View<K, V>, b: D.View<K, W>, k: K, v: V)
    requires InStep(a, b) && D.NextSlot(a) !in a.rows
    ensures var a' := D.Vacate(D.Occupy(a, k, v), D.NextSlot(a));
            InStep(a', b) && a'.rows == a.rows
  {
    RollbackAligned(a, b, k, v);
    hide Aligned;
  }

  // ----- all of them as values

  /** The dictionaries as values: the first holds the values, the others the slots. */
  datatype Ex<K, V> = Ex(main: D.View<K, V>, rest: seq<D.View<K, int>>)

  ghost predicate Taken<K, V>(e: Ex<K, V>, j: nat, key: K)
    requires j <= |e.rest|
  {
    if j == 0 then D.HasKey(e.main, key) else D.HasKey(e.rest[j - 1], key)
  }

  /** A dictionary that accepted a row and gave it back. */
  function Undone<K, V>(s: D.View<K, V>, k: K, v: V): D.View<K, V> { D.Vacate(D.Occupy(s, k, v), D.NextSlot(s)) }

  ghost function FirstTaken<K, V>(e: Ex<K, V>, keys: seq<K>, j: nat): (r: nat)
    requires j <= |keys| == 1 + |e.rest|
    ensures j <= r <= |keys|
    ensures forall i :: j <= i < r ==> !Taken(e, i, keys[i])
    ensures r < |keys| ==> Taken(e, r, keys[r])
    decreases |keys| - j
  {
    if j == |keys| || Taken(e, j, keys[j]) then j else FirstTaken(e, keys, j + 1)
  }

  ghost function Added<K, V>(e: Ex<K, V>, value: V, keys: seq<K>): (r: Ex<K, V>)
    requires |keys| == 1 + |e.rest|
    ensures |r.rest| == |e.rest|
  {
    var n, slot := FirstTaken(e, keys, 0), D.NextSlot(e.main);
    if n == 0 then e
    else if n == |keys| then
      Ex(D.Occupy(e.main, keys[0], value),
         seq(|e.rest|, j requires 0 <= j < |e.rest| => D.Occupy(e.rest[j], keys[j + 1], slot)))
    else
      Ex(Undone(e.main, keys[0], value),
         seq(|e.rest|, j requires 0 <= j < |e.rest| =>
           if j + 1 < n then Undone(e.rest[j], keys[j + 1], slot) else e.rest[j]))
  }

  function Vacated<K, V>(e: Ex<K, V>, i: int): (r: Ex<K, V>)
    ensures |r.rest| == |e.rest|
  {
    Ex(D.Vacate(e.main, i), seq(|e.rest|, j requires 0 <= j < |e.rest| => D.Vacate(e.rest[j], i)))
  }

  ghost function Fresh<K, V>(n: nat): Ex<K, V> { Ex(D.View(map[], [], 0), seq(n, _ => D.View(map[], [], 0))) }

  lemma FirstTakenIs<K, V>(e: Ex<K, V>, keys: seq<K>, n: nat)
    requires n <= |keys| == 1 + |e.rest| && (forall i :: 0 <= i < n ==> !Taken(e, i, keys[i]))
    requires n < |keys| ==> Taken(e, n, keys[n])
    ensures FirstTaken(e, keys, 0) == n
  {
    hide Taken;
    var r := FirstTaken(e, keys, 0);
  }

  lemma AddedAll<K, V>(e: Ex<K, V>, value: V, keys: seq<K>, slot: int, e': Ex<K, V>)
    requires |keys| == 1 + |e.rest| && |e'.rest| == |e.rest| && !D.HasKey(e.main, keys[0])
    requires forall i :: 0 <= i < |e.rest| ==> !D.HasKey(e.rest[i], keys[i + 1])
    requires e'.main == D.Occupy(e.main, keys[0], value)
    requires slot == D.NextSlot(e.main) && forall i :: 0 <= i < |e.rest| ==> InStep(e.main, e.rest[i])
    requires forall i :: 0 <= i < |e.rest| ==> e'.rest[i] == D.Occupy(e.rest[i], keys[i + 1], slot)
    ensures e' == Added(e, value, keys) && e'.main.rows == e.main.rows[slot := D.Row(keys[0], value)]
    ensures forall i :: 0 <= i < |e.rest| ==>
              InStep(e'.main, e'.rest[i]) && e'.rest[i].rows == e.rest[i].rows[slot := D.Row(keys[i + 1], slot)]
  {
    hide D.HasKey, D.Occupy, InStep, D.NextSlot;
    FirstTakenIs(e, keys, |keys|);
    forall i | 0 <= i < |e.rest|
      ensures InStep(e'.main, e'.rest[i]) && e'.rest[i].rows == e.rest[i].rows[slot := D.Row(keys[i + 1], slot)]
    {
      SameNext(e.main, e.rest[i]);
      OccupyInStep(e.main, e.rest[i], keys[0], value, keys[i + 1], slot);
      OccupyRows(e.rest[i], keys[i + 1], slot);
    }
    OccupyRows(e.main, keys[0], value);
  }

  lemma AddedNone<K, V>(e: Ex<K, V>, value: V, keys: seq<K>, n: nat, e': Ex<K, V>)
    requires n < |keys| == 1 + |e.rest| && |e'.rest| == |e.rest| && (n > 0 ==> !D.HasKey(e.main, keys[0]))
    requires forall i :: 0 <= i < n - 1 ==> !D.HasKey(e.rest[i], keys[i + 1])
    requires Taken(e, n, keys[n])
    requires e'.main == if n == 0 then e.main else Undone(e.main, keys[0], value)
    requires forall i :: 0 <= i < |e.rest| ==>
               e'.rest[i] == if i < n - 1 then Undone(e.rest[i], keys[i + 1], D.NextSlot(e.main)) else e.rest[i]
    ensures e' == Added(e, value, keys)
  {
    hide D.HasKey, Undone;
    FirstTakenIs(e, keys, n);
  }

  class DictEx<K(==, 0), V(0)> {
    const main: D.Dict<K, V>
    const rest: seq<D.Dict<K, int>>

    ghost predicate Distinct() {
      && (forall j :: 0 <= j < |rest| ==> (rest[j] as object) != main)
      && (forall i, j :: 0 <= i < j < |rest| ==> rest[i] != rest[j])
    }

    ghost predicate Valid()
      reads this, main, rest
    {
      && Distinct() && main.Valid()
      && forall j :: 0 <= j < |rest| ==> rest[j].Valid() && InStep(main.Contents(), rest[j].Contents())
    }

    /** One dictionary per hash function, each with the default capacity. */
    constructor (hashes: seq<K -> u32>, prime: nat -> nat)
      requires |hashes| >= 1 && prime(16) > 0 && forall n: nat :: n > 0 ==> prime(2 * n) > n
      ensures Valid() && fresh(main) && AsValues() == Fresh(|hashes| - 1)
      ensures forall j :: 0 <= j < |rest| ==> fresh(rest[j])
    {
      var first := new D.Dict<K, V>(hashes[0], prime, 16);
      var others: seq<D.Dict<K, int>> := [];
      for i := 1 to |hashes|
        invariant |others| == i - 1
        invariant first.Valid() && first.Contents() == D.View(map[], [], 0) && fresh(first)
        invariant forall j :: 0 <= j < |others| ==>
                    && fresh(others[j]) && others[j].Valid() && others[j].Contents() == D.View(map[], [], 0)
                    && (others[j] as object) != first
        invariant forall a, b :: 0 <= a < b < |others| ==> others[a] != others[b]
      {
        var d := new D.Dict<K, int>(hashes[i], prime, 16);
        others := others + [d];
      }
      main := first;
      rest := others;
      new;
      hide D.Dict.Valid, D.Dict.Contents, InStep;
      EmptyInStep<K, V>();
    }

    ghost function AsValues(): Ex<K, V>
      reads main, rest
    {
      Ex(main.Contents(), seq(|rest|, i requires 0 <= i < |rest| reads rest => rest[i].Contents()))
    }

    /** Every row the table holds, by slot: key number `j` of the row. */
    ghost function KeyOf(j: nat, i: int): K
      reads this, main, rest
      requires Valid() && j <= |rest| && i in main.Contents().rows
    {
      if j == 0 then main.Contents().rows[i].key
      else
        assert InStep(main.Contents(), rest[j - 1].Contents());
        rest[j - 1].Contents().rows[i].key
    }

    ghost predicate HasRow(j: nat, key: K)
      reads this, main, rest
      requires Valid() && j <= |rest|
    {
      exists i :: i in main.Contents().rows && KeyOf(j, i) == key
    }

    method RemoveFrom(n: nat, idx: int)
      requires n <= |rest| && Distinct()
      requires main.Valid() && idx in main.Contents().rows
      requires forall j :: 0 <= j < n ==> rest[j].Valid() && idx in rest[j].Contents().rows
      modifies main, rest[..n]
      ensures main.Valid() && main.Contents() == D.Vacate(old(main.Contents()), idx)
      ensures forall j :: 0 <= j < n ==>
                rest[j].Valid() && rest[j].Contents() == D.Vacate(old(rest[j].Contents()), idx)
    {
      hide D.Dict.Valid, D.Dict.Contents, D.Vacate;
      var j := n;
      while j > 0
        invariant 0 <= j <= n
        invariant forall i :: 0 <= i < j ==>
                    rest[i].Valid() && unchanged(rest[i])
        invariant forall i :: j <= i < n ==>
                    rest[i].Valid() && rest[i].Contents() == D.Vacate(old(rest[i].Contents()), idx)
        invariant unchanged(main)
      {
        j := j - 1;
        rest[j].RemoveAt(idx);
      }
      main.RemoveAt(idx);
    }

    method RemoveAt(idx: int)
      requires Valid() && idx in main.Contents().rows
      modifies main, rest
      ensures Valid() && AsValues() == Vacated(old(AsValues()), idx)
    {
      assert rest[..|rest|] == rest;
      RemoveFrom(|rest|, idx);
      forall j | 0 <= j < |rest|
        ensures InStep(main.Contents(), rest[j].Contents())
      {
        VacateInStep(old(main.Contents()), old(rest[j].Contents()), idx);
      }
    }

    /** Takes back what the main dictionary and the first `j` others accepted; `m0` and `ds`
        are what they held before. */
    method Undo(j: nat, slot: int, value: V, keys: seq<K>, ghost m0: D.View<K, V>, ghost ds: seq<D.View<K, int>>)
      requires j <= |rest| == |ds| && |keys| == 1 + |rest| && Distinct()
      requires slot == D.NextSlot(m0) && slot !in m0.rows && forall i :: 0 <= i < |ds| ==> InStep(m0, ds[i])
      requires main.Valid() && main.Contents() == D.Occupy(m0, keys[0], value)
      requires forall i :: 0 <= i < j ==> rest[i].Valid() && rest[i].Contents() == D.Occupy(ds[i], keys[i + 1], slot)
      requires forall i :: j <= i < |rest| ==> rest[i].Valid() && rest[i].Contents() == ds[i]
      modifies main, rest[..j]
      ensures Valid() && main.Contents().rows == m0.rows && main.Contents() == Undone(m0, keys[0], value)
      ensures forall i :: 0 <= i < |rest| ==> rest[i].Contents().rows == ds[i].rows
      ensures forall i :: 0 <= i < |rest| ==>
                rest[i].Contents() == if i < j then Undone(ds[i], keys[i + 1], slot) else ds[i]
    {
      hide D.Dict.Valid, D.Dict.Contents, D.Occupy, D.Vacate, D.NextSlot, InStep, D.HasKey;
      OccupyRows(m0, keys[0], value);
      forall i | 0 <= i < j
        ensures slot in rest[i].Contents().rows
      {
        SameNext(m0, ds[i]);
        OccupyRows(ds[i], keys[i + 1], slot);
      }
      RemoveFrom(j, slot);
      assert forall i :: j <= i < |rest| ==> rest[i] !in rest[..j];
      RollbackRows(m0, keys[0], value);
      forall i | 0 <= i < |rest|
        ensures InStep(main.Contents(), rest[i].Contents()) && rest[i].Contents().rows == ds[i].rows
      {
        UndoneInStep(m0, ds[i], keys[0], value, keys[i + 1], slot);
      }
      forall i | 0 <= i < j
        ensures rest[i].Contents() == Undone(ds[i], keys[i + 1], slot)
      {
        SameNext(m0, ds[i]);
      }
    }

    /** Adds the row under all its keys, or under none: if any key is taken, what the earlier
        dictionaries had accepted is taken back. */
    method Add(value: V, keys: seq<K>) returns (success: bool, index: int)
      requires Valid() && |keys| == 1 + |rest|
      modifies main, rest
      ensures Valid()
      ensures success <==> !old(D.HasKey(main.Contents(), keys[0]))
                           && forall j :: 0 <= j < |rest| ==> !old(D.HasKey(rest[j].Contents(), keys[j + 1]))
      ensures success ==> index == D.NextSlot(old(main.Contents()))
      ensures !success ==> index in old(main.Contents()).rows
                           && exists j :: 0 <= j <= |rest| && old(KeyOf(j, index)) == keys[j]
      ensures AsValues() == Added(old(AsValues()), value, keys)
      ensures main.Contents().rows == if success then old(main.Contents()).rows[index := D.Row(keys[0], value)]
                                      else old(main.Contents()).rows
      ensures forall j :: 0 <= j < |rest| ==>
                var was := old(rest[j].Contents()).rows;
                rest[j].Contents().rows == if success then was[index := D.Row(keys[j + 1], index)] else was
    {
      hide D.Dict.Valid, D.Dict.Contents, D.Occupy, D.Vacate, D.NextSlot, InStep, D.HasKey, Added, Undone;
      ghost var e := AsValues();
      assert forall i :: 0 <= i < |rest| ==> InStep(e.main, e.rest[i]);
      main.NextIsFresh();
      success, index := main.Add(keys[0], value, false);
      if !success {
        assert old(KeyOf(0, index)) == keys[0];
        AddedNone(e, value, keys, 0, AsValues());
        return;
      }
      var slot := index;
      success, index := AddOthers(slot, value, keys, e);
      ghost var e' := AsValues();
      assert forall i :: 0 <= i < |rest| ==> rest[i].Contents() == e'.rest[i] && old(rest[i].Contents()) == e.rest[i];
      if success {
        AddedAll(e, value, keys, slot, e');
      } else {
        ghost var j :| 0 <= j < |rest| && RowHas(e, j, index, keys);
        assert old(KeyOf(j + 1, index)) == keys[j + 1];
      }
    }

    /** The other dictionaries take the row in turn; if one refuses, all give it back. `e` is what
        they held before. */
    method AddOthers(slot: int, value: V, keys: seq<K>, ghost e: Ex<K, V>) returns (ok: bool, index: int)
      requires |rest| == |e.rest| && |keys| == 1 + |rest| && Distinct() && !D.HasKey(e.main, keys[0])
      requires slot == D.NextSlot(e.main) && slot !in e.main.rows
               && forall i :: 0 <= i < |rest| ==> InStep(e.main, e.rest[i])
      requires main.Valid() && main.Contents() == D.Occupy(e.main, keys[0], value)
      requires forall i :: 0 <= i < |rest| ==> rest[i].Valid() && rest[i].Contents() == e.rest[i]
      modifies main, rest
      ensures main.Valid() && forall i :: 0 <= i < |rest| ==> rest[i].Valid()
      ensures ok <==> forall i :: 0 <= i < |rest| ==> !D.HasKey(e.rest[i], keys[i + 1])
      ensures ok ==> index == slot && main.Contents() == D.Occupy(e.main, keys[0], value)
      ensures ok ==> forall i :: 0 <= i < |rest| ==> rest[i].Contents() == D.Occupy(e.rest[i], keys[i + 1], slot)
      ensures !ok ==> Valid() && AsValues() == Added(e, value, keys) && main.Contents().rows == e.main.rows
      ensures !ok ==> forall i :: 0 <= i < |rest| ==> rest[i].Contents().rows == e.rest[i].rows
      ensures !ok ==> index in e.main.rows && exists j :: 0 <= j < |rest| && RowHas(e, j, index, keys)
    {
      hide D.Dict.Valid, D.Dict.Contents, D.Occupy, D.Vacate, D.NextSlot, InStep, D.HasKey, Added, Undone;
      index := slot;
      var j := 0;
      while j < |rest|
        invariant 0 <= j <= |rest| && index == slot
        invariant unchanged(main)
        invariant forall i :: 0 <= i < j ==> !D.HasKey(e.rest[i], keys[i + 1])
        invariant forall i :: 0 <= i < j ==>
                    rest[i].Valid() && rest[i].Contents() == D.Occupy(e.rest[i], keys[i + 1], slot)
        invariant forall i :: j <= i < |rest| ==> unchanged(rest[i])
      {
        SameNext(e.main, e.rest[j]);
        ok, index := rest[j].Add(keys[j + 1], slot, false);
        if !ok {
          assert RowHas(e, j, index, keys);
          RowsAgree(e.main, e.rest[j]);
          Undo(j, slot, value, keys, e.main, e.rest);
          AddedNone(e, value, keys, j + 1, AsValues());
          return;
        }
        j := j + 1;
      }
      ok := true;
    }

    ghost predicate RowHas(e: Ex<K, V>, j: nat, i: int, keys: seq<K>)
      requires j < |e.rest| && j + 1 < |keys|
    {
      i in e.rest[j].rows && e.rest[j].rows[i].key == keys[j + 1]
    }

    /** The slot of the row whose key number `j` is `key`, or -1. */
    method Find(j: nat, key: K) returns (idx: int)
      requires Valid() && j <= |rest|
      ensures idx == -1 ==> forall i :: i in main.Contents().rows ==> KeyOf(j, i) != key
      ensures idx != -1 ==> idx in main.Contents().rows && KeyOf(j, idx) == key
    {
      hide D.Dict.Contents, Aligned;
      if j == 0 {
        idx := main.Find(key);
      } else {
        assert InStep(main.Contents(), rest[j - 1].Contents());
        idx := rest[j - 1].Find(key);
      }
    }

    /** A value is found through any of its row's keys, and it is that row's value. */
    method TryGetValue(j: nat, key: K) returns (found: bool, v: V)
      requires Valid() && j <= |rest|
      ensures found <==> HasRow(j, key)
      ensures found ==> exists i ::
                  i in main.Contents().rows && KeyOf(j, i) == key && main.Contents().rows[i].value == v
    {
      hide D.Dict.Contents, InStep, KeyOf;
      v := *;
      var idx := Find(j, key);
      found := idx != -1;
      if found { v := main.ValueAt(idx); }
    }

    /** The whole row goes, whichever of its keys it was named by. */
    method Remove(j: nat, key: K) returns (found: bool)
      requires Valid() && j <= |rest|
      modifies main, rest
      ensures Valid()
      ensures found <==> old(HasRow(j, key))
      ensures !found ==> AsValues() == old(AsValues())
      ensures found ==> exists i :: i in old(main.Contents()).rows && old(KeyOf(j, i)) == key
                                    && AsValues() == Vacated(old(AsValues()), i)
    {
      hide D.Dict.Contents, InStep, KeyOf, D.Vacate;
      var idx := Find(j, key);
      found := idx != -1;
      assert found <==> HasRow(j, key);
      if found { RemoveAt(idx); }
    }
  }

  lemma RowsAgree<K, V, W>(a: D.View<K, V>, b: D.View<K, W>)
    requires InStep(a, b)
    ensures a.rows.Keys == b.rows.Keys
  {
  }

  lemma RollbackRows<K, V>(s: D.View<K, V>, k: K, v: V)
    requires D.NextSlot(s) !in s.rows
    ensures D.Vacate(D.Occupy(s, k, v), D.NextSlot(s)).rows == s.rows
  {
  }

  /** After an undo the main dictionary is in step with the others, whether they had accepted
      the row and gave it back or had never seen it. */
  lemma UndoneInStep<K, V, W>(a: D.View<K, V>, b: D.View<K, W>, k: K, v: V, k': K, v': W)
    requires InStep(a, b) && D.NextSlot(a) !in a.rows
    ensures var i := D.NextSlot(a);
            && InStep(D.Vacate(D.Occupy(a, k, v), i), D.Vacate(D.Occupy(b, k', v'), i))
            && InStep(D.Vacate(D.Occupy(a, k, v), i), b)
            && D.Vacate(D.Occupy(b, k', v'), i).rows == b.rows
  {
    SameNext(a, b);
    OccupyInStep(a, b, k, v, k', v');
    VacateInStep(D.Occupy(a, k, v), D.Occupy(b, k', v'), D.NextSlot(a));
    RollbackInStep(a, b, k, v);
    assert D.NextSlot(b) !in b.rows;
    RollbackRows(b, k', v');
  }

  lemma SameNext<K, V, W>(a: D.View<K, V>, b: D.View<K, W>)
    requires InStep(a, b)
    ensures D.NextSlot(a) == D.NextSlot(b)
  {
    AlignedNext(a, b);
  }

  lemma OccupyRows<K, V>(s: D.View<K, V>, k: K, v: V)
    ensures D.Occupy(s, k, v).rows == s.rows[D.NextSlot(s) := D.Row(k, v)]
  {
  }
}
