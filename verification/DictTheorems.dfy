/** The dictionary as a finite map, over whole runs. */
module DictTheorems {
  import opened Dict

  ghost predicate Holds<K, V>(rows: map<int, Row<K, V>>, k: K) { exists i :: i in rows && rows[i].key == k }

  /** The rows are the map: the same keys, each with its value. */
  ghost predicate Represents<K(!new), V>(rows: map<int, Row<K, V>>, m: map<K, V>) {
    && (forall k :: k in m ==> Holds(rows, k))
    && (forall i :: i in rows ==> rows[i].key in m && m[rows[i].key] == rows[i].value)
  }

  /** Slots: distinct free ones, none holding a row, and no others below `count`. */
  ghost predicate SlotsOk<K, V>(s: View<K, V>) {
    && Unique(s.rows)
    && (forall i :: i in s.rows ==> 0 <= i < s.count)
    && (forall i :: i in s.free ==> 0 <= i < s.count && i !in s.rows)
    && (forall i :: 0 <= i < s.count ==> i in s.rows || i in s.free)
    && (forall i, j :: 0 <= i < j < |s.free| ==> s.free[i] != s.free[j])
  }

  datatype Op<K, V> = Put(k: K, v: V, override: bool) | Delete(k: K) | Rename(k: K, newKey: K) | Wipe

  /** What the calls do to the view, as their contracts say: the slot of a present key is the
      one that holds it. */
  ghost function SlotOf<K, V>(s: View<K, V>, k: K): int
    requires HasKey(s, k)
  {
    var i :| i in s.rows && s.rows[i].key == k;
    i
  }

  ghost function Apply<K, V>(s: View<K, V>, op: Op<K, V>): View<K, V> {
    match op
    case Put(k, v, override) =>
      if !HasKey(s, k) then Occupy(s, k, v)
      else if override then s.(rows := s.rows[SlotOf(s, k) := Row(k, v)])
      else s
    case Delete(k) => if HasKey(s, k) then Vacate(s, SlotOf(s, k)) else s
    case Rename(k, k') =>
      if !HasKey(s, k) then s
      else s.(rows := s.rows[SlotOf(s, k) := Row(k', s.rows[SlotOf(s, k)].value)])
    case Wipe => View(map[], [], 0)
  }

  /** The same calls on a finite map. */
  function ApplyMap<K, V>(m: map<K, V>, op: Op<K, V>): map<K, V> {
    match op
    case Put(k, v, override) => if k in m && !override then m else m[k := v]
    case Delete(k) => m - {k}
    case Rename(k, k') => if k !in m then m else (m - {k})[k' := m[k]]
    case Wipe => map[]
  }

  /** Keys are renamed only to keys that are not in use. */
  ghost predicate Tame<K, V>(m: map<K, V>, op: Op<K, V>) { op.Rename? && op.k in m ==> op.newKey !in m }

  ghost predicate TameRun<K, V>(ops: seq<Op<K, V>>) {
    ops != [] ==> TameRun(ops[..|ops| - 1]) && Tame(RunMap(ops[..|ops| - 1]), ops[|ops| - 1])
  }

  ghost function RunView<K, V>(ops: seq<Op<K, V>>): View<K, V> {
    if ops == [] then View(map[], [], 0) else Apply(RunView(ops[..|ops| - 1]), ops[|ops| - 1])
  }

  function RunMap<K, V>(ops: seq<Op<K, V>>): map<K, V> {
    if ops == [] then map[] else ApplyMap(RunMap(ops[..|ops| - 1]), ops[|ops| - 1])
  }

  lemma OccupySlots<K, V>(s: View<K, V>, k: K, v: V)
    requires SlotsOk(s) && !HasKey(s, k)
    ensures SlotsOk(Occupy(s, k, v)) && NextSlot(s) !in s.rows
  {
    var s', x := Occupy(s, k, v), NextSlot(s);
    assert x !in s.rows;
    FreshKey(s.rows, x, k, v);
    forall i | 0 <= i < s'.count
      ensures i in s'.rows || i in s'.free
    {
      assert i == x || i in s.rows || i in s.free;
      if i in s.free && i != x {
        var j :| 0 <= j < |s.free| && s.free[j] == i;
        assert s'.free[j - 1] == i;
      }
    }
    hide Unique;
    forall i | i in s'.free
      ensures i in s.free && i != x
    {
      var j :| 0 <= j < |s'.free| && s'.free[j] == i;
      assert s.free[j + 1] == i;
    }
  }

  lemma VacateSlots<K, V>(s: View<K, V>, x: int)
    requires SlotsOk(s) && x in s.rows
    ensures SlotsOk(Vacate(s, x))
  {
    var s' := Vacate(s, x);
    Fewer(s.rows, x);
    assert s'.free[0] == x;
    forall i | 0 <= i < s'.count
      ensures i in s'.rows || i in s'.free
    {
      assert i in s.rows || i in s.free;
    }
    hide Unique;
  }

  lemma PutRefines<K(!new), V>(rows: map<int, Row<K, V>>, m: map<K, V>, x: int, k: K, v: V)
    requires Represents(rows, m) && (x in rows ==> rows[x].key == k)
    ensures Represents(rows[x := Row(k, v)], m[k := v]) || exists i :: i in rows && i != x && rows[i].key == k
  {
    var rows', m' := rows[x := Row(k, v)], m[k := v];
    forall key | key in m'
      ensures Holds(rows', key)
    {
      assert rows'[x].key == k;
      if key != k {
        assert Holds(rows, key);
        var i :| i in rows && rows[i].key == key;
        assert rows'[i].key == key;
      }
    }
  }

  lemma DeleteRefines<K(!new), V>(rows: map<int, Row<K, V>>, m: map<K, V>, x: int)
    requires Represents(rows, m) && Unique(rows) && x in rows
    ensures Represents(rows - {x}, m - {rows[x].key})
  {
    var rows', m' := rows - {x}, m - {rows[x].key};
    forall key | key in m'
      ensures Holds(rows', key)
    {
      assert Holds(rows, key);
      var i :| i in rows && rows[i].key == key;
      assert rows'[i].key == key;
    }
  }

  lemma RenameRefines<K(!new), V>(s: View<K, V>, m: map<K, V>, x: int, k: K)
    requires Represents(s.rows, m) && SlotsOk(s) && x in s.rows && forall i :: i in s.rows ==> s.rows[i].key != k
    ensures var rows := s.rows;
            var rows' := rows[x := Row(k, rows[x].value)];
            Represents(rows', (m - {rows[x].key})[k := rows[x].value]) && SlotsOk(s.(rows := rows'))
  {
    var rows := s.rows;
    var v := rows[x].value;
    DeleteRefines(rows, m, x);
    Fewer(rows, x);
    PutRefines(rows - {x}, m - {rows[x].key}, x, k, v);
    FreshKey(rows - {x}, x, k, v);
    assert (rows - {x})[x := Row(k, v)] == rows[x := Row(k, v)];
    hide Represents, Unique;
  }

  lemma OverwriteRefines<K(!new), V>(s: View<K, V>, m: map<K, V>, x: int, v: V)
    requires Represents(s.rows, m) && SlotsOk(s) && x in s.rows
    ensures var k := s.rows[x].key;
            var rows' := s.rows[x := Row(k, v)];
            Represents(rows', m[k := v]) && SlotsOk(s.(rows := rows'))
  {
    PutRefines(s.rows, m, x, s.rows[x].key, v);
    SameKey(s.rows, x, v);
    hide Represents;
  }

  lemma KeysAgree<K(!new), V>(s: View<K, V>, m: map<K, V>, k: K)
    requires Represents(s.rows, m)
    ensures HasKey(s, k) <==> k in m
    ensures HasKey(s, k) ==> m[k] == s.rows[SlotOf(s, k)].value
  {
    assert k in m ==> Holds(s.rows, k);
  }

  lemma StepRefines<K(!new), V>(s: View<K, V>, m: map<K, V>, op: Op<K, V>)
    requires SlotsOk(s) && Represents(s.rows, m) && Tame(m, op)
    ensures SlotsOk(Apply(s, op)) && Represents(Apply(s, op).rows, ApplyMap(m, op))
  {
    hide Represents, SlotsOk;
    match op
    case Put(k, v, override) =>
      KeysAgree(s, m, k);
      if !HasKey(s, k) {
        OccupySlots(s, k, v);
        PutRefines(s.rows, m, NextSlot(s), k, v);
      } else if override {
        OverwriteRefines(s, m, SlotOf(s, k), v);
      }
    case Delete(k) =>
      KeysAgree(s, m, k);
      if HasKey(s, k) {
        UniqueOf(s);
        VacateSlots(s, SlotOf(s, k));
        DeleteRefines(s.rows, m, SlotOf(s, k));
      } else {
        assert m - {k} == m;
      }
    case Rename(k, k') =>
      KeysAgree(s, m, k);
      KeysAgree(s, m, k');
      if HasKey(s, k) { RenameRefines(s, m, SlotOf(s, k), k'); }
    case Wipe =>
      Empty<K, V>();
  }

  lemma UniqueOf<K, V>(s: View<K, V>)
    requires SlotsOk(s)
    ensures Unique(s.rows)
  {
  }

  lemma Empty<K(!new), V>()
    ensures var s: View<K, V> := View(map[], [], 0); SlotsOk(s) && Represents(s.rows, map[])
  {
  }

  /** After any such run of calls the dictionary holds exactly what a finite map would, and its
      slots are exactly the rows and the free ones. */
  lemma {:induction false} DictIsAMap<K(!new), V>(ops: seq<Op<K, V>>)
    requires TameRun(ops)
    ensures SlotsOk(RunView(ops)) && Represents(RunView(ops).rows, RunMap(ops))
  {
    hide Apply, ApplyMap, SlotsOk, Represents;
    if ops == [] {
      Empty<K, V>();
    } else {
      DictIsAMap(ops[..|ops| - 1]);
      StepRefines(RunView(ops[..|ops| - 1]), RunMap(ops[..|ops| - 1]), ops[|ops| - 1]);
    }
  }

  /** Renaming within a bucket to a key in use leaves the key there twice: two rows, one bucket. */
  method RenameDoubles() returns (d: Dict<int, int>, i: int, j: int)
    ensures d.Sound() && !d.Valid() && i != j
    ensures d.Contents().rows == map[i := Row(2, 10), j := Row(2, 20)]
  {
    d := new Dict<int, int>((k: int) => 0, (n: nat) => n + 1, 16);
    var ok;
    ok, i := d.Add(1, 10, false);
    ok, j := d.Add(2, 20, false);
    ghost var s := d.Contents();
    assert s.rows == map[i := Row(1, 10), j := Row(2, 20)];
    assert j in s.rows && s.rows[j].key == 2;
    assert |d.buckets| > 0;
    hide Dict.Sound, RowsOf;
    ok := d.UpdateAt(i, 2);
  }
}
