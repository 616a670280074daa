/** The multi-key dictionary over whole runs, against a plain set of rows. */
module DictExTheorems {
  import D = Dict
  import T = DictTheorems
  import opened X = DictEx

  /** A row as it was added: all its keys, and its value. */
  datatype Full<K, V> = Full(keys: seq<K>, value: V)

  datatype Op<K, V> = Add(value: V, keys: seq<K>) | Remove(j: nat, key: K)

  function KeyAt<K, V>(e: Ex<K, V>, j: nat, i: int): K
    requires j <= |e.rest| && i in e.main.rows && (j > 0 ==> i in e.rest[j - 1].rows)
  {
    if j == 0 then e.main.rows[i].key else e.rest[j - 1].rows[i].key
  }

  /** All in step with the first, and no key twice in any. */
  ghost predicate Inv<K, V>(e: Ex<K, V>) {
    && T.SlotsOk(e.main)
    && forall j :: 0 <= j < |e.rest| ==> X.InStep(e.main, e.rest[j]) && D.Unique(e.rest[j].rows)
  }

  ghost function RowAt<K, V>(e: Ex<K, V>, i: int): Full<K, V>
    requires Inv(e) && i in e.main.rows
  {
    Full(seq(1 + |e.rest|, j requires 0 <= j < 1 + |e.rest| => InAll(e, i); KeyAt(e, j, i)), e.main.rows[i].value)
  }

  lemma InAll<K, V>(e: Ex<K, V>, i: int)
    requires Inv(e) && i in e.main.rows
    ensures forall j :: 0 <= j < |e.rest| ==> i in e.rest[j].rows
  {
    forall j | 0 <= j < |e.rest|
      ensures i in e.rest[j].rows
    {
      X.RowsAgree(e.main, e.rest[j]);
    }
  }

  ghost function Table<K(!new), V(!new)>(e: Ex<K, V>): iset<Full<K, V>>
    requires Inv(e)
  {
    iset i | i in e.main.rows :: RowAt(e, i)
  }

  // ----- what the calls do

  /** The slot the `j`-th dictionary finds the key in. */
  ghost function SlotOf<K, V>(e: Ex<K, V>, j: nat, key: K): int
    requires j <= |e.rest| && Taken(e, j, key)
  {
    if j == 0 then T.SlotOf(e.main, key) else T.SlotOf(e.rest[j - 1], key)
  }

  /** A call that suits `n` dictionaries besides the first. */
  ghost predicate Suits<K, V>(n: nat, op: Op<K, V>) {
    match op
    case Add(_, keys) => |keys| == 1 + n
    case Remove(j, _) => j <= n
  }

  ghost function Apply<K, V>(e: Ex<K, V>, op: Op<K, V>): (r: Ex<K, V>)
    requires Suits(|e.rest|, op)
    ensures |r.rest| == |e.rest|
  {
    match op
    case Add(value, keys) => Added(e, value, keys)
    case Remove(j, key) => if Taken(e, j, key) then Vacated(e, SlotOf(e, j, key)) else e
  }

  /** The same calls on the set of rows. */
  ghost function ApplyRows<K(!new), V(!new)>(rows: iset<Full<K, V>>, op: Op<K, V>): iset<Full<K, V>> {
    match op
    case Add(value, keys) =>
      if exists r <- rows, j :: 0 <= j < |keys| && j < |r.keys| && r.keys[j] == keys[j] then rows
      else rows + iset{Full(keys, value)}
    case Remove(j, key) => iset r | r in rows && !(j < |r.keys| && r.keys[j] == key)
  }

  // ----- the table and the dictionaries

  /** A key is taken in the `j`-th dictionary exactly if a row has it as its `j`-th key. */
  lemma TakenIffRow<K(!new), V(!new)>(e: Ex<K, V>, j: nat, key: K)
    requires Inv(e) && j <= |e.rest|
    ensures Taken(e, j, key) <==> exists r <- Table(e) :: r.keys[j] == key
    ensures Taken(e, j, key) ==> SlotOf(e, j, key) in e.main.rows && RowAt(e, SlotOf(e, j, key)).keys[j] == key
  {
    if j > 0 { X.RowsAgree(e.main, e.rest[j - 1]); }
    if Taken(e, j, key) {
      var i := SlotOf(e, j, key);
      assert RowAt(e, i) in Table(e);
    }
    forall r <- Table(e) | r.keys[j] == key
      ensures Taken(e, j, key)
    {
      var i :| i in e.main.rows && RowAt(e, i) == r;
      InAll(e, i);
    }
  }

  /** Two rows that share a key are one. */
  lemma KeysAreUnique<K(!new), V(!new)>(e: Ex<K, V>, i: int, i': int, j: nat)
    requires Inv(e) && j <= |e.rest| && i in e.main.rows && i' in e.main.rows
    requires RowAt(e, i).keys[j] == RowAt(e, i').keys[j]
    ensures i == i'
  {
    InAll(e, i);
    InAll(e, i');
    T.UniqueOf(e.main);
  }

  /** The table depends on the rows alone, not on the free slots. */
  lemma SameRows<K(!new), V(!new)>(e: Ex<K, V>, e': Ex<K, V>)
    requires Inv(e) && Inv(e') && |e'.rest| == |e.rest| && e'.main.rows == e.main.rows
    requires forall j :: 0 <= j < |e.rest| ==> e'.rest[j].rows == e.rest[j].rows
    ensures Table(e') == Table(e)
  {
    forall i <- e.main.rows
      ensures RowAt(e', i) == RowAt(e, i)
    {
      InAll(e, i);
      InAll(e', i);
    }
  }

  // ----- adding

  lemma AcceptedInv<K, V>(e: Ex<K, V>, value: V, keys: seq<K>)
    requires Inv(e) && |keys| == 1 + |e.rest| && FirstTaken(e, keys, 0) == |keys|
    ensures Inv(Added(e, value, keys)) && D.NextSlot(e.main) !in e.main.rows
    ensures forall j :: 0 <= j < |e.rest| ==> D.NextSlot(e.rest[j]) == D.NextSlot(e.main)
  {
    hide X.Aligned, T.SlotsOk;
    var e', slot := Added(e, value, keys), D.NextSlot(e.main);
    assert !Taken(e, 0, keys[0]);
    T.OccupySlots(e.main, keys[0], value);
    forall j | 0 <= j < |e.rest|
      ensures D.NextSlot(e.rest[j]) == slot && X.InStep(e'.main, e'.rest[j]) && D.Unique(e'.rest[j].rows)
    {
      X.SameNext(e.main, e.rest[j]);
      X.OccupyInStep(e.main, e.rest[j], keys[0], value, keys[j + 1], slot);
      assert !Taken(e, j + 1, keys[j + 1]);
      D.FreshKey(e.rest[j].rows, slot, keys[j + 1], slot);
    }
  }

  lemma AcceptedTable<K(!new), V(!new)>(e: Ex<K, V>, value: V, keys: seq<K>)
    requires Inv(e) && |keys| == 1 + |e.rest| && FirstTaken(e, keys, 0) == |keys|
    ensures Inv(Added(e, value, keys)) && Table(Added(e, value, keys)) == Table(e) + iset{Full(keys, value)}
  {
    AcceptedInv(e, value, keys);
    var e', slot := Added(e, value, keys), D.NextSlot(e.main);
    hide X.InStep, T.SlotsOk, D.Unique;
    InAll(e', slot);
    assert RowAt(e', slot) == Full(keys, value);
    forall i <- e.main.rows
      ensures RowAt(e', i) == RowAt(e, i)
    {
      InAll(e, i);
      InAll(e', i);
    }
    assert forall i <- e'.main.rows :: i == slot || i in e.main.rows;
  }

  lemma RefusedInv<K(!new), V(!new)>(e: Ex<K, V>, value: V, keys: seq<K>)
    requires Inv(e) && |keys| == 1 + |e.rest| && FirstTaken(e, keys, 0) < |keys|
    ensures Inv(Added(e, value, keys)) && Table(Added(e, value, keys)) == Table(e)
  {
    hide X.Aligned, T.SlotsOk;
    var e', slot, n := Added(e, value, keys), D.NextSlot(e.main), FirstTaken(e, keys, 0);
    if n > 0 {
      assert !Taken(e, 0, keys[0]);
      T.OccupySlots(e.main, keys[0], value);
      T.VacateSlots(D.Occupy(e.main, keys[0], value), slot);
      X.RollbackRows(e.main, keys[0], value);
      forall j | 0 <= j < |e.rest|
        ensures X.InStep(e'.main, e'.rest[j]) && e'.rest[j].rows == e.rest[j].rows
      {
        X.SameNext(e.main, e.rest[j]);
        X.UndoneInStep(e.main, e.rest[j], keys[0], value, keys[j + 1], slot);
      }
      SameRows(e, e');
    }
  }

  // ----- removing

  lemma VacatedInv<K, V>(e: Ex<K, V>, i: int)
    requires Inv(e) && i in e.main.rows
    ensures Inv(Vacated(e, i))
  {
    var e' := Vacated(e, i);
    T.VacateSlots(e.main, i);
    forall j | 0 <= j < |e.rest|
      ensures X.InStep(e'.main, e'.rest[j]) && D.Unique(e'.rest[j].rows)
    {
      X.VacateInStep(e.main, e.rest[j], i);
      D.Fewer(e.rest[j].rows, i);
    }
  }

  lemma VacatedTable<K(!new), V(!new)>(e: Ex<K, V>, i: int, j: nat)
    requires Inv(e) && i in e.main.rows && j <= |e.rest|
    ensures Inv(Vacated(e, i))
    ensures Table(Vacated(e, i)) == iset r | r in Table(e) && r.keys[j] != RowAt(e, i).keys[j]
  {
    VacatedInv(e, i);
    var e' := Vacated(e, i);
    hide X.InStep, T.SlotsOk, D.Unique;
    forall x <- e'.main.rows
      ensures x in e.main.rows && RowAt(e', x) == RowAt(e, x) && RowAt(e, x).keys[j] != RowAt(e, i).keys[j]
    {
      InAll(e, x);
      InAll(e', x);
      if RowAt(e, x).keys[j] == RowAt(e, i).keys[j] { KeysAreUnique(e, x, i, j); }
    }
    forall r <- Table(e) | r.keys[j] != RowAt(e, i).keys[j]
      ensures r in Table(e')
    {
      var x :| x in e.main.rows && RowAt(e, x) == r;
      assert x in e'.main.rows;
    }
  }

  // ----- every run

  /** One call on the dictionaries is one call on the set of rows. */
  lemma StepRefines<K(!new), V(!new)>(e: Ex<K, V>, op: Op<K, V>)
    requires Inv(e) && Suits(|e.rest|, op)
    ensures Inv(Apply(e, op)) && Table(Apply(e, op)) == ApplyRows(Table(e), op)
  {
    hide Inv;
    assert forall r <- Table(e) :: |r.keys| == 1 + |e.rest|;
    match op
    case Add(value, keys) =>
      var n := FirstTaken(e, keys, 0);
      forall j | 0 <= j < |keys|
        ensures Taken(e, j, keys[j]) <==> exists r <- Table(e) :: r.keys[j] == keys[j]
      {
        TakenIffRow(e, j, keys[j]);
      }
      if n == |keys| { AcceptedTable(e, value, keys); } else { RefusedInv(e, value, keys); }
    case Remove(j, key) =>
      TakenIffRow(e, j, key);
      if Taken(e, j, key) { VacatedTable(e, SlotOf(e, j, key), j); }
  }

  ghost predicate Runs<K, V>(n: nat, ops: seq<Op<K, V>>) { forall op <- ops :: Suits(n, op) }

  ghost function Run<K, V>(n: nat, ops: seq<Op<K, V>>): (r: Ex<K, V>)
    requires Runs(n, ops)
    ensures |r.rest| == n
  {
    if ops == [] then Fresh(n)
    else
      assert ops[|ops| - 1] in ops;
      Apply(Run(n, ops[..|ops| - 1]), ops[|ops| - 1])
  }

  ghost function RunRows<K(!new), V(!new)>(ops: seq<Op<K, V>>): iset<Full<K, V>> {
    if ops == [] then iset{} else ApplyRows(RunRows(ops[..|ops| - 1]), ops[|ops| - 1])
  }

  /** After any run of adds, refused or not at whichever key, and removals by whichever key, the
      dictionaries are in step and hold exactly the rows that were added under all their keys
      and not removed since. */
  lemma {:induction false} RowsStayTogether<K(!new), V(!new)>(n: nat, ops: seq<Op<K, V>>)
    requires Runs(n, ops)
    ensures Inv(Run(n, ops)) && Table(Run(n, ops)) == RunRows(ops)
  {
    if ops == [] {
      var e := Run(n, ops);
      forall j | 0 <= j < n
        ensures X.InStep(e.main, e.rest[j])
      {
        assert e.rest[j] == D.View(map[], [], 0);
      }
    } else {
      hide Inv, Apply, ApplyRows;
      var m := |ops| - 1;
      assert ops[m] in ops;
      RowsStayTogether(n, ops[..m]);
      StepRefines(Run(n, ops[..m]), ops[m]);
    }
  }

  /** What is found through the `j`-th key of a row is that row's value. */
  lemma FoundThroughAnyKey<K(!new), V(!new)>(n: nat, ops: seq<Op<K, V>>, j: nat, key: K)
    requires Runs(n, ops) && j <= n
    ensures Taken(Run(n, ops), j, key) <==> exists r <- RunRows(ops) :: j < |r.keys| && r.keys[j] == key
    ensures Taken(Run(n, ops), j, key) ==>
      var e := Run(n, ops);
      var i := SlotOf(e, j, key);
      i in e.main.rows && exists r <- RunRows(ops) ::
          j < |r.keys| && r.keys[j] == key && r.value == e.main.rows[i].value
  {
    RowsStayTogether(n, ops);
    var e := Run(n, ops);
    TakenIffRow(e, j, key);
    hide Inv;
    if Taken(e, j, key) { assert RowAt(e, SlotOf(e, j, key)) in Table(e); }
  }
}
