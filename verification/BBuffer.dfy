/** The buffer that objects are written to and read from, updated in place. Every method is
    proved to compute the corresponding function of GraphModel. */
module BBuffer {
  import opened Words
  import opened Varint
  import opened GraphModel
  import GraphRoundTrip

  datatype Outcome<T> = Panicked | Value(v: T)

  class Buffer {
    var buf: bytes
    var offset: nat
    var offsetRoot: nat
    var readLengthLimit: nat
    var ptrStore: map<Key, nat>
    var idxStore: map<int, Id>
    var made: seq<GraphModel.Obj>  // the objects the reader has created, in order

    ghost predicate Writable() reads this { offsetRoot <= |buf| }

    /** The writer's view: what stands after the root. */
    ghost function Written(): W
      reads this
      requires Writable()
    {
      W(buf[offsetRoot..], ptrStore)
    }

    ghost predicate Readable() reads this { offsetRoot <= offset && offsetRoot <= |buf| }

    ghost function Rest(): bytes
      reads this
      requires Readable()
    {
      buf[offsetRoot..]
    }

    ghost function Reading(): R
      reads this
      requires Readable()
    {
      R(offset - offsetRoot, idxStore, made)
    }

    constructor ()
      ensures Writable() && Readable() && buf == [] && offset == 0 && readLengthLimit == 0
    {
      buf, offset, offsetRoot, readLengthLimit := [], 0, 0, 0;
      ptrStore, idxStore, made := map[], map[], [];
    }

    // ----- integers

    /** Values and lengths fit 64 bits in the program; the loop itself has no bound. */
    method WriteVarUInt64(v: nat)
      modifies this`buf
      ensures buf == old(buf) + Encode(v)
    {
      var rest := v;
      while rest >= 128
        invariant 0 <= rest && buf + Encode(rest) == old(buf) + Encode(v)
        decreases rest
      {
        assert Encode(rest) == [rest % 128 + 128] + Encode(rest / 128);
        assert buf + ([rest % 128 + 128] + Encode(rest / 128)) == (buf + [rest % 128 + 128]) + Encode(rest / 128);
        buf := buf + [rest % 128 + 128];
        rest := rest / 128;
      }
      buf := buf + [rest];
    }

    /** Ten groups at most; running off the buffer or an eleventh group panics. */
    method ReadVarUInt64() returns (r: Outcome<u64>)
      requires Readable()
      modifies this`offset
      ensures Readable()
      ensures match GetUInt(Rest(), old(Reading())) {
                case Panic => r.Panicked? && offset == old(offset)
                case Got(v, r') => r == Value(v) && Reading() == r'
              }
    {
      hide Groups, Shifted, Group, GetUInt, Low64;
      var at, value, weight, n := offset, 0, 1, 0;
      ghost var b, p, sum := Rest(), offset - offsetRoot, 0;
      ghost var all := Groups(b, p, 0);
      Unshifted(all);
      Truncated(b, Reading());
      while n < 10
        invariant 0 <= n <= 10 && offset == old(offset) && at == offset + n && 0 < weight
        invariant sum >= 0 && value == Low64(sum)
        invariant all == Shifted(sum, weight, Groups(b, p + n, n))
        decreases 10 - n
      {
        if at >= |buf| {
          OffTheEnd(b, p + n, n, sum, weight);
          return Panicked;
        }
        var x := buf[at];
        at := at + 1;
        var part := Group(x, weight);
        Turn(b, p + n, n, sum, weight);
        sum := sum + part;
        value := Low64(value + part);
        if x < 128 {
          offset := at;
          return Value(value);
        }
        weight := 128 * weight;
        n := n + 1;
      }
      OffTheEnd(b, p + n, n, sum, weight);
      return Panicked;
    }

    // ----- writing objects

    ghost predicate SamePrefix(before: bytes) reads this {
      offsetRoot <= |before| && offsetRoot <= |buf| && buf[..offsetRoot] == before[..offsetRoot]
    }

    method Append(b: bytes)
      requires Writable()
      modifies this`buf
      ensures Writable() && SamePrefix(old(buf)) && Written() == Put(old(Written()), b)
    {
      buf := buf + b;
    }

    method WriteLength(v: nat)
      requires Writable()
      modifies this`buf
      ensures Writable() && SamePrefix(old(buf)) && Written() == Put(old(Written()), Encode(v))
    {
      hide Encode;
      WriteVarUInt64(v);
    }

    method WriteInt32(v: i32)
      requires Writable()
      modifies this`buf
      ensures Writable() && SamePrefix(old(buf)) && Written() == Put(old(Written()), Int32Bytes(v))
    {
      hide Encode;
      WriteVarUInt64(ZigZag(v));
    }

    method WriteNullableInt32(a: Age)
      requires Writable()
      modifies this`buf
      ensures Writable() && SamePrefix(old(buf)) && Written() == Put(old(Written()), AgeBytes(a))
    {
      hide Int32Bytes;
      if a.Age? {
        Append([1]);
        WriteInt32(a.value);
        ghost var out := old(Written()).out;
        assert out + [1] + Int32Bytes(a.value) == out + ([1] + Int32Bytes(a.value));
      } else {
        Append([0]);
      }
    }

    /** Registers the pointer at the current offset if it is new, and writes its offset. */
    method WritePointer(t: nat, k: Key) returns (found: bool)
      requires Writable()
      modifies this`buf, this`ptrStore
      ensures Writable() && SamePrefix(old(buf))
      ensures found == (k in old(ptrStore))
      ensures var w1 := Header(old(Written()), t);
              Written() == if found then Put(w1, Encode(w1.ptrs[k])) else Enter(w1, k)
    {
      hide Encode;
      WriteLength(t);
      found := k in ptrStore;
      var at := if found then ptrStore[k] else |buf| - offsetRoot;
      if !found { ptrStore := ptrStore[k := at]; }
      WriteLength(at);
    }

    method WriteText(s: bytes)
      requires Writable()
      modifies this`buf
      ensures Writable() && SamePrefix(old(buf)) && Written() == Put(old(Written()), TextBytes(s))
    {
      hide Encode;
      WriteLength(|s|);
      Append(s);
      ghost var out := old(Written()).out;
      assert out + Encode(|s|) + s == out + (Encode(|s|) + s);
    }

    /** The interned copy of a string stands for its pointer, so the table keyed by pointers
        is keyed by the text. */
    method WriteNullableString(n: Name)
      requires Writable()
      modifies this`buf, this`ptrStore
      ensures Writable() && SamePrefix(old(buf)) && Written() == WriteName(old(Written()), n)
    {
      hide Encode, TextBytes;
      if n.Name? {
        var found := WritePointer(1, Interned(n.text));
        if !found { WriteText(n.text); }
      } else {
        Append([0]);
      }
    }

    method WriteIObject(h: Heap, x: Ref)
      requires Writable() && HeapOk(h) && RefOk(h, AnySlot, x)
      modifies this`buf, this`ptrStore
      ensures Writable() && SamePrefix(old(buf)) && Written() == WriteRef(h, old(Written()), x)
      decreases Unvisited(h, Written()), 1
    {
      hide Encode, TypeId, WriteBody, HeapOk;
      if x.Nil? {
        Append([0]);
        return;
      }
      ghost var w0 := Written();
      var found := WritePointer(TypeId(h[x.id]), Obj(x.id));
      if !found {
        assert x.id in Unvisited(h, w0) && x.id !in Unvisited(h, Written());
        assert ObjOk(h, h[x.id]) by { HeapMember(h, x.id); }
        ToBBuffer(h, h[x.id]);
      }
    }

    method WriteFooFields(h: Heap, f: FooFields)
      requires Writable() && HeapOk(h) && RefOk(h, FooSlot, f.parent)
      modifies this`buf, this`ptrStore
      ensures Writable() && SamePrefix(old(buf)) && Written() == WriteFoo(h, old(Written()), f)
      decreases Unvisited(h, Written()), 2
    {
      hide Encode, WriteRef, HeapOk, Int32Bytes, AgeBytes, WriteName, Unvisited;
      ghost var w := Written();
      WriteInt32(f.id);
      WriteNullableString(f.name);
      WriteNullableInt32(f.age);
      FieldsShrink(h, w, f);
      WriteIObject(h, f.parent);
    }

    method ToBBuffer(h: Heap, o: GraphModel.Obj)
      requires Writable() && HeapOk(h) && ObjOk(h, o)
      modifies this`buf, this`ptrStore
      ensures Writable() && SamePrefix(old(buf)) && Written() == WriteBody(h, old(Written()), o)
      decreases Unvisited(h, Written()), 3
    {
      hide Encode, WriteRef, WriteFoo, WriteRefs, HeapOk, TextBytes, IntsBytes, Unvisited, Grown;
      ghost var w := Written();
      match o
      case Str(s) => WriteText(s);
      case Blob(s) => WriteText(s);
      case Foo(f) => WriteFooFields(h, f);
      case Ints(xs) => WriteInts(xs);
      case FooExt(f, c) =>
        WriteFooFields(h, f);
        GraphRoundTrip.UnvisitedShrinks(h, w, Written());
        WriteIObject(h, c);
      case Foos(rs) =>
        WriteLength(|rs|);
        GraphRoundTrip.PutGrows(w, Encode(|rs|));
        GraphRoundTrip.UnvisitedShrinks(h, w, Written());
        WriteElements(h, rs);
    }

    method WriteInts(xs: seq<i32>)
      requires Writable()
      modifies this`buf
      ensures Writable() && SamePrefix(old(buf))
      ensures Written() == Put(old(Written()), Encode(|xs|) + IntsBytes(xs))
    {
      hide Encode, Int32Bytes;
      ghost var out := Written().out;
      WriteLength(|xs|);
      ghost var w1 := Written();
      assert xs[0..] == xs;
      for i := 0 to |xs|
        invariant Writable() && SamePrefix(old(buf)) && ptrStore == old(ptrStore)
        invariant Written().out + IntsBytes(xs[i..]) == w1.out + IntsBytes(xs)
      {
        ghost var now := Written().out;
        assert xs[i..][1..] == xs[i + 1..];
        WriteInt32(xs[i]);
        assert now + (Int32Bytes(xs[i]) + IntsBytes(xs[i + 1..])) == now + Int32Bytes(xs[i]) + IntsBytes(xs[i + 1..]);
      }
      assert out + Encode(|xs|) + IntsBytes(xs) == out + (Encode(|xs|) + IntsBytes(xs));
    }

    method WriteElements(h: Heap, rs: seq<Ref>)
      requires Writable() && HeapOk(h) && forall i :: 0 <= i < |rs| ==> RefOk(h, FooExtSlot, rs[i])
      modifies this`buf, this`ptrStore
      ensures Writable() && SamePrefix(old(buf)) && Written() == WriteRefs(h, old(Written()), rs)
      decreases Unvisited(h, Written()), 2
    {
      hide Encode, WriteRef, HeapOk, Unvisited, Grown, WriteRefs;
      ghost var w := Written();
      assert rs[0..] == rs;
      for i := 0 to |rs|
        invariant Writable() && SamePrefix(old(buf))
        invariant Unvisited(h, Written()) <= Unvisited(h, w)
        invariant WriteRefs(h, Written(), rs[i..]) == WriteRefs(h, w, rs)
      {
        ghost var now := Written();
        assert RefOk(h, FooExtSlot, rs[i]);
        GraphRoundTrip.WriteRefsUnfold(h, now, rs[i..]);
        assert rs[i..][1..] == rs[i + 1..];
        WriteIObject(h, rs[i]);
        GraphRoundTrip.UnvisitedShrinks(h, now, Written());
      }
      GraphRoundTrip.WriteRefsUnfold(h, Written(), rs[|rs|..]);
    }

    /** The root starts a fresh table at the end of whatever the buffer holds. */
    method WriteRoot(h: Heap, root: Ref)
      requires HeapOk(h) && RefOk(h, AnySlot, root)
      modifies this`buf, this`ptrStore, this`offsetRoot
      ensures buf == old(buf) + WriteRef(h, W([], map[]), root).out
    {
      hide WriteRef;
      ptrStore := map[];
      offsetRoot := |buf|;
      assert Written() == W([], map[]);
      WriteIObject(h, root);
      assert buf == buf[..offsetRoot] + buf[offsetRoot..];
    }

    // ----- reading objects

    /** The call and the function both panic, or agree on the value and the state left. */
    ghost predicate Agrees<T>(res: Outcome<T>, g: Got<T>)
      reads this
      requires Readable()
    {
      match g
      case Panic => res.Panicked?
      case Got(v, r) => res == Value(v) && Reading() == r
    }

    method ReadInt32() returns (res: Outcome<i32>)
      requires Readable()
      modifies this`offset
      ensures Readable() && Agrees(res, GetInt32(Rest(), old(Reading())))
    {
      hide GetUInt;
      var u := ReadVarUInt64();
      res := if u.Panicked? then Panicked else Value(Trunc32(UnZigZag(u.v)));
    }

    method ReadNullableInt32() returns (res: Outcome<Age>)
      requires Readable()
      modifies this`offset
      ensures Readable() && Agrees(res, GetAge(Rest(), old(Reading())))
    {
      hide GetInt32;
      if offset >= |buf| { return Panicked; }
      assert buf[offset] == Rest()[offset - offsetRoot];
      var has := buf[offset] > 0;
      offset := offset + 1;
      if !has { return Value(NoAge); }
      var v := ReadInt32();
      res := if v.Panicked? then Panicked else Value(Age(v.v));
    }

    method ReadText() returns (res: Outcome<bytes>)
      requires Readable()
      modifies this`offset
      ensures Readable() && Agrees(res, GetText(Rest(), old(Reading())))
    {
      hide GetUInt;
      var n := ReadVarUInt64();
      if n.Panicked? || AsInt(n.v) < 0 || offset + n.v > |buf| { return Panicked; }
      assert buf[offset..offset + n.v] == Rest()[offset - offsetRoot..offset - offsetRoot + n.v];
      res := Value(buf[offset..offset + n.v]);
      offset := offset + n.v;
    }

    method ReadIObject() returns (res: Outcome<Ref>)
      requires Readable()
      modifies this`offset, this`idxStore, this`made
      ensures Readable() && Agrees(res, ReadRef(Rest(), readLengthLimit, old(Reading())))
      decreases |buf| - offset, 1
    {
      hide GetUInt, ReadBody, TypeId, Zero;
      var tag := ReadVarUInt64();
      if tag.Panicked? { return Panicked; }
      var typeId := tag.v % TWO16;
      if typeId == 0 { return Value(Nil); }
      var at := offset - offsetRoot;
      var ptr := ReadVarUInt64();
      if ptr.Panicked? { return Panicked; }
      var p := AsInt(ptr.v);
      if p == at {
        if typeId > 6 { return Panicked; }
        var me := |made|;
        made := made + [Zero(typeId)];
        idxStore := idxStore[p := me];
        var o := FromBBuffer(typeId);
        if o.Panicked? { return Panicked; }
        made := made[me := o.v];
        return Value(To(me));
      }
      if p in idxStore && idxStore[p] < |made| && TypeId(made[idxStore[p]]) == typeId {
        return Value(To(idxStore[p]));
      }
      return Panicked;
    }

    method ReadAs(s: Slot) returns (res: Outcome<Ref>)
      requires Readable()
      modifies this`offset, this`idxStore, this`made
      ensures Readable() && Agrees(res, ReadSlot(Rest(), readLengthLimit, old(Reading()), s))
      decreases |buf| - offset, 2
    {
      hide ReadRef, Accepts;
      res := ReadIObject();
      if res.Value? && res.v.To? && !(res.v.id < |made| && Accepts(s, made[res.v.id])) { return Panicked; }
    }

    method ReadNullableString() returns (res: Outcome<Name>)
      requires Readable()
      modifies this`offset, this`idxStore, this`made
      ensures Readable() && Agrees(res, ReadName(Rest(), readLengthLimit, old(Reading())))
      decreases |buf| - offset, 2
    {
      hide ReadRef;
      var o := ReadIObject();
      if o.Panicked? { return Panicked; }
      if o.v.Nil? { return Value(NoName); }
      if o.v.id < |made| && made[o.v.id].Str? { return Value(Name(made[o.v.id].text)); }
      return Panicked;
    }

    method ReadFooFields() returns (res: Outcome<FooFields>)
      requires Readable()
      modifies this`offset, this`idxStore, this`made
      ensures Readable() && Agrees(res, ReadFoo(Rest(), readLengthLimit, old(Reading())))
      decreases |buf| - offset, 3
    {
      hide GetInt32, ReadName, GetAge, ReadSlot;
      var id := ReadInt32();
      if id.Panicked? { return Panicked; }
      var name := ReadNullableString();
      if name.Panicked? { return Panicked; }
      var age := ReadNullableInt32();
      if age.Panicked? { return Panicked; }
      var parent := ReadAs(FooSlot);
      if parent.Panicked? { return Panicked; }
      res := Value(FooFields(id.v, name.v, age.v, parent.v));
    }

    method ReadInts(count: int) returns (res: Outcome<seq<i32>>)
      requires Readable() && offset <= |buf|
      modifies this`offset
      ensures Readable() && Agrees(res, GetInts(Rest(), old(Reading()), count))
    {
      hide GetInt32;
      ghost var b, r0 := Rest(), Reading();
      var xs: seq<i32> := [];
      var n := count;
      PrependNone(GetInts(b, r0, count));
      while n > 0
        invariant Readable() && offset <= |buf| && Rest() == b
        invariant GetInts(b, r0, count) == Prepend(xs, GetInts(b, Reading(), n))
        decreases n
      {
        ghost var r := Reading();
        var x := ReadInt32();
        if x.Panicked? { return Panicked; }
        PrependOne(xs, x.v, GetInts(b, Reading(), n - 1));
        xs := xs + [x.v];
        n := n - 1;
      }
      assert xs + [] == xs;
      res := Value(xs);
    }

    method ReadElements(count: int) returns (res: Outcome<seq<Ref>>)
      requires Readable() && offset <= |buf|
      modifies this`offset, this`idxStore, this`made
      ensures Readable() && Agrees(res, ReadRefs(Rest(), readLengthLimit, old(Reading()), count))
      decreases |buf| - offset, 3
    {
      hide ReadSlot;
      ghost var b, r0 := Rest(), Reading();
      var xs: seq<Ref> := [];
      var n := count;
      PrependNone(ReadRefs(b, readLengthLimit, r0, count));
      while n > 0
        invariant Readable() && old(offset) <= offset <= |buf| && Rest() == b
        invariant ReadRefs(b, readLengthLimit, r0, count) == Prepend(xs, ReadRefs(b, readLengthLimit, Reading(), n))
        decreases n
      {
        ghost var r := Reading();
        var x := ReadAs(FooExtSlot);
        if x.Panicked? { return Panicked; }
        PrependOne(xs, x.v, ReadRefs(b, readLengthLimit, Reading(), n - 1));
        xs := xs + [x.v];
        n := n - 1;
      }
      assert xs + [] == xs;
      res := Value(xs);
    }

    method FromBBuffer(t: nat) returns (res: Outcome<GraphModel.Obj>)
      requires Readable() && 1 <= t <= 6
      modifies this`offset, this`idxStore, this`made
      ensures Readable() && Agrees(res, ReadBody(Rest(), readLengthLimit, old(Reading()), t))
      decreases |buf| - offset, 4
    {
      hide GetUInt, GetText, GetInts, ReadFoo, ReadSlot, ReadRefs;
      if t == 3 {
        var f := ReadFooFields();
        return if f.Panicked? then Panicked else Value(Foo(f.v));
      }
      if t == 5 {
        var f := ReadFooFields();
        if f.Panicked? { return Panicked; }
        var c := ReadAs(IntsSlot);
        return if c.Panicked? then Panicked else Value(FooExt(f.v, c.v));
      }
      if t == 1 {
        var s := ReadText();
        return if s.Panicked? then Panicked else Value(Str(s.v));
      }
      res := ReadList(t);
    }

    /** The three kinds of content that start with a length the limit applies to. */
    method ReadList(t: nat) returns (res: Outcome<GraphModel.Obj>)
      requires Readable() && (t == 2 || t == 4 || t == 6)
      modifies this`offset, this`idxStore, this`made
      ensures Readable() && Agrees(res, ReadBody(Rest(), readLengthLimit, old(Reading()), t))
      decreases |buf| - offset, 3
    {
      hide GetUInt, GetText, GetInts, ReadFoo, ReadSlot, ReadRefs;
      var start := offset;
      var n := ReadVarUInt64();
      if n.Panicked? || Exceeds(readLengthLimit, AsInt(n.v)) { return Panicked; }
      if t == 4 {
        var xs := ReadInts(AsInt(n.v));
        return if xs.Panicked? then Panicked else Value(Ints(xs.v));
      }
      if t == 6 {
        var rs := ReadElements(AsInt(n.v));
        return if rs.Panicked? then Panicked else Value(Foos(rs.v));
      }
      offset := start;
      var s := ReadText();
      return if s.Panicked? then Panicked else Value(Blob(s.v));
    }

    method ReadRoot() returns (res: Outcome<Ref>)
      requires offset <= |buf|
      modifies this`offset, this`idxStore, this`made, this`offsetRoot
      ensures Readable() && offsetRoot == old(offset)
      ensures Agrees(res, ReadRef(buf[old(offset)..], readLengthLimit, R(0, map[], [])))
    {
      hide ReadRef;
      idxStore := map[];
      made := [];
      offsetRoot := offset;
      res := ReadIObject();
    }
  }

  ghost function Prepend<T>(xs: seq<T>, g: Got<seq<T>>): Got<seq<T>> {
    match g
    case Panic => Got.Panic
    case Got(ys, r) => Got(xs + ys, r)
  }

  lemma PrependNone<T>(g: Got<seq<T>>)
    ensures Prepend([], g) == g
  {
    if g.Got? { assert [] + g.v == g.v; }
  }

  lemma PrependOne<T>(xs: seq<T>, x: T, g: Got<seq<T>>)
    ensures g.Got? ==> Prepend(xs, Got([x] + g.v, g.r)) == Prepend(xs + [x], g)
  {
    if g.Got? { assert xs + ([x] + g.v) == xs + [x] + g.v; }
  }

  lemma HeapMember(h: Heap, id: Id)
    requires HeapOk(h) && id in h
    ensures ObjOk(h, h[id])
  {
  }

  lemma FieldsShrink(h: Heap, w: W, f: FooFields)
    ensures var w3 := Put(WriteName(Put(w, Int32Bytes(f.id)), f.name), AgeBytes(f.age));
            Unvisited(h, w3) <= Unvisited(h, w)
  {
    hide Encode, TextBytes, Int32Bytes, AgeBytes;
  }

  /** The value read so far, with what is still to come weighed in. */
  ghost function Shifted(sum: nat, weight: nat, rest: Read): Read {
    match rest
    case Panic => Read.Panic
    case Ok(v, next) => Ok(sum + weight * v, next)
  }

  /** The low seven bits, shifted into place. */
  function Group(x: byte, weight: nat): nat { (x as int % 128) * weight }

  function Low64(x: nat): u64 { x % TWO64 }

  lemma Unshifted(all: Read)
    ensures all == Shifted(0, 1, all) && Low64(0) == 0
  {
  }

  /** What reading gives: the sum of the groups, cut to 64 bits. */
  lemma Truncated(b: bytes, r: R)
    ensures match Groups(b, r.pos, 0) {
              case Panic => GetUInt(b, r).Panic?
              case Ok(v, next) => GetUInt(b, r) == Got(Low64(v), r.(pos := next))
            }
  {
    hide Groups;
  }

  lemma OffTheEnd(b: bytes, at: nat, n: nat, sum: nat, weight: nat)
    requires n >= 10 || at >= |b|
    ensures Shifted(sum, weight, Groups(b, at, n)).Panic?
  {
  }

  /** One turn of the loop, on the unbounded sum and on its low 64 bits. */
  lemma Turn(b: bytes, at: nat, n: nat, sum: nat, weight: nat)
    requires n < 10 && at < |b|
    ensures var sum' := sum + Group(b[at], weight);
            && Low64(Low64(sum) + Group(b[at], weight)) == Low64(sum')
            && (b[at] < 128 ==> Shifted(sum, weight, Groups(b, at, n)) == Ok(sum', at + 1))
            && (b[at] >= 128 ==>
                  Shifted(sum, weight, Groups(b, at, n)) == Shifted(sum', 128 * weight, Groups(b, at + 1, n + 1)))
  {
    AddModulo(sum, Group(b[at], weight));
    Distribute(weight, b[at] as int % 128, Groups(b, at + 1, n + 1));
  }

  lemma AddModulo(sum: nat, part: nat)
    ensures (sum % TWO64 + part) % TWO64 == (sum + part) % TWO64
  {
    var q := sum / TWO64;
    Multiples(sum % TWO64 + part, q);
  }

  lemma Multiples(x: int, q: int)
    ensures (x + TWO64 * q) % TWO64 == x % TWO64
  {
  }

  lemma Distribute(weight: nat, x: nat, rest: Read)
    ensures x * weight == weight * x
    ensures rest.Ok? ==> weight * (x + 128 * rest.value) == x * weight + (128 * weight) * rest.value
  {
    if rest.Ok? { Regroup(weight, x, rest.value); }
  }

  lemma Regroup(w: int, x: int, v: int)
    ensures w * (x + 128 * v) == x * w + (128 * w) * v
  {
    var y := w * v;
    assert (128 * w) * v == 128 * y;
    assert w * (128 * v) == 128 * y;
  }
}
