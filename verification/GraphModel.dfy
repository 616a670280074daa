/** Object graphs and their byte form. Objects are named by identity; an occurrence is
    written as a type number and the offset, from the root, of the first occurrence, and
    only there is the content written out. */
module GraphModel {
  import opened Words
  import opened Varint

  type Id = nat

  datatype Ref = Nil | To(id: Id)

  datatype Name = NoName | Name(text: bytes)

  datatype Age = NoAge | Age(value: i32)

  datatype FooFields = FooFields(id: i32, name: Name, age: Age, parent: Ref)

  datatype Obj =
    | Str(text: bytes)
    | Blob(data: bytes)
    | Foo(foo: FooFields)
    | Ints(xs: seq<i32>)
    | FooExt(base: FooFields, childIds: Ref)
    | Foos(rs: seq<Ref>)

  type Heap = map<Id, Obj>

  function TypeId(o: Obj): (t: nat)
    ensures 1 <= t <= 6
  {
    match o
    case Str(_) => 1
    case Blob(_) => 2
    case Foo(_) => 3
    case Ints(_) => 4
    case FooExt(_, _) => 5
    case Foos(_) => 6
  }

  // ----- which objects may stand where

  datatype Slot = AnySlot | FooSlot | IntsSlot | FooExtSlot

  predicate Accepts(s: Slot, o: Obj) {
    match s
    case AnySlot => true
    case FooSlot => o.Foo? || o.FooExt?
    case IntsSlot => o.Ints?
    case FooExtSlot => o.FooExt?
  }

  predicate RefOk(h: Heap, s: Slot, r: Ref) { r.To? ==> r.id in h && Accepts(s, h[r.id]) }

  predicate ObjOk(h: Heap, o: Obj) {
    match o
    case Foo(f) => RefOk(h, FooSlot, f.parent)
    case FooExt(f, c) => RefOk(h, FooSlot, f.parent) && RefOk(h, IntsSlot, c)
    case Foos(rs) => forall i :: 0 <= i < |rs| ==> RefOk(h, FooExtSlot, rs[i])
    case _ => true
  }

  ghost predicate HeapOk(h: Heap) { forall id :: id in h ==> ObjOk(h, h[id]) }

  // ----- writing

  /** A pointer the writer has seen: an object of the heap, or the interned copy of a string. */
  datatype Key = Obj(id: Id) | Interned(text: bytes)

  /** Bytes written since the root, and the offset of each first occurrence. */
  datatype W = W(out: bytes, ptrs: map<Key, nat>)

  function Put(w: W, b: bytes): W { w.(out := w.out + b) }

  function Header(w: W, t: nat): W { Put(w, Encode(t)) }

  /** Registers a new pointer at the current offset. */
  function Enter(w: W, k: Key): W { W(w.out + Encode(|w.out|), w.ptrs[k := |w.out|]) }

  ghost function Unvisited(h: Heap, w: W): set<Id> { set id | id in h && Obj(id) !in w.ptrs }

  ghost predicate Grown(w: W, w': W) {
    w.out <= w'.out && forall k :: k in w.ptrs ==> k in w'.ptrs && w'.ptrs[k] == w.ptrs[k]
  }

  function TextBytes(s: bytes): bytes { Encode(|s|) + s }

  function Int32Bytes(v: i32): bytes { Encode(ZigZag(v)) }

  function AgeBytes(a: Age): bytes { if a.NoAge? then [0] else [1] + Int32Bytes(a.value) }

  function IntsBytes(xs: seq<i32>): bytes {
    if xs == [] then [] else Int32Bytes(xs[0]) + IntsBytes(xs[1..])
  }

  /** Strings are interned by value, so equal strings are one object. */
  function WriteName(w: W, n: Name): W {
    if n.NoName? then Put(w, [0])
    else
      var k, w1 := Interned(n.text), Header(w, 1);
      if k in w1.ptrs then Put(w1, Encode(w1.ptrs[k])) else Put(Enter(w1, k), TextBytes(n.text))
  }

  function WriteRef(h: Heap, w: W, r: Ref): (w': W)
    requires HeapOk(h) && RefOk(h, AnySlot, r)
    ensures Grown(w, w') && |w'.out| > |w.out|
    decreases Unvisited(h, w), 1
  {
    if r.Nil? then Put(w, [0])
    else
      var k, w1 := Obj(r.id), Header(w, TypeId(h[r.id]));
      if k in w1.ptrs then Put(w1, Encode(w1.ptrs[k]))
      else
        assert r.id in Unvisited(h, w) && r.id !in Unvisited(h, Enter(w1, k));
        WriteBody(h, Enter(w1, k), h[r.id])
  }

  function WriteFoo(h: Heap, w: W, f: FooFields): (w': W)
    requires HeapOk(h) && RefOk(h, FooSlot, f.parent)
    ensures Grown(w, w')
    decreases Unvisited(h, w), 2
  {
    var w2 := WriteName(Put(w, Int32Bytes(f.id)), f.name);
    WriteRef(h, Put(w2, AgeBytes(f.age)), f.parent)
  }

  function WriteRefs(h: Heap, w: W, rs: seq<Ref>): (w': W)
    requires HeapOk(h) && forall i :: 0 <= i < |rs| ==> RefOk(h, FooExtSlot, rs[i])
    ensures Grown(w, w') && |w'.out| >= |w.out| + |rs|
    decreases Unvisited(h, w), 2, |rs|
  {
    if rs == [] then w
    else
      assert RefOk(h, FooExtSlot, rs[0]);
      var w1 := WriteRef(h, w, rs[0]);
      WriteRefs(h, w1, rs[1..])
  }

  function WriteBody(h: Heap, w: W, o: Obj): (w': W)
    requires HeapOk(h) && ObjOk(h, o)
    ensures Grown(w, w')
    decreases Unvisited(h, w), 3
  {
    match o
    case Str(s) => Put(w, TextBytes(s))
    case Blob(s) => Put(w, TextBytes(s))
    case Foo(f) => WriteFoo(h, w, f)
    case Ints(xs) => Put(w, Encode(|xs|) + IntsBytes(xs))
    case FooExt(f, c) =>
      var w1 := WriteFoo(h, w, f);
      WriteRef(h, w1, c)
    case Foos(rs) => WriteRefs(h, Put(w, Encode(|rs|)), rs)
  }

  // ----- reading

  /** Position since the root, the object registered at each offset, and the objects
      created so far, named by the order of their creation. */
  datatype R = R(pos: nat, idx: map<int, Id>, heap: seq<Obj>)

  datatype Got<T> = Panic | Got(v: T, r: R)

  function Zero(t: nat): Obj
    requires 1 <= t <= 6
  {
    var none := FooFields(0, NoName, NoAge, Nil);
    if t == 1 then Str([]) else if t == 2 then Blob([]) else if t == 3 then Foo(none)
    else if t == 4 then Ints([]) else if t == 5 then FooExt(none, Nil) else Foos([])
  }

  function GetUInt(b: bytes, r: R): (g: Got<u64>)
    ensures g.Got? ==> r.pos < g.r.pos <= |b| && g.r == r.(pos := g.r.pos)
  {
    match Decode(b, r.pos)
    case Panic => Got.Panic
    case Ok(v, next) => Got(v, r.(pos := next))
  }

  function GetInt32(b: bytes, r: R): (g: Got<i32>)
    ensures g.Got? ==> r.pos < g.r.pos <= |b| && g.r == r.(pos := g.r.pos)
  {
    match GetUInt(b, r)
    case Panic => Got.Panic
    case Got(v, r1) => Got(Trunc32(UnZigZag(v)), r1)
  }

  function GetAge(b: bytes, r: R): (g: Got<Age>)
    ensures g.Got? ==> r.pos < g.r.pos <= |b| && g.r == r.(pos := g.r.pos)
  {
    if r.pos >= |b| then Got.Panic
    else if b[r.pos] == 0 then Got(NoAge, r.(pos := r.pos + 1))
    else
      match GetInt32(b, r.(pos := r.pos + 1))
      case Panic => Got.Panic
      case Got(v, r1) => Got(Age(v), r1)
  }

  /** A length outside the buffer, or negative as a signed number, makes the slice panic. */
  function GetText(b: bytes, r: R): (g: Got<bytes>)
    ensures g.Got? ==> r.pos < g.r.pos <= |b| && g.r == r.(pos := g.r.pos)
  {
    match GetUInt(b, r)
    case Panic => Got.Panic
    case Got(n, r1) =>
      if AsInt(n) < 0 || r1.pos + n > |b| then Got.Panic
      else Got(b[r1.pos..r1.pos + n], r1.(pos := r1.pos + n))
  }

  function GetInts(b: bytes, r: R, n: int): (g: Got<seq<i32>>)
    requires r.pos <= |b|
    ensures g.Got? ==> r.pos <= g.r.pos <= |b| && g.r == r.(pos := g.r.pos)
    decreases n
  {
    if n <= 0 then Got([], r)
    else
      match GetInt32(b, r)
      case Panic => Got.Panic
      case Got(x, r1) =>
        match GetInts(b, r1, n - 1)
        case Panic => Got.Panic
        case Got(xs, r2) => Got([x] + xs, r2)
  }

  /** Zero means that list lengths are not limited. */
  predicate Exceeds(limit: nat, n: int) { limit != 0 && n > limit }

  /** `limit` is the buffer's ReadLengthLimit. */
  function ReadRef(b: bytes, limit: nat, r: R): (g: Got<Ref>)
    ensures g.Got? ==> r.pos < g.r.pos <= |b| && |r.heap| <= |g.r.heap|
    decreases |b| - r.pos, 1
  {
    match GetUInt(b, r)
    case Panic => Got.Panic
    case Got(tag, r1) =>
      var t := tag % TWO16;
      if t == 0 then Got(Nil, r1)
      else
        match GetUInt(b, r1)
        case Panic => Got.Panic
        case Got(p, r2) =>
          if AsInt(p) == r1.pos then ReadNew(b, limit, r2, AsInt(p), t) else Lookup(r2, AsInt(p), t)
  }

  /** A back reference must name a registered object of the announced type. (A registered
      object always exists; the bound only makes the lookup total.) */
  function Lookup(r: R, at: int, t: nat): (g: Got<Ref>)
    ensures g.Got? ==> g.r == r
  {
    if at in r.idx && r.idx[at] < |r.heap| && TypeId(r.heap[r.idx[at]]) == t then Got(To(r.idx[at]), r) else Got.Panic
  }

  /** The new object is registered before its content is read, so that the content may
      refer to it. */
  function ReadNew(b: bytes, limit: nat, r: R, at: int, t: nat): (g: Got<Ref>)
    requires t >= 1
    ensures g.Got? ==> r.pos <= g.r.pos <= |b| && |r.heap| <= |g.r.heap|
    decreases |b| - r.pos, 5
  {
    if t > 6 then Got.Panic
    else Filled(|r.heap|, ReadBody(b, limit, R(r.pos, r.idx[at := |r.heap|], r.heap + [Zero(t)]), t))
  }

  function Filled(me: nat, g: Got<Obj>): Got<Ref>
    requires g.Got? ==> me < |g.r.heap|
  {
    match g
    case Panic => Got.Panic
    case Got(o, r) => Got(To(me), r.(heap := r.heap[me := o]))
  }

  /** The type assertion on a field. */
  function ReadSlot(b: bytes, limit: nat, r: R, s: Slot): (g: Got<Ref>)
    ensures g.Got? ==> r.pos < g.r.pos <= |b| && |r.heap| <= |g.r.heap|
    decreases |b| - r.pos, 2
  {
    match ReadRef(b, limit, r)
    case Panic => Got.Panic
    case Got(Nil, r1) => Got(Nil, r1)
    case Got(To(id), r1) => if id < |r1.heap| && Accepts(s, r1.heap[id]) then Got(To(id), r1) else Got.Panic
  }

  function ReadName(b: bytes, limit: nat, r: R): (g: Got<Name>)
    ensures g.Got? ==> r.pos < g.r.pos <= |b| && |r.heap| <= |g.r.heap|
    decreases |b| - r.pos, 2
  {
    match ReadRef(b, limit, r)
    case Panic => Got.Panic
    case Got(Nil, r1) => Got(NoName, r1)
    case Got(To(id), r1) => if id < |r1.heap| && r1.heap[id].Str? then Got(Name(r1.heap[id].text), r1) else Got.Panic
  }

  function ReadFoo(b: bytes, limit: nat, r: R): (g: Got<FooFields>)
    ensures g.Got? ==> r.pos < g.r.pos <= |b| && |r.heap| <= |g.r.heap|
    decreases |b| - r.pos, 3
  {
    match GetInt32(b, r)
    case Panic => Got.Panic
    case Got(id, r1) =>
      match ReadName(b, limit, r1)
      case Panic => Got.Panic
      case Got(name, r2) =>
        match GetAge(b, r2)
        case Panic => Got.Panic
        case Got(age, r3) =>
          match ReadSlot(b, limit, r3, FooSlot)
          case Panic => Got.Panic
          case Got(parent, r4) => Got(FooFields(id, name, age, parent), r4)
  }

  function ReadRefs(b: bytes, limit: nat, r: R, n: int): (g: Got<seq<Ref>>)
    requires r.pos <= |b|
    ensures g.Got? ==> r.pos <= g.r.pos <= |b| && |r.heap| <= |g.r.heap|
    decreases |b| - r.pos, 3
  {
    if n <= 0 then Got([], r)
    else
      match ReadSlot(b, limit, r, FooExtSlot)
      case Panic => Got.Panic
      case Got(x, r1) =>
        match ReadRefs(b, limit, r1, n - 1)
        case Panic => Got.Panic
        case Got(xs, r2) => Got([x] + xs, r2)
  }

  function ReadBody(b: bytes, limit: nat, r: R, t: nat): (g: Got<Obj>)
    requires 1 <= t <= 6
    ensures g.Got? ==> r.pos <= g.r.pos <= |b| && |r.heap| <= |g.r.heap|
    decreases |b| - r.pos, 4
  {
    if t == 3 then
      match ReadFoo(b, limit, r)
      case Panic => Got.Panic
      case Got(f, r1) => Got(Foo(f), r1)
    else if t == 5 then
      match ReadFoo(b, limit, r)
      case Panic => Got.Panic
      case Got(f, r1) =>
        match ReadSlot(b, limit, r1, IntsSlot)
        case Panic => Got.Panic
        case Got(c, r2) => Got(FooExt(f, c), r2)
    else if t == 1 then
      match GetText(b, r)
      case Panic => Got.Panic
      case Got(s, r1) => Got(Str(s), r1)
    else
      match GetUInt(b, r)
      case Panic => Got.Panic
      case Got(n, r1) =>
        if Exceeds(limit, AsInt(n)) then Got.Panic
        else if t == 2 then
          match GetText(b, r)
          case Panic => Got.Panic
          case Got(s, r2) => Got(Blob(s), r2)
        else if t == 4 then
          match GetInts(b, r1, AsInt(n))
          case Panic => Got.Panic
          case Got(xs, r2) => Got(Ints(xs), r2)
        else
          match ReadRefs(b, limit, r1, AsInt(n))
          case Panic => Got.Panic
          case Got(rs, r2) => Got(Foos(rs), r2)
  }
}
