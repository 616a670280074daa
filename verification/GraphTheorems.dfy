/** The round trip of whole object graphs, stated without the writer's and reader's tables. */
module GraphTheorems {
  import opened Words
  import opened Varint
  import opened GraphModel
  import opened GraphRoundTrip

  function WriteRoot(h: Heap, root: Ref): W
    requires HeapOk(h) && RefOk(h, AnySlot, root)
  {
    WriteRef(h, W([], map[]), root)
  }

  function ReadRoot(b: bytes, limit: nat): Got<Ref> { ReadRef(b, limit, R(0, map[], [])) }

  // ----- what the root reaches

  ghost predicate Refers(o: GraphModel.Obj, id: Id) {
    match o
    case Foo(f) => f.parent == To(id)
    case FooExt(f, c) => f.parent == To(id) || c == To(id)
    case Foos(rs) => To(id) in rs
    case _ => false
  }

  ghost predicate Closed(h: Heap, t: set<Id>) {
    t <= h.Keys && forall id, id' :: id in t && id' in h && Refers(h[id], id') ==> id' in t
  }

  ghost predicate Contains(t: set<Id>, x: Ref) { x.To? ==> x.id in t }

  /** `s` is the least set that holds the root and everything its members refer to. */
  ghost predicate Reached(h: Heap, root: Ref, s: set<Id>) {
    && Closed(h, s) && Contains(s, root)
    && forall t :: Closed(h, t) && Contains(t, root) ==> s <= t
  }

  ghost predicate Carries(o: GraphModel.Obj, text: bytes) {
    (o.Foo? && o.foo.name == Name(text)) || (o.FooExt? && o.base.name == Name(text))
  }

  ghost predicate Named(h: Heap, t: set<Id>, text: bytes) { exists id :: id in t && id in h && Carries(h[id], text) }

  ghost predicate KeyIn(h: Heap, t: set<Id>, k: Key) {
    match k
    case Obj(id) => id in t
    case Interned(text) => Named(h, t, text)
  }

  ghost predicate NewIn(h: Heap, t: set<Id>, w: W, w': W) {
    forall k :: k in w'.ptrs && k !in w.ptrs ==> KeyIn(h, t, k)
  }

  lemma NewInTrans(h: Heap, t: set<Id>, w: W, w1: W, w2: W)
    requires NewIn(h, t, w, w1) && NewIn(h, t, w1, w2)
    ensures NewIn(h, t, w, w2)
  {
    hide KeyIn;
  }

  lemma {:induction false} RefStays(h: Heap, w: W, x: Ref, t: set<Id>)
    requires HeapOk(h) && RefOk(h, AnySlot, x) && Closed(h, t) && Contains(t, x)
    ensures NewIn(h, t, w, WriteRef(h, w, x))
    decreases Unvisited(h, w), 1
  {
    hide Encode, Named, TypeId;
    if x.To? && Obj(x.id) !in w.ptrs {
      var k := Obj(x.id);
      var w2 := Enter(Header(w, TypeId(h[x.id])), k);
      assert x.id in Unvisited(h, w) && x.id !in Unvisited(h, w2);
      assert NewIn(h, t, w, w2);
      BodyStays(h, w2, x.id, t);
      hide WriteBody, KeyIn, HeapOk, Closed;
      NewInTrans(h, t, w, w2, WriteRef(h, w, x));
    }
  }

  lemma {:induction false} FooStays(h: Heap, w: W, f: FooFields, t: set<Id>)
    requires HeapOk(h) && RefOk(h, FooSlot, f.parent) && Closed(h, t) && Contains(t, f.parent)
    requires f.name.Name? ==> Named(h, t, f.name.text)
    ensures NewIn(h, t, w, WriteFoo(h, w, f))
    decreases Unvisited(h, w), 2
  {
    hide Encode, Named, WriteRef, HeapOk, Closed, Int32Bytes, AgeBytes, TextBytes;
    var w3 := Put(WriteName(Put(w, Int32Bytes(f.id)), f.name), AgeBytes(f.age));
    assert NewIn(h, t, w, w3);
    assert Unvisited(h, w3) <= Unvisited(h, w);
    RefStays(h, w3, f.parent, t);
    hide KeyIn;
    NewInTrans(h, t, w, w3, WriteRef(h, w3, f.parent));
  }

  lemma {:induction false} RefsStay(h: Heap, w: W, rs: seq<Ref>, t: set<Id>)
    requires HeapOk(h) && forall i :: 0 <= i < |rs| ==> RefOk(h, FooExtSlot, rs[i])
    requires Closed(h, t) && forall i :: 0 <= i < |rs| ==> Contains(t, rs[i])
    ensures NewIn(h, t, w, WriteRefs(h, w, rs))
    decreases Unvisited(h, w), 2, |rs|
  {
    hide WriteRef, KeyIn, Closed, HeapOk, Grown, Unvisited;
    if rs != [] {
      assert RefOk(h, FooExtSlot, rs[0]) && Contains(t, rs[0]);
      var w1 := WriteRef(h, w, rs[0]);
      UnvisitedShrinks(h, w, w1);
      RefStays(h, w, rs[0], t);
      RefsStay(h, w1, rs[1..], t);
      NewInTrans(h, t, w, w1, WriteRefs(h, w, rs));
    }
  }

  lemma {:induction false} BodyStays(h: Heap, w: W, id: Id, t: set<Id>)
    requires HeapOk(h) && Closed(h, t) && id in t
    ensures NewIn(h, t, w, WriteBody(h, w, h[id]))
    decreases Unvisited(h, w), 3
  {
    var o := h[id];
    assert ObjOk(h, o);
    assert forall text :: Carries(o, text) ==> Named(h, t, text);
    assert forall id' :: id' in h && Refers(o, id') ==> id' in t;
    hide WriteRef, WriteFoo, WriteRefs, Closed, HeapOk, Encode, Named, TextBytes, IntsBytes, KeyIn, Grown, Unvisited;
    match o
    case Foo(f) => FooStays(h, w, f, t);
    case FooExt(f, c) =>
      var w1 := WriteFoo(h, w, f);
      FooStays(h, w, f, t);
      UnvisitedShrinks(h, w, w1);
      RefStays(h, w1, c, t);
      NewInTrans(h, t, w, w1, WriteRef(h, w1, c));
    case Foos(rs) =>
      var w1 := Put(w, Encode(|rs|));
      PutGrows(w, Encode(|rs|));
      UnvisitedShrinks(h, w, w1);
      assert forall i :: 0 <= i < |rs| ==> RefOk(h, FooExtSlot, rs[i]);
      assert forall i :: 0 <= i < |rs| ==> rs[i] in rs;
      RefsStay(h, w1, rs, t);
    case _ =>
  }

  // ----- isomorphic graphs

  ghost predicate RefIs(m: map<Key, Id>, x: Ref, x': Ref) {
    if x.Nil? then x'.Nil? else Obj(x.id) in m && x' == To(m[Obj(x.id)])
  }

  ghost predicate FooIs(m: map<Key, Id>, f: FooFields, f': FooFields) {
    f'.id == f.id && f'.name == f.name && f'.age == f.age && RefIs(m, f.parent, f'.parent)
  }

  /** Equal fields, with references renamed by `m`. */
  ghost predicate ObjIs(m: map<Key, Id>, o: GraphModel.Obj, o': GraphModel.Obj) {
    match o
    case Foo(f) => o'.Foo? && FooIs(m, f, o'.foo)
    case FooExt(f, c) => o'.FooExt? && FooIs(m, f, o'.base) && RefIs(m, c, o'.childIds)
    case Foos(rs) => o'.Foos? && |o'.rs| == |rs| && forall i :: 0 <= i < |rs| ==> RefIs(m, rs[i], o'.rs[i])
    case _ => o' == o
  }

  /** `m` is a one-to-one map from the reached objects, and the strings they name, onto the
      objects the reader made, that respects every field and takes root to root. */
  ghost predicate Isomorphic(h: Heap, root: Ref, s: set<Id>, made: seq<GraphModel.Obj>, root': Ref, m: map<Key, Id>) {
    && (forall id :: id in s <==> Obj(id) in m)
    && (forall k :: k in m ==> KeyOk(h, k) && KeyIn(h, s, k) && m[k] < |made| && ObjIs(m, Content(h, k), made[m[k]]))
    && (forall k, k' :: k in m && k' in m && k != k' ==> m[k] != m[k'])
    && |m| == |made|
    && RefIs(m, root, root')
  }

  function Renaming(w: W, r: R): (m: map<Key, Id>)
    requires forall k :: k in w.ptrs ==> w.ptrs[k] in r.idx
    ensures m.Keys == w.ptrs.Keys
  {
    map k | k in w.ptrs :: r.idx[w.ptrs[k]]
  }

  lemma MatchesIs(w: W, r: R, o: GraphModel.Obj, o': GraphModel.Obj)
    requires (forall k :: k in w.ptrs ==> w.ptrs[k] in r.idx) && Matches(w, r, o, o')
    ensures ObjIs(Renaming(w, r), o, o')
    ensures forall id :: Refers(o, id) ==> Obj(id) in w.ptrs
  {
    if o.Foos? {
      assert forall i :: 0 <= i < |o.rs| ==> RefMatches(w, r, o.rs[i], o'.rs[i]);
      assert forall id :: To(id) in o.rs ==> exists i :: 0 <= i < |o.rs| && o.rs[i] == To(id);
    }
  }

  ghost function Ids(h: Heap, w: W): set<Id> { set id | id in h && Obj(id) in w.ptrs }

  lemma NoLimitFits(h: Heap, w: W, w': W)
    ensures Fits(h, 0, w, w')
  {
  }

  /** What the writer has met when it is done is exactly what the root reaches. */
  lemma WrittenIsReached(h: Heap, root: Ref)
    requires HeapOk(h) && RefOk(h, AnySlot, root) && |WriteRoot(h, root).out| < TWO63
    ensures Reached(h, root, Ids(h, WriteRoot(h, root)))
    ensures NewIn(h, Ids(h, WriteRoot(h, root)), W([], map[]), WriteRoot(h, root))
  {
    hide WriteRef, Sim, Kept, KeyIn, HeapOk;
    var w0, r0, w := W([], map[]), R(0, map[], []), WriteRoot(h, root);
    var s := Ids(h, w);
    EmptySim(h);
    RoundRef(h, w0, root, w.out, 0, r0);
    NoLimitFits(h, w0, w);
    var r := ReadRef(w.out, 0, r0).r;
    hide ReadRef, Fits, Matches;
    SimPos(h, w, r);
    forall id, id' | id in s && id' in h && Refers(h[id], id')
      ensures id' in s
    {
      var k := Obj(id);
      assert Done(h, w, r, k);
      MatchesIs(w, r, h[id], r.heap[Rid(w, r, k)]);
    }
    assert Closed(h, s) && Contains(s, root);
    forall t | Closed(h, t) && Contains(t, root)
      ensures s <= t
    {
      RefStays(h, w0, root, t);
      KeysInside(h, t, w);
    }
    RefStays(h, w0, root, s);
  }

  lemma KeysInside(h: Heap, t: set<Id>, w: W)
    requires NewIn(h, t, W([], map[]), w)
    ensures Ids(h, w) <= t
  {
    forall id | id in Ids(h, w)
      ensures id in t
    {
      assert KeyIn(h, t, Obj(id));
    }
  }

  lemma EmptySim(h: Heap)
    ensures Sim(h, W([], map[]), R(0, map[], []))
  {
  }

  lemma FitsReached(h: Heap, limit: nat, w: W)
    requires forall k :: k in w.ptrs ==> KeyOk(h, k)
    ensures Fits(h, limit, W([], map[]), w) <==> forall id :: id in Ids(h, w) ==> !Oversized(limit, h[id])
  {
    if forall id :: id in Ids(h, w) ==> !Oversized(limit, h[id]) {
      forall k | k in w.ptrs
        ensures Small(h, limit, k)
      {
        assert k.Obj? ==> k.id in Ids(h, w);
      }
    }
    if Fits(h, limit, W([], map[]), w) {
      forall id | id in Ids(h, w)
        ensures !Oversized(limit, h[id])
      {
        assert Small(h, limit, Obj(id));
      }
    }
  }

  lemma IsoFromSteps(h: Heap, root: Ref, w: W, r: R, root': Ref)
    requires Steps(h, W([], map[]), R(0, map[], []), w, r) && RefMatches(w, r, root, root')
    requires NewIn(h, Ids(h, w), W([], map[]), w)
    ensures (forall k :: k in w.ptrs ==> w.ptrs[k] in r.idx)
         && Isomorphic(h, root, Ids(h, w), r.heap, root', Renaming(w, r))
  {
    hide Steps, Sim, ObjIs, KeyIn, RefMatches, RefIs, Content;
    var w0, r0 := W([], map[]), R(0, map[], []);
    StepsSim(h, w0, r0, w, r);
    SimPos(h, w, r);
    SimSize(h, w, r);
    RenamingOneToOne(h, w, r);
    RootIs(w, r, root, root');
    var m := Renaming(w, r);
    assert m.Keys == w.ptrs.Keys;
    forall k | k in m
      ensures KeyOk(h, k) && m[k] < |r.heap| && ObjIs(m, Content(h, k), r.heap[m[k]])
    {
      IsoKey(h, w, r, k);
    }
  }

  lemma IsoKey(h: Heap, w: W, r: R, k: Key)
    requires Steps(h, W([], map[]), R(0, map[], []), w, r) && k in w.ptrs
    requires forall k :: k in w.ptrs ==> w.ptrs[k] in r.idx
    ensures var m := Renaming(w, r);
            KeyOk(h, k) && m[k] < |r.heap| && ObjIs(m, Content(h, k), r.heap[m[k]])
  {
    assert Done(h, w, r, k);
    hide Steps, Matches, ObjIs;
    MatchesIs(w, r, Content(h, k), r.heap[Rid(w, r, k)]);
  }

  lemma RootIs(w: W, r: R, x: Ref, x': Ref)
    requires (forall k :: k in w.ptrs ==> w.ptrs[k] in r.idx) && RefMatches(w, r, x, x')
    ensures RefIs(Renaming(w, r), x, x')
  {
  }

  lemma RenamingOneToOne(h: Heap, w: W, r: R)
    requires Sim(h, w, r) && forall k :: k in w.ptrs ==> Known(w, r, k)
    ensures var m := Renaming(w, r); forall k, k' :: k in m && k' in m && k != k' ==> m[k] != m[k']
  {
    assert OneToOne(w, r);
    hide Sim;
  }

  lemma SimSize(h: Heap, w: W, r: R)
    requires Sim(h, w, r)
    ensures |r.heap| == |w.ptrs| == |w.ptrs.Keys|
  {
  }

  /** Any graph, with any sharing and any cycles, written at any place and read back with any
      bytes after it: the read succeeds exactly when no reached list is over the limit, uses
      up exactly the bytes written, and makes an isomorphic graph. */
  lemma GraphReadsBack(h: Heap, root: Ref, b: bytes, limit: nat)
    returns (s: set<Id>, m: map<Key, Id>)
    requires HeapOk(h) && RefOk(h, AnySlot, root)
    requires WriteRoot(h, root).out <= b && |b| < TWO63
    ensures Reached(h, root, s)
    ensures ReadRoot(b, limit).Got? <==> forall id :: id in s && id in h ==> !Oversized(limit, h[id])
    ensures var g := ReadRoot(b, limit);
            g.Got? ==> g.r.pos == |WriteRoot(h, root).out| && Isomorphic(h, root, s, g.r.heap, g.v, m)
  {
    hide WriteRef, Sim, Kept, KeyIn, HeapOk, ReadRef, Reached, Isomorphic, NewIn, Fits;
    var w0, r0, w := W([], map[]), R(0, map[], []), WriteRoot(h, root);
    EmptySim(h);
    WrittenIsReached(h, root);
    s := Ids(h, w);
    m := map[];
    RoundRef(h, w0, root, w.out, 0, r0);
    NoLimitFits(h, w0, w);
    SimPos(h, w, ReadRef(w.out, 0, r0).r);
    FitsReached(h, limit, w);
    RoundRef(h, w0, root, b, limit, r0);
    var g := ReadRoot(b, limit);
    if g.Got? {
      IsoFromSteps(h, root, w, g.r, g.v);
      SimPos(h, w, g.r);
      m := Renaming(w, g.r);
    }
  }

  lemma WriteNewFoo(h: Heap, w: W, id: Id, f: FooFields)
    requires HeapOk(h) && id in h && h[id] == Foo(f) && Obj(id) !in w.ptrs
    ensures RefOk(h, FooSlot, f.parent)
    ensures var w1 := Put(Enter(Header(w, 3), Obj(id)), Int32Bytes(f.id));
            WriteRef(h, w, To(id)) == WriteRef(h, Put(WriteName(w1, f.name), AgeBytes(f.age)), f.parent)
  {
    assert ObjOk(h, h[id]);
    hide WriteRef, WriteFoo;
    WriteNew(h, w, id);
    FooFieldsIn(h, Enter(Header(w, 3), Obj(id)), f);
  }

  lemma WriteNew(h: Heap, w: W, id: Id)
    requires HeapOk(h) && id in h && h[id].Foo? && Obj(id) !in w.ptrs
    ensures RefOk(h, FooSlot, h[id].foo.parent)
    ensures WriteRef(h, w, To(id)) == WriteFoo(h, Enter(Header(w, 3), Obj(id)), h[id].foo)
  {
    assert ObjOk(h, h[id]);
    hide Encode, WriteFoo;
  }

  lemma FooFieldsIn(h: Heap, w: W, f: FooFields)
    requires HeapOk(h) && RefOk(h, FooSlot, f.parent)
    ensures WriteFoo(h, w, f)
         == WriteRef(h, Put(WriteName(Put(w, Int32Bytes(f.id)), f.name), AgeBytes(f.age)), f.parent)
  {
    hide WriteRef, WriteName, Int32Bytes, AgeBytes;
  }

  lemma WriteOldFoo(h: Heap, w: W, id: Id)
    requires HeapOk(h) && id in h && h[id].Foo? && Obj(id) in w.ptrs
    ensures WriteRef(h, w, To(id)).out == w.out + Encode(3) + Encode(w.ptrs[Obj(id)])
  {
    hide Encode;
  }

  lemma SmallBytes(n: nat)
    requires n < 128
    ensures Encode(n) == [n]
  {
  }

  /** The bytes of a small graph: an object that is its own parent. */
  lemma SelfParentBytes(h: Heap)
    requires h == map[0 := Foo(FooFields(7, Name([97]), Age(-3), To(0)))]
    ensures HeapOk(h) && RefOk(h, AnySlot, To(0))
    ensures WriteRef(h, W([], map[]), To(0)).out == [3, 1, 14, 1, 4, 1, 97, 1, 5, 3, 1]
  {
    assert ObjOk(h, h[0]);
    hide WriteRef, Encode;
    SmallBytes(1);
    SmallBytes(3);
    SmallBytes(4);
    SmallBytes(5);
    SmallBytes(14);
    var w0 := W([], map[]);
    WriteNewFoo(h, w0, 0, h[0].foo);
    hide HeapOk, RefOk, ObjOk;
    var w2 := Put(Enter(Header(w0, 3), Obj(0)), Int32Bytes(7));
    assert w2.out == [3, 1, 14] && w2.ptrs == map[Key.Obj(0) := 1];
    var w3 := WriteName(w2, Name([97]));
    assert w3.out == [3, 1, 14, 1, 4, 1, 97] && w3.ptrs[Key.Obj(0)] == 1;
    var w4 := Put(w3, AgeBytes(Age(-3)));
    assert w4.out == [3, 1, 14, 1, 4, 1, 97, 1, 5];
    WriteOldFoo(h, w4, 0);
  }
}
