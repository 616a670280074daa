/** Reading what was written gives back the same graph: same objects, same fields, same
    sharing, including cycles. */
module GraphRoundTrip {
  import opened Words
  import opened Varint
  import opened GraphModel

  // ----- the correspondence between writer and reader

  predicate KeyOk(h: Heap, k: Key) { k.Obj? ==> k.id in h }

  function Content(h: Heap, k: Key): GraphModel.Obj
    requires KeyOk(h, k)
  {
    if k.Obj? then h[k.id] else Str(k.text)
  }

  /** The pointer `k` has a place in the reader's table. */
  ghost predicate Known(w: W, r: R, k: Key) {
    k in w.ptrs && w.ptrs[k] in r.idx && r.idx[w.ptrs[k]] < |r.heap|
  }

  /** The object the reader made for the pointer `k`. */
  function Rid(w: W, r: R, k: Key): Id
    requires Known(w, r, k)
  {
    r.idx[w.ptrs[k]]
  }

  ghost predicate Registered(h: Heap, w: W, r: R, k: Key) {
    && KeyOk(h, k) && Known(w, r, k) && w.ptrs[k] < |w.out|
    && TypeId(r.heap[Rid(w, r, k)]) == TypeId(Content(h, k))
    && (k.Interned? ==> r.heap[Rid(w, r, k)] == Str(k.text))
  }

  /** Every pointer the writer has seen is one object of the reader, and there are no others. */
  ghost predicate Sim(h: Heap, w: W, r: R) {
    && r.pos == |w.out|
    && |r.heap| == |w.ptrs|
    && (forall p :: p in r.idx ==> 0 <= p < |w.out|)
    && (forall k :: k in w.ptrs ==> Registered(h, w, r, k))
    && OneToOne(w, r)
  }

  ghost predicate OneToOne(w: W, r: R) {
    forall k, k' :: k in w.ptrs && k' in w.ptrs && k != k' && Known(w, r, k) && Known(w, r, k') ==>
      w.ptrs[k] != w.ptrs[k'] && Rid(w, r, k) != Rid(w, r, k')
  }

  ghost predicate RefMatches(w: W, r: R, x: Ref, x': Ref) {
    if x.Nil? then x'.Nil? else Known(w, r, Obj(x.id)) && x' == To(Rid(w, r, Obj(x.id)))
  }

  ghost predicate FooMatches(w: W, r: R, f: FooFields, f': FooFields) {
    f'.id == f.id && f'.name == f.name && f'.age == f.age && RefMatches(w, r, f.parent, f'.parent)
  }

  ghost predicate RefsMatch(w: W, r: R, rs: seq<Ref>, rs': seq<Ref>) {
    |rs| == |rs'| && forall i :: 0 <= i < |rs| ==> RefMatches(w, r, rs[i], rs'[i])
  }

  /** Equal up to the renaming of references. */
  ghost predicate Matches(w: W, r: R, o: GraphModel.Obj, o': GraphModel.Obj) {
    match o
    case Foo(f) => o'.Foo? && FooMatches(w, r, f, o'.foo)
    case FooExt(f, c) => o'.FooExt? && FooMatches(w, r, f, o'.base) && RefMatches(w, r, c, o'.childIds)
    case Foos(rs) => o'.Foos? && RefsMatch(w, r, rs, o'.rs)
    case _ => o' == o
  }

  ghost predicate Done(h: Heap, w: W, r: R, k: Key) {
    KeyOk(h, k) && Known(w, r, k) && Matches(w, r, Content(h, k), r.heap[Rid(w, r, k)])
  }

  ghost predicate Kept(w: W, r: R, w': W, r': R) {
    && Grown(w, w')
    && (forall p :: p in r.idx ==> p in r'.idx && r'.idx[p] == r.idx[p])
    && |r.heap| <= |r'.heap| && forall i :: 0 <= i < |r.heap| ==> r'.heap[i] == r.heap[i]
  }

  /** One stretch of writing and the matching stretch of reading: what was there stays, what
      is new is complete. */
  ghost predicate Steps(h: Heap, w: W, r: R, w': W, r': R) {
    && Sim(h, w', r') && Kept(w, r, w', r')
    && forall k :: k in w'.ptrs && k !in w.ptrs ==> Done(h, w', r', k)
  }

  // ----- correspondences only grow

  lemma RefMatchesGrows(w: W, r: R, w': W, r': R, x: Ref, x': Ref)
    requires Kept(w, r, w', r') && RefMatches(w, r, x, x')
    ensures RefMatches(w', r', x, x')
  {
  }

  lemma MatchesGrows(w: W, r: R, w': W, r': R, o: GraphModel.Obj, o': GraphModel.Obj)
    requires Kept(w, r, w', r') && Matches(w, r, o, o')
    ensures Matches(w', r', o, o')
  {
    hide Kept, RefMatches;
    match o
    case Foo(f) => RefMatchesGrows(w, r, w', r', f.parent, o'.foo.parent);
    case FooExt(f, c) =>
      RefMatchesGrows(w, r, w', r', f.parent, o'.base.parent);
      RefMatchesGrows(w, r, w', r', c, o'.childIds);
    case Foos(rs) =>
      forall i | 0 <= i < |rs|
        ensures RefMatches(w', r', rs[i], o'.rs[i])
      {
        RefMatchesGrows(w, r, w', r', rs[i], o'.rs[i]);
      }
    case _ =>
  }

  lemma DoneGrows(h: Heap, w: W, r: R, w': W, r': R, k: Key)
    requires Kept(w, r, w', r') && Done(h, w, r, k)
    ensures Done(h, w', r', k)
  {
    MatchesGrows(w, r, w', r', Content(h, k), r.heap[Rid(w, r, k)]);
    hide Matches;
  }

  lemma KeptTrans(w: W, r: R, w1: W, r1: R, w2: W, r2: R)
    requires Kept(w, r, w1, r1) && Kept(w1, r1, w2, r2)
    ensures Kept(w, r, w2, r2)
  {
  }

  lemma StepsTrans(h: Heap, w: W, r: R, w1: W, r1: R, w2: W, r2: R)
    requires Steps(h, w, r, w1, r1) && Steps(h, w1, r1, w2, r2)
    ensures Steps(h, w, r, w2, r2)
  {
    hide Kept, Done, Sim;
    KeptTrans(w, r, w1, r1, w2, r2);
    forall k | k in w2.ptrs && k !in w.ptrs
      ensures Done(h, w2, r2, k)
    {
      if k in w1.ptrs { DoneGrows(h, w1, r1, w2, r2, k); }
    }
  }

  /** Bytes that register nothing. */
  lemma PutSteps(h: Heap, w: W, r: R, b: bytes)
    requires Sim(h, w, r)
    ensures Steps(h, w, r, Put(w, b), r.(pos := r.pos + |b|))
  {
    var w', r' := Put(w, b), r.(pos := r.pos + |b|);
    forall k | k in w'.ptrs
      ensures Registered(h, w', r', k)
    {
      assert Registered(h, w, r, k);
    }
  }

  // ----- scalars read back

  lemma UIntBack(w: W, v: u64, b: bytes, r: R)
    requires r.pos == |w.out| && w.out + Encode(v) <= b
    ensures GetUInt(b, r) == Got(v, r.(pos := r.pos + |Encode(v)|))
  {
    RoundTrip(w.out, v, b);
    hide Decode, Encode;
  }

  lemma Int32Back(w: W, v: i32, b: bytes, r: R)
    requires r.pos == |w.out| && w.out + Int32Bytes(v) <= b
    ensures GetInt32(b, r) == Got(v, r.(pos := r.pos + |Int32Bytes(v)|))
  {
    UIntBack(w, ZigZag(v), b, r);
    ZigZagRoundTrip(v);
    hide Encode, GetUInt;
  }

  lemma AgeBack(w: W, a: Age, b: bytes, r: R)
    requires r.pos == |w.out| && w.out + AgeBytes(a) <= b
    ensures GetAge(b, r) == Got(a, r.(pos := r.pos + |AgeBytes(a)|))
  {
    hide Int32Bytes, GetInt32;
    assert b[r.pos] == AgeBytes(a)[0];
    if a.Age? {
      assert w.out + [1] + Int32Bytes(a.value) == w.out + AgeBytes(a);
      Int32Back(Put(w, [1]), a.value, b, r.(pos := r.pos + 1));
    }
  }

  lemma TextBack(w: W, s: bytes, b: bytes, r: R)
    requires r.pos == |w.out| && w.out + TextBytes(s) <= b && |b| < TWO63
    ensures GetText(b, r) == Got(s, r.(pos := r.pos + |TextBytes(s)|))
    ensures GetUInt(b, r) == Got(|s|, r.(pos := r.pos + |Encode(|s|)|))
  {
    hide Encode, GetUInt;
    var e := Encode(|s|);
    assert w.out + e + s == w.out + TextBytes(s);
    UIntBack(w, |s|, b, r);
    var at := r.pos + |e|;
    assert b[at..at + |s|] == (w.out + e + s)[at..at + |s|] == s;
  }

  lemma PrefixParts(a: bytes, e: bytes, rest: bytes, b: bytes)
    requires a + (e + rest) <= b
    ensures a + e <= b && (a + e) + rest <= b
  {
    assert a + (e + rest) == (a + e) + rest;
    assert a + e == (a + (e + rest))[..|a| + |e|];
  }

  lemma {:induction false} IntsBack(w: W, xs: seq<i32>, b: bytes, r: R)
    requires r.pos == |w.out| && w.out + IntsBytes(xs) <= b
    ensures GetInts(b, r, |xs|) == Got(xs, r.(pos := r.pos + |IntsBytes(xs)|))
    ensures |xs| <= |IntsBytes(xs)|
    decreases |xs|
  {
    hide Int32Bytes, GetInt32;
    if xs != [] {
      var e, rest := Int32Bytes(xs[0]), IntsBytes(xs[1..]);
      PrefixParts(w.out, e, rest, b);
      Int32Back(w, xs[0], b, r);
      Int32Size(xs[0]);
      var r1 := r.(pos := r.pos + |e|);
      IntsBack(Put(w, e), xs[1..], b, r1);
      hide IntsBytes;
      assert [xs[0]] + xs[1..] == xs;
      assert GetInts(b, r, |xs|) == Got([xs[0]] + xs[1..], r1.(pos := r1.pos + |rest|));
    }
  }

  lemma Int32Size(v: i32)
    ensures |Int32Bytes(v)| >= 1
  {
  }

  // ----- registering a pointer

  lemma EnterSim(h: Heap, w: W, r: R, k: Key, o: GraphModel.Obj)
    requires Sim(h, w, r) && KeyOk(h, k) && k !in w.ptrs
    requires TypeId(o) == TypeId(Content(h, k)) && (k.Interned? ==> o == Str(k.text))
    ensures var w' := Enter(w, k);
            var r' := R(|w'.out|, r.idx[|w.out| := |r.heap|], r.heap + [o]);
            && Sim(h, w', r') && Kept(w, r, w', r') && Known(w', r', k) && Rid(w', r', k) == |r.heap|
            && forall k' :: k' in w'.ptrs && k' !in w.ptrs ==> k' == k
  {
    var w' := Enter(w, k);
    var r' := R(|w'.out|, r.idx[|w.out| := |r.heap|], r.heap + [o]);
    hide Registered, TypeId, Content, Encode, OneToOne, Kept;
    assert |w'.ptrs| == |w.ptrs| + 1;
    forall j | j in w'.ptrs
      ensures Registered(h, w', r', j)
    {
      EnterOne(h, w, r, k, o, j);
    }
    EnterInjective(h, w, r, k, o);
    EnterKept(w, r, k, o);
  }

  lemma EnterKept(w: W, r: R, k: Key, o: GraphModel.Obj)
    requires k !in w.ptrs && forall p :: p in r.idx ==> 0 <= p < |w.out|
    ensures var w' := Enter(w, k);
            var r' := R(|w'.out|, r.idx[|w.out| := |r.heap|], r.heap + [o]);
            Kept(w, r, w', r')
  {
    hide Encode;
  }

  lemma EnterInjective(h: Heap, w: W, r: R, k: Key, o: GraphModel.Obj)
    requires Sim(h, w, r) && k !in w.ptrs
    ensures var w' := Enter(w, k);
            var r' := R(|w'.out|, r.idx[|w.out| := |r.heap|], r.heap + [o]);
            OneToOne(w', r')
  {
    hide Encode, TypeId, Content;
    var w' := Enter(w, k);
    var r' := R(|w'.out|, r.idx[|w.out| := |r.heap|], r.heap + [o]);
    forall j | j in w.ptrs
      ensures Known(w, r, j) && w'.ptrs[j] == w.ptrs[j] < |w.out| && r'.idx[w.ptrs[j]] == Rid(w, r, j) < |r.heap|
    {
      assert Registered(h, w, r, j);
    }
    hide Sim;
  }

  lemma EnterOne(h: Heap, w: W, r: R, k: Key, o: GraphModel.Obj, j: Key)
    requires Sim(h, w, r) && KeyOk(h, k) && k !in w.ptrs
    requires TypeId(o) == TypeId(Content(h, k)) && (k.Interned? ==> o == Str(k.text))
    requires j in Enter(w, k).ptrs
    ensures var w' := Enter(w, k);
            var r' := R(|w'.out|, r.idx[|w.out| := |r.heap|], r.heap + [o]);
            && Registered(h, w', r', j)
            && (j != k ==> w.ptrs[j] < |w.out| && w.ptrs[j] in r.idx && r.idx[w.ptrs[j]] < |r.heap|)
  {
    hide Encode;
    assert |Encode(|w.out|)| >= 1;
    if j != k { assert Registered(h, w, r, j); }
  }

  /** Filling in the object that was registered empty completes the step. */
  lemma FillSteps(h: Heap, w: W, r: R, w2: W, r2: R, w3: W, r3: R, k: Key, o: GraphModel.Obj)
    requires Sim(h, w2, r2) && Kept(w, r, w2, r2) && k.Obj? && Known(w2, r2, k) && Rid(w2, r2, k) == |r.heap|
    requires forall k' :: k' in w2.ptrs && k' !in w.ptrs ==> k' == k
    requires forall k' :: k' in w.ptrs ==> Known(w, r, k')
    requires Steps(h, w2, r2, w3, r3) && Matches(w3, r3, Content(h, k), o)
    ensures Steps(h, w, r, w3, r3.(heap := r3.heap[|r.heap| := o])) && Known(w3, r3, k) && Rid(w3, r3, k) == |r.heap|
  {
    var me := |r.heap|;
    var r4 := r3.(heap := r3.heap[me := o]);
    assert Known(w3, r3, k) && Rid(w3, r3, k) == me;
    FillSim(h, w3, r3, k, o);
    hide Sim, TypeId, OneToOne;
    forall j | j in w3.ptrs && j !in w.ptrs
      ensures Done(h, w3, r4, j)
    {
      if j != k { assert Done(h, w3, r3, j); }
      FillDone(h, w3, r3, k, o, j);
    }
    hide Matches, Done;
    KeptTrans(w, r, w2, r2, w3, r3);
  }

  lemma FillSim(h: Heap, w: W, r: R, k: Key, o: GraphModel.Obj)
    requires Sim(h, w, r) && k.Obj? && k in w.ptrs && Registered(h, w, r, k) && Matches(w, r, Content(h, k), o)
    ensures Sim(h, w, r.(heap := r.heap[Rid(w, r, k) := o]))
  {
    var me := Rid(w, r, k);
    var r' := r.(heap := r.heap[me := o]);
    assert TypeId(o) == TypeId(Content(h, k));
    hide TypeId, Content, Matches;
    forall j | j in w.ptrs
      ensures Registered(h, w, r', j)
    {
      assert Registered(h, w, r, j);
      assert j != k ==> Rid(w, r, j) != me;
    }
    assert OneToOne(w, r');
  }

  lemma FillDone(h: Heap, w: W, r: R, k: Key, o: GraphModel.Obj, j: Key)
    requires Sim(h, w, r) && k in w.ptrs && Registered(h, w, r, k) && Matches(w, r, Content(h, k), o)
    requires j in w.ptrs && (j == k || Done(h, w, r, j))
    ensures Done(h, w, r.(heap := r.heap[Rid(w, r, k) := o]), j)
  {
    var r' := r.(heap := r.heap[Rid(w, r, k) := o]);
    assert Registered(h, w, r, j);
    hide TypeId, Matches;
    if j == k {
      SameIndex(w, r, r', Content(h, k), o);
    } else {
      assert Rid(w, r, j) != Rid(w, r, k);
      SameIndex(w, r, r', Content(h, j), r.heap[Rid(w, r, j)]);
    }
  }

  /** Matching looks only at the reader's table, not at its objects. */
  lemma SameIndex(w: W, r: R, r': R, o: GraphModel.Obj, o': GraphModel.Obj)
    requires Matches(w, r, o, o') && r'.idx == r.idx && |r'.heap| == |r.heap|
    ensures Matches(w, r', o, o')
  {
  }

  // ----- one occurrence of a pointer

  /** The reader once it has read the type and offset that introduce a new object. */
  function Opened(w: W, r: R, k: Key, t: nat): R
    requires 1 <= t <= 6
  {
    var w1 := Header(w, t);
    R(|Enter(w1, k).out|, r.idx[|w1.out| := |r.heap|], r.heap + [Zero(t)])
  }

  /** A repeated pointer takes the table branch and yields the object made before. */
  lemma OldRef(h: Heap, w: W, k: Key, b: bytes, limit: nat, r: R)
    requires Sim(h, w, r) && k in w.ptrs && |b| < TWO63
    requires KeyOk(h, k) && Known(w, r, k)
    requires Put(Header(w, TypeId(Content(h, k))), Encode(w.ptrs[k])).out <= b
    ensures var w' := Put(Header(w, TypeId(Content(h, k))), Encode(w.ptrs[k]));
            ReadRef(b, limit, r) == Got(To(Rid(w, r, k)), r.(pos := |w'.out|))
  {
    var t := TypeId(Content(h, k));
    var w1 := Header(w, t);
    assert Registered(h, w, r, k);
    assert w1.out <= b by { assert w1.out <= w1.out + Encode(w.ptrs[k]); }
    UIntBack(w, t, b, r);
    UIntBack(w1, w.ptrs[k], b, r.(pos := |w1.out|));
    hide Encode, GetUInt, Sim, Content, ReadNew;
  }

  /** A first occurrence takes the creation branch. */
  lemma NewRef(w: W, k: Key, t: nat, b: bytes, limit: nat, r: R)
    requires r.pos == |w.out| && 1 <= t <= 6 && |b| < TWO63
    requires Enter(Header(w, t), k).out <= b
    ensures ReadRef(b, limit, r) == Filled(|r.heap|, ReadBody(b, limit, Opened(w, r, k, t), t))
  {
    hide Encode, GetUInt, ReadBody, Lookup, Filled;
    var w1 := Header(w, t);
    assert w1.out <= b by { assert w1.out <= w1.out + Encode(|w1.out|); }
    UIntBack(w, t, b, r);
    UIntBack(w1, |w1.out|, b, r.(pos := |w1.out|));
  }

  /** The state with the empty object registered corresponds again. */
  lemma OpenedSim(h: Heap, w: W, r: R, k: Key)
    requires Sim(h, w, r) && KeyOk(h, k) && k.Obj? && k !in w.ptrs
    ensures var t := TypeId(Content(h, k));
            var w2, r2 := Enter(Header(w, t), k), Opened(w, r, k, t);
            && Sim(h, w2, r2) && Kept(w, r, w2, r2) && Known(w2, r2, k) && Rid(w2, r2, k) == |r.heap|
            && forall k' :: k' in w2.ptrs && k' !in w.ptrs ==> k' == k
  {
    var t := TypeId(Content(h, k));
    var e := Encode(t);
    assert TypeId(Zero(t)) == t;
    hide Encode, Sim, TypeId, Zero, Kept, Content;
    PutSteps(h, w, r, e);
    var w1, r1 := Put(w, e), r.(pos := r.pos + |e|);
    EnterSim(h, w1, r1, k, Zero(t));
    SimPos(h, w, r);
    KeptTrans(w, r, w1, r1, Enter(w1, k), Opened(w, r, k, t));
  }

  lemma SimPos(h: Heap, w: W, r: R)
    requires Sim(h, w, r)
    ensures r.pos == |w.out| && forall k :: k in w.ptrs ==> KeyOk(h, k) && Known(w, r, k)
  {
    hide TypeId;
    forall k | k in w.ptrs
      ensures KeyOk(h, k) && Known(w, r, k)
    {
      assert Registered(h, w, r, k);
    }
  }

  // ----- names

  lemma RoundName(h: Heap, w: W, n: Name, b: bytes, limit: nat, r: R)
    requires Sim(h, w, r) && WriteName(w, n).out <= b && |b| < TWO63
    ensures var g := ReadName(b, limit, r);
            && g.Got? && g.v == n && Steps(h, w, r, WriteName(w, n), g.r)
            && forall k :: k in WriteName(w, n).ptrs && k !in w.ptrs ==> k.Interned?
  {
    hide Sim, Steps, Encode, ReadRef, GetUInt, TextBytes;
    if n.NoName? {
      NilRead(h, w, b, limit, r);
    } else if Interned(n.text) in w.ptrs {
      OldName(h, w, n.text, b, limit, r);
    } else {
      NewName(h, w, n.text, b, limit, r);
    }
  }

  /** A missing object or string is a single zero byte. */
  lemma NilRead(h: Heap, w: W, b: bytes, limit: nat, r: R)
    requires Sim(h, w, r) && Put(w, [0]).out <= b
    ensures var r' := r.(pos := r.pos + 1);
            ReadRef(b, limit, r) == Got(Nil, r') && Steps(h, w, r, Put(w, [0]), r')
  {
    assert Encode(0) == [0];
    hide Sim, Steps, Encode, GetUInt;
    SimPos(h, w, r);
    UIntBack(w, 0, b, r);
    PutSteps(h, w, r, [0]);
  }

  lemma OldName(h: Heap, w: W, s: bytes, b: bytes, limit: nat, r: R)
    requires Sim(h, w, r) && Interned(s) in w.ptrs && |b| < TWO63
    requires WriteName(w, Name(s)).out <= b
    ensures var g := ReadName(b, limit, r); g.Got? && g.v == Name(s) && Steps(h, w, r, WriteName(w, Name(s)), g.r)
  {
    hide Steps, Encode, ReadRef;
    var k := Interned(s);
    assert Registered(h, w, r, k);
    hide Sim;
    SimPos(h, w, r);
    OldRef(h, w, k, b, limit, r);
    var e := Encode(1) + Encode(w.ptrs[k]);
    assert WriteName(w, Name(s)) == Put(w, e);
    PutSteps(h, w, r, e);
  }

  lemma NewName(h: Heap, w: W, s: bytes, b: bytes, limit: nat, r: R)
    requires Sim(h, w, r) && Interned(s) !in w.ptrs && |b| < TWO63
    requires WriteName(w, Name(s)).out <= b
    ensures var g := ReadName(b, limit, r); g.Got? && g.v == Name(s) && Steps(h, w, r, WriteName(w, Name(s)), g.r)
  {
    hide Encode, TextBytes, Sim, Steps, Kept;
    var k := Interned(s);
    var w1 := Header(w, 1);
    var w2 := Enter(w1, k);
    var w3 := Put(w2, TextBytes(s));
    NewNameRead(w, s, b, limit, r) by { SimPos(h, w, r); }
    hide ReadRef;
    var r1 := r.(pos := |w1.out|);
    var r2 := R(|w2.out|, r.idx[|w1.out| := |r.heap|], r.heap + [Str(s)]);
    var r3 := r2.(pos := |w3.out|);
    assert Steps(h, w, r, w1, r1) by {
      SimPos(h, w, r);
      PutSteps(h, w, r, Encode(1));
    }
    StepsSim(h, w, r, w1, r1);
    EnterSteps(h, w1, r1, s);
    StepsTrans(h, w, r, w1, r1, w2, r2);
    StepsSim(h, w, r, w2, r2);
    PutSteps(h, w2, r2, TextBytes(s));
    StepsTrans(h, w, r, w2, r2, w3, r3);
  }

  lemma NewNameRead(w: W, s: bytes, b: bytes, limit: nat, r: R)
    requires Interned(s) !in w.ptrs && r.pos == |w.out| && |b| < TWO63
    requires WriteName(w, Name(s)).out <= b
    ensures var w1, w3 := Header(w, 1), WriteName(w, Name(s));
            ReadRef(b, limit, r)
            == Got(To(|r.heap|), R(|w3.out|, r.idx[|w1.out| := |r.heap|], r.heap + [Str(s)]))
  {
    hide Encode, TextBytes, ReadRef;
    var k := Interned(s);
    var w2 := Enter(Header(w, 1), k);
    assert w2.out <= b by { assert w2.out <= Put(w2, TextBytes(s)).out; }
    NewRef(w, k, 1, b, limit, r);
    TextBack(w2, s, b, Opened(w, r, k, 1));
    assert (r.heap + [Zero(1)])[|r.heap| := Str(s)] == r.heap + [Str(s)];
    hide GetText, GetUInt, ReadFoo, ReadSlot, ReadRefs, GetInts;
  }

  lemma StepsSim(h: Heap, w: W, r: R, w': W, r': R)
    requires Steps(h, w, r, w', r')
    ensures Sim(h, w', r')
  {
  }

  lemma EnterSteps(h: Heap, w: W, r: R, s: bytes)
    requires Interned(s) !in w.ptrs
    requires Sim(h, w, r)
    ensures var w' := Enter(w, Interned(s));
            Steps(h, w, r, w', R(|w'.out|, r.idx[|w.out| := |r.heap|], r.heap + [Str(s)]))
  {
    var k := Interned(s);
    assert TypeId(Str(s)) == TypeId(Content(h, k));
    hide Sim, Encode, Kept, TypeId;
    EnterSim(h, w, r, k, Str(s));
  }

  // ----- the length limit

  predicate Oversized(limit: nat, o: GraphModel.Obj) {
    match o
    case Blob(s) => Exceeds(limit, |s|)
    case Ints(xs) => Exceeds(limit, |xs|)
    case Foos(rs) => Exceeds(limit, |rs|)
    case _ => false
  }

  ghost predicate Small(h: Heap, limit: nat, k: Key) { KeyOk(h, k) ==> !Oversized(limit, Content(h, k)) }

  /** Nothing first met between `w` and `w'` is over the limit. */
  ghost predicate Fits(h: Heap, limit: nat, w: W, w': W) {
    forall k :: k in w'.ptrs && k !in w.ptrs ==> Small(h, limit, k)
  }

  lemma FitsSplit(h: Heap, limit: nat, w: W, w1: W, w2: W)
    requires Grown(w, w1) && Grown(w1, w2)
    ensures Fits(h, limit, w, w2) <==> Fits(h, limit, w, w1) && Fits(h, limit, w1, w2)
  {
    hide Small;
  }

  // ----- what reading each kind of thing achieves

  ghost predicate RefBack(h: Heap, limit: nat, w: W, r: R, w': W, x: Ref, g: Got<Ref>) {
    if Fits(h, limit, w, w') then g.Got? && Steps(h, w, r, w', g.r) && RefMatches(w', g.r, x, g.v) else g.Panic?
  }

  ghost predicate FooBack(h: Heap, limit: nat, w: W, r: R, w': W, f: FooFields, g: Got<FooFields>) {
    if Fits(h, limit, w, w') then g.Got? && Steps(h, w, r, w', g.r) && FooMatches(w', g.r, f, g.v) else g.Panic?
  }

  ghost predicate RefsBack(h: Heap, limit: nat, w: W, r: R, w': W, rs: seq<Ref>, g: Got<seq<Ref>>) {
    if Fits(h, limit, w, w') then g.Got? && Steps(h, w, r, w', g.r) && RefsMatch(w', g.r, rs, g.v) else g.Panic?
  }

  ghost predicate BodyBack(h: Heap, limit: nat, w: W, r: R, w': W, o: GraphModel.Obj, g: Got<GraphModel.Obj>) {
    if !Oversized(limit, o) && Fits(h, limit, w, w')
    then g.Got? && Steps(h, w, r, w', g.r) && Matches(w', g.r, o, g.v)
    else g.Panic?
  }

  // ----- the induction over the writer's traversal

  lemma {:induction false} RoundRef(h: Heap, w: W, x: Ref, b: bytes, limit: nat, r: R)
    requires HeapOk(h) && RefOk(h, AnySlot, x) && Sim(h, w, r)
    requires |b| < TWO63 && WriteRef(h, w, x).out <= b
    ensures RefBack(h, limit, w, r, WriteRef(h, w, x), x, ReadRef(b, limit, r))
    decreases Unvisited(h, w), 1
  {
    var w' := WriteRef(h, w, x);
    if x.Nil? {
      hide Sim, ReadRef, Encode;
      NilRead(h, w, b, limit, r);
    } else {
      var k := Obj(x.id);
      if k in w.ptrs {
        hide Sim, ReadRef, Encode;
        RoundOld(h, w, k, b, limit, r);
      } else {
        var t := TypeId(h[x.id]);
        var w2, r2 := Enter(Header(w, t), k), Opened(w, r, k, t);
        assert x.id in Unvisited(h, w) && x.id !in Unvisited(h, w2);
        hide Sim, Steps, Kept, Encode, TypeId, ReadRef, ReadBody, Matches, Fits, GetUInt;
        OpenedSim(h, w, r, k);
        assert WriteBody(h, w2, h[x.id]) == w';
        hide WriteRef, WriteBody, HeapOk;
        RoundBody(h, w2, h[x.id], b, limit, r2);
        SimPos(h, w, r);
        NewRef(w, k, t, b, limit, r);
        CloseRef(h, limit, w, r, w2, r2, w', k, ReadBody(b, limit, r2, t));
      }
    }
  }

  lemma RoundOld(h: Heap, w: W, k: Key, b: bytes, limit: nat, r: R)
    requires Sim(h, w, r) && k.Obj? && k in w.ptrs && KeyOk(h, k) && |b| < TWO63
    requires Put(Header(w, TypeId(Content(h, k))), Encode(w.ptrs[k])).out <= b
    ensures var w' := Put(Header(w, TypeId(Content(h, k))), Encode(w.ptrs[k]));
            RefBack(h, limit, w, r, w', To(k.id), ReadRef(b, limit, r))
  {
    var w' := Put(Header(w, TypeId(Content(h, k))), Encode(w.ptrs[k]));
    hide Sim, Encode, ReadRef, TypeId, Kept, Done;
    SimPos(h, w, r);
    OldRef(h, w, k, b, limit, r);
    var e := Encode(TypeId(Content(h, k))) + Encode(w.ptrs[k]);
    assert w' == Put(w, e);
    PutSteps(h, w, r, e);
  }

  /** From the content of a new object to the reference to it. */
  lemma CloseRef(h: Heap, limit: nat, w: W, r: R, w2: W, r2: R, w': W, k: Key, g: Got<GraphModel.Obj>)
    requires Sim(h, w, r) && KeyOk(h, k) && k.Obj? && k !in w.ptrs && Grown(w2, w')
    requires Sim(h, w2, r2) && Kept(w, r, w2, r2) && Known(w2, r2, k) && Rid(w2, r2, k) == |r.heap|
    requires forall k' :: k' in w2.ptrs && k' !in w.ptrs ==> k' == k
    requires g.Got? ==> |r.heap| < |g.r.heap|
    requires BodyBack(h, limit, w2, r2, w', Content(h, k), g)
    ensures RefBack(h, limit, w, r, w', To(k.id), Filled(|r.heap|, g))
  {
    assert Fits(h, limit, w, w2) <==> Small(h, limit, k);
    assert Grown(w, w2);
    FitsSplit(h, limit, w, w2, w');
    SimPos(h, w, r);
    hide Sim, Kept, Matches, Fits, Content;
    if g.Got? {
      assert Steps(h, w2, r2, w', g.r);
      hide Steps;
      FillSteps(h, w, r, w2, r2, w', g.r, k, g.v);
    }
  }

  lemma AcceptsByType(s: Slot, o: GraphModel.Obj, o': GraphModel.Obj)
    requires TypeId(o) == TypeId(o')
    ensures Accepts(s, o) == Accepts(s, o')
  {
  }

  lemma {:induction false} RoundSlot(h: Heap, w: W, x: Ref, b: bytes, limit: nat, r: R, s: Slot)
    requires HeapOk(h) && RefOk(h, s, x) && Sim(h, w, r)
    requires |b| < TWO63 && WriteRef(h, w, x).out <= b
    ensures RefBack(h, limit, w, r, WriteRef(h, w, x), x, ReadSlot(b, limit, r, s))
    decreases Unvisited(h, w), 2
  {
    RoundRef(h, w, x, b, limit, r);
    var w', g := WriteRef(h, w, x), ReadRef(b, limit, r);
    hide WriteRef, ReadRef, Kept, Done, Fits;
    if g.Got? && x.To? {
      var k := Obj(x.id);
      assert Registered(h, w', g.r, k);
      AcceptsByType(s, h[x.id], g.r.heap[Rid(w', g.r, k)]);
    }
    hide Sim;
  }

  lemma UnvisitedShrinks(h: Heap, w: W, w': W)
    requires Grown(w, w')
    ensures Unvisited(h, w') <= Unvisited(h, w)
  {
  }

  lemma GrownTrans(w: W, w1: W, w2: W)
    requires Grown(w, w1) && Grown(w1, w2)
    ensures Grown(w, w2)
  {
  }

  lemma PutGrows(w: W, b: bytes)
    ensures Grown(w, Put(w, b))
  {
  }

  lemma NameGrows(w: W, n: Name)
    ensures Grown(w, WriteName(w, n))
  {
    hide Encode;
  }

  lemma GrownPrefix(w: W, w': W, b: bytes)
    requires Grown(w, w') && w'.out <= b
    ensures w.out <= b
  {
  }

  /** The three fields before the reference read back. */
  lemma RoundFields(h: Heap, w: W, f: FooFields, b: bytes, limit: nat, r: R) returns (r3: R)
    requires Sim(h, w, r) && |b| < TWO63
    requires Put(WriteName(Put(w, Int32Bytes(f.id)), f.name), AgeBytes(f.age)).out <= b
    ensures var w3 := Put(WriteName(Put(w, Int32Bytes(f.id)), f.name), AgeBytes(f.age));
            && Steps(h, w, r, w3, r3) && Grown(w, w3) && Fits(h, limit, w, w3)
            && ReadFoo(b, limit, r) == match ReadSlot(b, limit, r3, FooSlot) {
              case Panic => Got.Panic
              case Got(parent, r4) => Got(FooFields(f.id, f.name, f.age, parent), r4)
            }
  {
    hide Sim, Steps, Kept, WriteName, Int32Bytes, AgeBytes, GetInt32, GetAge, ReadName, ReadSlot, Fits, Grown;
    var w1 := Put(w, Int32Bytes(f.id));
    var w2 := WriteName(w1, f.name);
    var w3 := Put(w2, AgeBytes(f.age));
    PutGrows(w, Int32Bytes(f.id));
    NameGrows(w1, f.name);
    PutGrows(w2, AgeBytes(f.age));
    GrownPrefix(w2, w3, b);
    GrownPrefix(w1, w2, b);
    SimPos(h, w, r);
    Int32Back(w, f.id, b, r);
    PutSteps(h, w, r, Int32Bytes(f.id));
    var r1 := r.(pos := |w1.out|);
    StepsSim(h, w, r, w1, r1);
    RoundName(h, w1, f.name, b, limit, r1);
    var r2 := ReadName(b, limit, r1).r;
    StepsTrans(h, w, r, w1, r1, w2, r2);
    StepsSim(h, w, r, w2, r2);
    SimPos(h, w2, r2);
    AgeBack(w2, f.age, b, r2);
    PutSteps(h, w2, r2, AgeBytes(f.age));
    r3 := r2.(pos := |w3.out|);
    StepsTrans(h, w, r, w2, r2, w3, r3);
    GrownTrans(w, w1, w2);
    GrownTrans(w, w2, w3);
    NameFits(h, limit, w, w3);
  }

  lemma {:induction false} RoundFoo(h: Heap, w: W, f: FooFields, b: bytes, limit: nat, r: R)
    requires HeapOk(h) && RefOk(h, FooSlot, f.parent) && Sim(h, w, r)
    requires |b| < TWO63 && WriteFoo(h, w, f).out <= b
    ensures FooBack(h, limit, w, r, WriteFoo(h, w, f), f, ReadFoo(b, limit, r))
    decreases Unvisited(h, w), 3
  {
    var w3 := Put(WriteName(Put(w, Int32Bytes(f.id)), f.name), AgeBytes(f.age));
    var w4 := WriteRef(h, w3, f.parent);
    assert w4 == WriteFoo(h, w, f);
    hide Sim, Steps, Kept, WriteRef, WriteName, WriteFoo, Int32Bytes, AgeBytes, ReadSlot, ReadFoo, Fits, Grown,
         Unvisited;
    GrownPrefix(w3, w4, b);
    var r3 := RoundFields(h, w, f, b, limit, r);
    UnvisitedShrinks(h, w, w3);
    StepsSim(h, w, r, w3, r3);
    RoundSlot(h, w3, f.parent, b, limit, r3, FooSlot);
    FitsSplit(h, limit, w, w3, w4);
    var g := ReadSlot(b, limit, r3, FooSlot);
    if g.Got? { StepsTrans(h, w, r, w3, r3, w4, g.r); }
  }

  /** A name brings in at most an interned string, which the limit does not concern. */
  lemma NameFits(h: Heap, limit: nat, w: W, w': W)
    requires forall k :: k in w'.ptrs && k !in w.ptrs ==> k.Interned?
    ensures Fits(h, limit, w, w')
  {
  }

  lemma {:induction false} RoundRefs(h: Heap, w: W, rs: seq<Ref>, b: bytes, limit: nat, r: R)
    requires HeapOk(h) && (forall i :: 0 <= i < |rs| ==> RefOk(h, FooExtSlot, rs[i])) && Sim(h, w, r)
    requires |b| < TWO63 && WriteRefs(h, w, rs).out <= b && r.pos <= |b|
    ensures RefsBack(h, limit, w, r, WriteRefs(h, w, rs), rs, ReadRefs(b, limit, r, |rs|))
    decreases Unvisited(h, w), 3, |rs|
  {
    hide Sim, Steps, Kept, WriteRef, WriteRefs, ReadSlot, Fits, RefMatches, Grown, Unvisited, HeapOk;
    WriteRefsUnfold(h, w, rs);
    if rs == [] {
      NothingSteps(h, w, r);
      NameFits(h, limit, w, w);
    } else {
      var x := rs[0];
      assert RefOk(h, FooExtSlot, x);
      var w1 := WriteRef(h, w, x);
      var w2 := WriteRefs(h, w1, rs[1..]);
      UnvisitedShrinks(h, w, w1);
      GrownPrefix(w1, w2, b);
      RoundSlot(h, w, x, b, limit, r, FooExtSlot);
      FitsSplit(h, limit, w, w1, w2);
      var g1 := ReadSlot(b, limit, r, FooExtSlot);
      if g1.Got? {
        StepsSim(h, w, r, w1, g1.r);
        RoundRefs(h, w1, rs[1..], b, limit, g1.r);
        var g2 := ReadRefs(b, limit, g1.r, |rs| - 1);
        if g2.Got? {
          StepsTrans(h, w, r, w1, g1.r, w2, g2.r);
          StepsKept(h, w1, g1.r, w2, g2.r);
          RefMatchesGrows(w1, g1.r, w2, g2.r, x, g1.v);
          assert RefsMatch(w2, g2.r, rs, [g1.v] + g2.v);
        }
      }
    }
  }

  lemma WriteRefsUnfold(h: Heap, w: W, rs: seq<Ref>)
    requires HeapOk(h) && forall i :: 0 <= i < |rs| ==> RefOk(h, FooExtSlot, rs[i])
    ensures WriteRefs(h, w, rs) == if rs == [] then w else WriteRefs(h, WriteRef(h, w, rs[0]), rs[1..])
  {
    hide WriteRef;
  }

  lemma NothingSteps(h: Heap, w: W, r: R)
    requires Sim(h, w, r)
    ensures Steps(h, w, r, w, r)
  {
  }

  lemma StepsKept(h: Heap, w: W, r: R, w': W, r': R)
    requires Steps(h, w, r, w', r')
    ensures Kept(w, r, w', r')
  {
  }

  lemma {:induction false} RoundBody(h: Heap, w: W, o: GraphModel.Obj, b: bytes, limit: nat, r: R)
    requires HeapOk(h) && ObjOk(h, o) && Sim(h, w, r)
    requires |b| < TWO63 && WriteBody(h, w, o).out <= b
    ensures BodyBack(h, limit, w, r, WriteBody(h, w, o), o, ReadBody(b, limit, r, TypeId(o)))
    decreases Unvisited(h, w), 5
  {
    hide Sim, Steps, Kept, Encode, GetUInt, GetText, GetInts, ReadFoo, ReadSlot, ReadRefs, WriteRef, WriteFoo,
         WriteRefs,
      Fits, RefMatches;
    SimPos(h, w, r);
    match o
    case Str(s) =>
      TextBack(w, s, b, r);
      LeafBack(h, limit, w, r, TextBytes(s), o, ReadBody(b, limit, r, 1));
    case Blob(s) =>
      TextBack(w, s, b, r);
      LeafBack(h, limit, w, r, TextBytes(s), o, ReadBody(b, limit, r, 2));
    case Foo(f) => RoundFoo(h, w, f, b, limit, r);
    case Ints(xs) => RoundInts(h, w, xs, b, limit, r);
    case FooExt(f, c) => RoundExt(h, w, f, c, b, limit, r);
    case Foos(rs) => RoundFoos(h, w, rs, b, limit, r);
  }

  lemma ReadList(b: bytes, limit: nat, r: R, n: u64, r1: R)
    requires GetUInt(b, r) == Got(n, r1)
    ensures Exceeds(limit, AsInt(n)) ==> ReadBody(b, limit, r, 4).Panic? && ReadBody(b, limit, r, 6).Panic?
    ensures !Exceeds(limit, AsInt(n)) && GetInts(b, r1, AsInt(n)).Got? ==>
              var g := GetInts(b, r1, AsInt(n)); ReadBody(b, limit, r, 4) == Got(Ints(g.v), g.r)
    ensures !Exceeds(limit, AsInt(n)) && ReadRefs(b, limit, r1, AsInt(n)).Got? ==>
              var g := ReadRefs(b, limit, r1, AsInt(n)); ReadBody(b, limit, r, 6) == Got(Foos(g.v), g.r)
    ensures !Exceeds(limit, AsInt(n)) && ReadRefs(b, limit, r1, AsInt(n)).Panic? ==> ReadBody(b, limit, r, 6).Panic?
  {
    hide GetUInt, GetInts, ReadRefs;
  }

  lemma IntsRead(w: W, xs: seq<i32>, b: bytes, limit: nat, r: R)
    requires r.pos == |w.out| && |b| < TWO63
    requires w.out + (Encode(|xs|) + IntsBytes(xs)) <= b
    ensures var e := Encode(|xs|) + IntsBytes(xs);
            ReadBody(b, limit, r, 4)
            == if Exceeds(limit, |xs|) then Got.Panic else Got(Ints(xs), r.(pos := r.pos + |e|))
  {
    hide Encode, GetUInt, GetInts, IntsBytes, ReadBody;
    var e := Encode(|xs|);
    PrefixParts(w.out, e, IntsBytes(xs), b);
    var r1 := r.(pos := r.pos + |e|);
    IntsBack(Put(w, e), xs, b, r1);
    UIntBack(w, |xs|, b, r);
    ReadList(b, limit, r, |xs|, r1);
  }

  lemma RoundInts(h: Heap, w: W, xs: seq<i32>, b: bytes, limit: nat, r: R)
    requires Sim(h, w, r) && |b| < TWO63
    requires Put(w, Encode(|xs|) + IntsBytes(xs)).out <= b
    ensures BodyBack(h, limit, w, r, Put(w, Encode(|xs|) + IntsBytes(xs)), Ints(xs), ReadBody(b, limit, r, 4))
  {
    hide Sim, Steps, Encode, Fits, IntsBytes, ReadBody;
    var e := Encode(|xs|) + IntsBytes(xs);
    SimPos(h, w, r);
    IntsRead(w, xs, b, limit, r);
    LeafBack(h, limit, w, r, e, Ints(xs), ReadBody(b, limit, r, 4));
  }

  /** Content without references needs no correspondence of its own. */
  lemma LeafBack(h: Heap, limit: nat, w: W, r: R, e: bytes, o: GraphModel.Obj, g: Got<GraphModel.Obj>)
    requires Sim(h, w, r) && (o.Str? || o.Blob? || o.Ints?)
    requires g == if Oversized(limit, o) then Got.Panic else Got(o, r.(pos := r.pos + |e|))
    ensures BodyBack(h, limit, w, r, Put(w, e), o, g)
  {
    hide Sim, Steps, Fits;
    PutSteps(h, w, r, e);
    NameFits(h, limit, w, Put(w, e));
  }

  lemma RoundFoos(h: Heap, w: W, rs: seq<Ref>, b: bytes, limit: nat, r: R)
    requires HeapOk(h) && (forall i :: 0 <= i < |rs| ==> RefOk(h, FooExtSlot, rs[i])) && Sim(h, w, r)
    requires |b| < TWO63 && WriteRefs(h, Put(w, Encode(|rs|)), rs).out <= b
    ensures BodyBack(h, limit, w, r, WriteRefs(h, Put(w, Encode(|rs|)), rs), Foos(rs), ReadBody(b, limit, r, 6))
    decreases Unvisited(h, w), 4
  {
    hide Sim, Steps, Encode, GetUInt, ReadRefs, Fits, WriteRefs, Kept, ReadBody, Grown, Unvisited, HeapOk, RefsMatch;
    var e := Encode(|rs|);
    var w1 := Put(w, e);
    var w2 := WriteRefs(h, w1, rs);
    PutGrows(w, e);
    UnvisitedShrinks(h, w, w1);
    GrownPrefix(w1, w2, b);
    SimPos(h, w, r);
    UIntBack(w, |rs|, b, r);
    PutSteps(h, w, r, e);
    var r1 := r.(pos := |w1.out|);
    ReadList(b, limit, r, |rs|, r1);
    StepsSim(h, w, r, w1, r1);
    RoundRefs(h, w1, rs, b, limit, r1);
    NameFits(h, limit, w, w1);
    FitsSplit(h, limit, w, w1, w2);
    var g := ReadRefs(b, limit, r1, |rs|);
    if g.Got? { StepsTrans(h, w, r, w1, r1, w2, g.r); }
  }

  lemma RoundExt(h: Heap, w: W, f: FooFields, c: Ref, b: bytes, limit: nat, r: R)
    requires HeapOk(h) && RefOk(h, FooSlot, f.parent) && RefOk(h, IntsSlot, c) && Sim(h, w, r)
    requires |b| < TWO63 && WriteRef(h, WriteFoo(h, w, f), c).out <= b
    ensures BodyBack(h, limit, w, r, WriteRef(h, WriteFoo(h, w, f), c), FooExt(f, c), ReadBody(b, limit, r, 5))
    decreases Unvisited(h, w), 4
  {
    hide Sim, Steps, ReadFoo, ReadSlot, Fits, WriteRef, WriteFoo, Kept, RefMatches, Grown, Unvisited, HeapOk, ReadBody;
    var w1 := WriteFoo(h, w, f);
    var w2 := WriteRef(h, w1, c);
    GrownPrefix(w1, w2, b);
    UnvisitedShrinks(h, w, w1);
    RoundFoo(h, w, f, b, limit, r);
    FitsSplit(h, limit, w, w1, w2);
    ReadExt(b, limit, r);
    var g1 := ReadFoo(b, limit, r);
    if g1.Got? {
      StepsSim(h, w, r, w1, g1.r);
      RoundSlot(h, w1, c, b, limit, g1.r, IntsSlot);
      var g2 := ReadSlot(b, limit, g1.r, IntsSlot);
      if g2.Got? {
        StepsTrans(h, w, r, w1, g1.r, w2, g2.r);
        StepsKept(h, w1, g1.r, w2, g2.r);
        RefMatchesGrows(w1, g1.r, w2, g2.r, f.parent, g1.v.parent);
      }
    }
  }

  lemma ReadExt(b: bytes, limit: nat, r: R)
    ensures ReadFoo(b, limit, r).Panic? ==> ReadBody(b, limit, r, 5).Panic?
    ensures ReadFoo(b, limit, r).Got? ==>
              var g1 := ReadFoo(b, limit, r);
              var g2 := ReadSlot(b, limit, g1.r, IntsSlot);
              ReadBody(b, limit, r, 5) == if g2.Got? then Got(FooExt(g1.v, g2.v), g2.r) else Got.Panic
  {
    hide ReadFoo, ReadSlot;
  }
}
