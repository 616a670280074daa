/** A pool of power-of-two blocks. The first word of a block in use is its version number with
    the size class in the top byte; the first word of a free block is the next free block. */
module MemPool {
  const CLASSES: int := 64
  const TWO56: int := 0x100_0000_0000_0000

  /** An address with a zero top byte; zero is the null pointer. */
  type Addr = x: int | 0 <= x < 0x100_0000_0000_0000

  // ----- size classes

  function Pow2(n: nat): (r: nat)
    ensures r >= 1
  {
    if n == 0 then 1 else 2 * Pow2(n - 1)
  }

  /** The highest bit set. */
  function Calc2n(n: nat): nat
    requires n > 0
  {
    if n == 1 then 0 else 1 + Calc2n(n / 2)
  }

  function Class(n: nat): nat
    requires n > 0
  {
    var i := Calc2n(n);
    if n > Pow2(i) then i + 1 else i
  }

  lemma {:induction false} Calc2nIs(n: nat)
    requires n > 0
    ensures Pow2(Calc2n(n)) <= n < 2 * Pow2(Calc2n(n))
  {
    if n > 1 { Calc2nIs(n / 2); }
  }

  /** The class is the smallest that holds the size. */
  lemma ClassIsSmallest(n: nat)
    requires n > 0
    ensures n <= Pow2(Class(n)) && (Class(n) > 0 ==> Pow2(Class(n) - 1) < n)
  {
    Calc2nIs(n);
  }

  // ----- the pool

  /** `words` is the first word of every block ever allocated, `sizes` what was asked of malloc. */
  datatype Pool = Pool(headers: seq<Addr>, version: nat, words: map<Addr, nat>, sizes: map<Addr, nat>)

  function Stamp(version: nat, idx: nat): nat { version + idx * TWO56 }

  /** `got` is what malloc would return; the address taken and the pool left. */
  function Alloc(p: Pool, n: nat, got: Addr): (Addr, Pool)
    requires n > 0 && Class(n) < |p.headers|
    requires p.headers[Class(n)] != 0 ==> p.headers[Class(n)] in p.words && p.words[p.headers[Class(n)]] < TWO56
  {
    var idx := Class(n);
    var h := p.headers[idx];
    var stamp := Stamp(p.version + 1, idx);
    if h != 0 then
      (h, Pool(p.headers[idx := p.words[h]], p.version + 1, p.words[h := stamp], p.sizes))
    else
      (got, Pool(p.headers, p.version + 1, p.words[got := stamp], p.sizes[got := Pow2(idx)]))
  }

  /** Puts a block in front of its class's free list. */
  function Push(p: Pool, x: Addr, idx: nat): Pool
    requires idx < |p.headers|
  {
    p.(words := p.words[x := p.headers[idx]], headers := p.headers[idx := x])
  }

  function Free(p: Pool, x: Addr): Pool
    requires x in p.words && p.words[x] / TWO56 < |p.headers|
  {
    Push(p, x, p.words[x] / TWO56)
  }

  /** The stamp is cleared before the destructor runs, and the block is pushed after it. */
  function StartRelease(p: Pool, x: Addr): Pool
    requires x in p.words
  {
    p.(words := p.words[x := 0])
  }

  /** A weak pointer's test. */
  predicate Test(p: Pool, x: Addr, stamp: nat)
    requires x == 0 || x in p.words
  {
    x != 0 && p.words[x] == stamp
  }

  // ----- what the words mean

  datatype Place = Live(serial: nat, idx: nat) | Dying(idx: nat) | Idle(idx: nat)

  datatype Blocks = Blocks(places: map<Addr, Place>, lists: seq<seq<Addr>>)

  ghost predicate Chain(words: map<Addr, nat>, head: nat, list: seq<Addr>)
    decreases |list|
  {
    if list == [] then head == 0
    else head == list[0] && head != 0 && list[0] in words && Chain(words, words[list[0]], list[1..])
  }

  ghost predicate NoDup(s: seq<Addr>) { forall i, j :: 0 <= i < j < |s| ==> s[i] != s[j] }

  /** The word of a block says where the block is. */
  ghost predicate WordOk(p: Pool, x: Addr, place: Place)
    requires x in p.words
  {
    match place
    case Live(s, i) => 0 < s <= p.version && 1 <= i && p.words[x] == Stamp(s, i)
    case Dying(i) => 1 <= i && p.words[x] == 0
    case Idle(i) => p.words[x] < TWO56
  }

  ghost predicate BlockOk(p: Pool, b: Blocks, x: Addr)
    requires x in p.words && x in b.places
  {
    && x != 0 && b.places[x].idx < CLASSES && WordOk(p, x, b.places[x])
    && x in p.sizes && p.sizes[x] == Pow2(b.places[x].idx)
  }

  ghost predicate ListOk(p: Pool, b: Blocks, i: nat)
    requires i < |p.headers| && i < |b.lists|
  {
    && Chain(p.words, p.headers[i], b.lists[i]) && NoDup(b.lists[i])
    && forall x :: x in b.lists[i] <==> x in b.places && b.places[x] == Idle(i)
  }

  ghost predicate Inv(p: Pool, b: Blocks) {
    && |p.headers| == CLASSES && |b.lists| == CLASSES && p.version < TWO56
    && p.words.Keys == b.places.Keys
    && (forall x <- b.places :: BlockOk(p, b, x))
    && (forall i :: 0 <= i < CLASSES ==> ListOk(p, b, i))
    && forall x <- b.places, y <- b.places ::
         x != y && b.places[x].Live? && b.places[y].Live? ==> b.places[x].serial != b.places[y].serial
  }

  /** A weak pointer taken of an object tests true exactly while the object lives. */
  lemma TestIffLive(p: Pool, b: Blocks, x: Addr, s: nat, i: nat)
    requires Inv(p, b) && x in b.places && 0 < s < TWO56 && 1 <= i
    ensures Test(p, x, Stamp(s, i)) <==> b.places[x] == Live(s, i)
  {
    assert BlockOk(p, b, x);
    assert i * TWO56 >= TWO56;
    if b.places[x].Live? {
      var s', i' := b.places[x].serial, b.places[x].idx;
      if Stamp(s, i) == Stamp(s', i') {
        assert (i - i') * TWO56 == s' - s;
        assert i == i';
      }
    }
  }

  // ----- every step keeps the meaning

  lemma {:induction false} ChainFrame(words: map<Addr, nat>, words': map<Addr, nat>, head: nat, list: seq<Addr>)
    requires Chain(words, head, list)
    requires forall y <- list :: y in words && y in words' && words'[y] == words[y]
    ensures Chain(words', head, list)
    decreases |list|
  {
    if list != [] {
      assert list[0] in list && forall y <- list[1..] :: y in list;
      ChainFrame(words, words', words[list[0]], list[1..]);
    }
  }

  lemma StampSplits(s: nat, i: nat)
    requires s < TWO56
    ensures Stamp(s, i) / TWO56 == i
  {
  }

  function Pushed(b: Blocks, x: Addr, idx: nat): Blocks
    requires idx < |b.lists|
  {
    Blocks(b.places[x := Idle(idx)], b.lists[idx := [x] + b.lists[idx]])
  }

  lemma PushLists(p: Pool, b: Blocks, x: Addr, idx: nat, i: nat)
    requires Inv(p, b) && x in b.places && !b.places[x].Idle? && b.places[x].idx == idx && i < CLASSES
    ensures ListOk(Push(p, x, idx), Pushed(b, x, idx), i)
  {
    var p', b' := Push(p, x, idx), Pushed(b, x, idx);
    assert BlockOk(p, b, x) && ListOk(p, b, i) && ListOk(p, b, idx);
    assert x !in b.lists[i] && x !in b.lists[idx];
    ChainFrame(p.words, p'.words, p.headers[i], b.lists[i]);
    if i == idx { assert b'.lists[i][1..] == b.lists[i]; }
  }

  lemma PushInv(p: Pool, b: Blocks, x: Addr, idx: nat)
    requires Inv(p, b) && x in b.places && !b.places[x].Idle? && b.places[x].idx == idx
    ensures idx < CLASSES && Inv(Push(p, x, idx), Pushed(b, x, idx))
  {
    assert BlockOk(p, b, x);
    var p', b' := Push(p, x, idx), Pushed(b, x, idx);
    forall y <- b'.places ensures BlockOk(p', b', y) { assert BlockOk(p, b, y); }
    forall i | 0 <= i < CLASSES ensures ListOk(p', b', i) { PushLists(p, b, x, idx, i); }
  }

  lemma StartInv(p: Pool, b: Blocks, x: Addr)
    requires Inv(p, b) && x in b.places && b.places[x].Live?
    ensures Inv(StartRelease(p, x), b.(places := b.places[x := Dying(b.places[x].idx)]))
  {
    var p', b' := StartRelease(p, x), b.(places := b.places[x := Dying(b.places[x].idx)]);
    forall y <- b'.places ensures BlockOk(p', b', y) { assert BlockOk(p, b, y); }
    forall i | 0 <= i < CLASSES ensures ListOk(p', b', i) {
      assert ListOk(p, b, i) && x !in b.lists[i];
      ChainFrame(p.words, p'.words, p.headers[i], b.lists[i]);
    }
  }

  /** The blocks after an allocation in class `idx`. */
  function Allocated(p: Pool, b: Blocks, idx: nat, got: Addr): Blocks
    requires idx < |b.lists|
  {
    var live := Live(p.version + 1, idx);
    if b.lists[idx] != [] then Blocks(b.places[b.lists[idx][0] := live], b.lists[idx := b.lists[idx][1..]])
    else Blocks(b.places[got := live], b.lists)
  }

  lemma Headed(p: Pool, b: Blocks, idx: nat)
    requires Inv(p, b) && idx < CLASSES
    ensures p.headers[idx] != 0 <==> b.lists[idx] != []
    ensures b.lists[idx] != [] ==> p.headers[idx] == b.lists[idx][0] && p.headers[idx] in p.words
    ensures b.lists[idx] != [] ==> p.words[p.headers[idx]] < TWO56 && b.places[p.headers[idx]] == Idle(idx)
  {
    assert ListOk(p, b, idx);
    if b.lists[idx] != [] {
      var h := b.lists[idx][0];
      assert h in b.lists[idx];
      assert BlockOk(p, b, h);
    }
  }

  lemma ReuseLists(p: Pool, b: Blocks, idx: nat, i: nat, p': Pool, b': Blocks)
    requires Inv(p, b) && idx < CLASSES && i < CLASSES && b.lists[idx] != []
    requires var h := b.lists[idx][0];
             && h in p.words && p.words[h] < TWO56
             && p' == Pool(p.headers[idx := p.words[h]], p.version + 1, p.words[h := Stamp(p.version + 1, idx)],
               p.sizes)
             && b' == Blocks(b.places[h := Live(p.version + 1, idx)], b.lists[idx := b.lists[idx][1..]])
    ensures ListOk(p', b', i)
  {
    var h := b.lists[idx][0];
    assert ListOk(p, b, i) && ListOk(p, b, idx);
    assert h in b.lists[idx] && b.lists[idx] == [h] + b.lists[idx][1..];
    if i == idx {
      ChainFrame(p.words, p'.words, p.words[h], b.lists[idx][1..]);
    } else {
      assert h !in b.lists[i];
      ChainFrame(p.words, p'.words, p.headers[i], b.lists[i]);
    }
  }

  lemma FreshLists(p: Pool, b: Blocks, i: nat, got: Addr, p': Pool, b': Blocks)
    requires Inv(p, b) && i < CLASSES && got !in p.words && got in p'.words
    requires p'.headers == p.headers && p'.words == p.words[got := p'.words[got]]
    requires b'.lists == b.lists && got in b'.places && b'.places[got].Live?
             && b'.places == b.places[got := b'.places[got]]
    ensures ListOk(p', b', i)
  {
    assert ListOk(p, b, i) && got !in b.lists[i];
    ChainFrame(p.words, p'.words, p.headers[i], b.lists[i]);
  }

  /** Reusing or growing, the block handed out was nobody's and is large enough. */
  lemma AllocInv(p: Pool, b: Blocks, n: nat, got: Addr)
    requires Inv(p, b) && n > 8 && Class(n) < CLASSES && p.version + 1 < TWO56
    requires got != 0 && got !in p.words
    requires p.headers[Class(n)] != 0 ==> p.headers[Class(n)] in p.words && p.words[p.headers[Class(n)]] < TWO56
    ensures var (x, p') := Alloc(p, n, got);
            && Inv(p', Allocated(p, b, Class(n), got))
            && (x in b.places ==> b.places[x].Idle?)
            && Allocated(p, b, Class(n), got).places[x] == Live(p'.version, Class(n))
            && x in p'.sizes && n <= p'.sizes[x]
  {
    var idx := Class(n);
    ClassIsSmallest(n);
    Headed(p, b, idx);
    var (x, p') := Alloc(p, n, got);
    var b' := Allocated(p, b, idx, got);
    assert x in b.places ==> BlockOk(p, b, x);
    forall y <- b'.places ensures BlockOk(p', b', y) { assert y in b.places ==> BlockOk(p, b, y); }
    forall y <- b.places ensures b.places[y].Live? ==> b.places[y].serial <= p.version { assert BlockOk(p, b, y); }
    forall i | 0 <= i < CLASSES ensures ListOk(p', b', i) {
      if b.lists[idx] != [] { ReuseLists(p, b, idx, i, p', b'); } else { FreshLists(p, b, i, got, p', b'); }
    }
  }

  // ----- runs

  /** `Finish` carries the class the release had noted before the destructor ran. */
  datatype Event = Take(n: nat, got: Addr) | GiveBack(x: Addr) | Start(x: Addr) | Finish(x: Addr, idx: nat)

  /** What the code asks of its callers. Releasing an object inside its own destructor is allowed. */
  ghost predicate Legal(p: Pool, b: Blocks, e: Event) {
    match e
    case Take(n, got) => n > 8 && Class(n) < CLASSES && got != 0 && got !in p.words && p.version + 1 < TWO56
    case GiveBack(x) => x in b.places && b.places[x].Live?
    case Start(x) => x in b.places && !b.places[x].Idle?
    case Finish(x, idx) => x in b.places && b.places[x] == Dying(idx)
  }

  ghost function Next(p: Pool, b: Blocks, e: Event): (Pool, Blocks)
    requires Inv(p, b) && Legal(p, b, e)
  {
    match e
    case Take(n, got) =>
      Headed(p, b, Class(n));
      (Alloc(p, n, got).1, Allocated(p, b, Class(n), got))
    case GiveBack(x) =>
      assert BlockOk(p, b, x);
      StampSplits(b.places[x].serial, b.places[x].idx);
      (Free(p, x), Pushed(b, x, b.places[x].idx))
    case Start(x) =>
      assert BlockOk(p, b, x);
      if p.words[x] == 0 then (p, b)
      else (StartRelease(p, x), b.(places := b.places[x := Dying(b.places[x].idx)]))
    case Finish(x, idx) =>
      assert BlockOk(p, b, x);
      (Push(p, x, idx), Pushed(b, x, idx))
  }

  /** One allocation in full. */
  lemma TakeFacts(p: Pool, b: Blocks, n: nat, got: Addr)
    requires Inv(p, b) && Legal(p, b, Take(n, got))
    ensures Inv(Next(p, b, Take(n, got)).0, Next(p, b, Take(n, got)).1)
    ensures |p.headers| == CLASSES && |b.lists| == CLASSES && Class(n) < CLASSES
    ensures var idx := Class(n);
            var h, b' := p.headers[idx], Allocated(p, b, idx, got);
            var x := if h != 0 then h else got;
            && (h != 0 ==> h in p.words && p.words[h] < TWO56)
            && Next(p, b, Take(n, got)) == (Alloc(p, n, got).1, b')
            && (x in b.places ==> b.places[x].Idle?)
            && x in b'.places && b'.places[x] == Live(p.version + 1, idx)
            && x in Alloc(p, n, got).1.sizes && n <= Alloc(p, n, got).1.sizes[x]
  {
    Headed(p, b, Class(n));
    AllocInv(p, b, n, got);
  }

  /** Memory is asked for only when no block of the class is idle; otherwise one of those is taken. */
  lemma ReusesIdle(p: Pool, b: Blocks, n: nat, got: Addr)
    requires Inv(p, b) && Legal(p, b, Take(n, got))
    ensures |p.headers| == CLASSES
    ensures p.headers[Class(n)] != 0 ==> p.headers[Class(n)] in p.words && p.words[p.headers[Class(n)]] < TWO56
    ensures var (x, p') := Alloc(p, n, got);
            if exists y :: y in b.places && b.places[y] == Idle(Class(n))
            then x in b.places && b.places[x] == Idle(Class(n)) && p'.sizes == p.sizes
            else x == got
  {
    Headed(p, b, Class(n));
    assert ListOk(p, b, Class(n));
  }

  /** The block given back last is the first to be handed out again in its class. */
  lemma LastIsFirst(p: Pool, b: Blocks, e: Event, x: Addr, n: nat, got: Addr)
    requires Inv(p, b) && Legal(p, b, e) && x in b.places && (e == GiveBack(x) || e == Finish(x, b.places[x].idx))
    requires Inv(Next(p, b, e).0, Next(p, b, e).1) && Legal(Next(p, b, e).0, Next(p, b, e).1, Take(n, got))
    requires Class(n) == b.places[x].idx
    ensures var p1 := Next(p, b, e).0;
            && p1.headers[Class(n)] != 0 && p1.headers[Class(n)] in p1.words && p1.words[p1.headers[Class(n)]] < TWO56
            && Alloc(p1, n, got).0 == x
  {
    assert BlockOk(p, b, x);
    if e.GiveBack? { StampSplits(b.places[x].serial, b.places[x].idx); }
    Headed(Next(p, b, e).0, Next(p, b, e).1, Class(n));
  }

  lemma NextInv(p: Pool, b: Blocks, e: Event)
    requires Inv(p, b) && Legal(p, b, e)
    ensures Inv(Next(p, b, e).0, Next(p, b, e).1)
  {
    match e
    case Take(n, got) =>
      Headed(p, b, Class(n));
      AllocInv(p, b, n, got);
    case GiveBack(x) =>
      assert BlockOk(p, b, x);
      StampSplits(b.places[x].serial, b.places[x].idx);
      PushInv(p, b, x, b.places[x].idx);
    case Start(x) =>
      assert BlockOk(p, b, x);
      if p.words[x] != 0 { StartInv(p, b, x); }
    case Finish(x, idx) =>
      PushInv(p, b, x, idx);
  }

  ghost predicate LegalRun(p: Pool, b: Blocks, es: seq<Event>)
    requires Inv(p, b)
    decreases |es|
  {
    es == [] || (Legal(p, b, es[0])
      && (NextInv(p, b, es[0]); LegalRun(Next(p, b, es[0]).0, Next(p, b, es[0]).1, es[1..])))
  }

  ghost function Run(p: Pool, b: Blocks, es: seq<Event>): (r: (Pool, Blocks))
    requires Inv(p, b) && LegalRun(p, b, es)
    ensures Inv(r.0, r.1)
    decreases |es|
  {
    if es == [] then (p, b)
    else
      NextInv(p, b, es[0]);
      Run(Next(p, b, es[0]).0, Next(p, b, es[0]).1, es[1..])
  }

  predicate Releases(e: Event, x: Addr) { e == GiveBack(x) || e == Start(x) }

  /** Nobody's block in use is touched but by its own release, and no version comes twice. */
  lemma StepsApart(p: Pool, b: Blocks, e: Event, x: Addr, s: nat, i: nat)
    requires Inv(p, b) && Legal(p, b, e) && x in b.places && s <= p.version
    ensures x in Next(p, b, e).1.places && s <= Next(p, b, e).0.version
    ensures Next(p, b, e).1.places[x] == Live(s, i) <==> b.places[x] == Live(s, i) && !Releases(e, x)
  {
    assert BlockOk(p, b, x);
    if e.Take? { Headed(p, b, Class(e.n)); }
    if b.places[x].Live? { TestIffLive(p, b, x, b.places[x].serial, b.places[x].idx); }
  }

  lemma {:induction false} NeverAgain(p: Pool, b: Blocks, es: seq<Event>, x: Addr, s: nat, i: nat)
    requires Inv(p, b) && LegalRun(p, b, es) && x in b.places && s <= p.version && b.places[x] != Live(s, i)
    ensures var r := Run(p, b, es); x in r.1.places && r.1.places[x] != Live(s, i)
    decreases |es|
  {
    hide Inv, Next, Legal;
    if es != [] {
      StepsApart(p, b, es[0], x, s, i);
      NextInv(p, b, es[0]);
      NeverAgain(Next(p, b, es[0]).0, Next(p, b, es[0]).1, es[1..], x, s, i);
    }
  }

  /** In every run, a weak pointer taken of an object in use tests true afterwards if and only if
      the object has not been released on the way, however often its block was reused. */
  lemma {:induction false} WeakTracksObject(p: Pool, b: Blocks, es: seq<Event>, x: Addr)
    requires Inv(p, b) && LegalRun(p, b, es) && x in b.places && b.places[x].Live?
    ensures x in p.words && x in Run(p, b, es).0.words
    ensures Test(Run(p, b, es).0, x, p.words[x]) <==> forall e <- es :: !Releases(e, x)
    decreases |es|
  {
    var s, i := b.places[x].serial, b.places[x].idx;
    assert BlockOk(p, b, x);
    var stamp := p.words[x];
    hide Next, Legal;
    if es == [] {
      TestIffLive(p, b, x, s, i);
    } else {
      var (p', b') := Next(p, b, es[0]);
      NextInv(p, b, es[0]);
      StepsApart(p, b, es[0], x, s, i);
      if Releases(es[0], x) {
        NeverAgain(p', b', es[1..], x, s, i);
        var r := Run(p', b', es[1..]);
        TestIffLive(r.0, r.1, x, s, i);
        assert es[0] in es;
      } else {
        WeakTracksObject(p', b', es[1..], x);
        assert BlockOk(p', b', x);
        assert forall e <- es :: e == es[0] || e in es[1..];
        assert forall e <- es[1..] :: e in es;
      }
    }
  }

  // ----- in place

  class Heap {
    var headers: seq<Addr>
    var versionNumber: nat
    var words: map<Addr, nat>
    var sizes: map<Addr, nat>
    ghost var blocks: Blocks

    ghost function View(): Pool reads this { Pool(headers, versionNumber, words, sizes) }

    ghost predicate Valid() reads this { Inv(View(), blocks) }

    constructor ()
      ensures Valid() && View() == Pool(seq(CLASSES, _ => 0), 0, map[], map[])
    {
      headers, versionNumber, words, sizes := seq(CLASSES, _ => 0), 0, map[], map[];
      blocks := Blocks(map[], seq(CLASSES, _ => []));
    }

    /** `siz` bytes behind a header of `head` bytes. */
    method Alloc(siz: nat, head: nat, got: Addr) returns (x: Addr)
      requires Valid() && siz > 0 && head >= 8
      requires Legal(View(), blocks, Take(siz + head, got))
      modifies this
      ensures Valid() && (View(), blocks) == Next(old(View()), old(blocks), Take(siz + head, got))
      ensures x in blocks.places && blocks.places[x] == Live(versionNumber, Class(siz + head))
      ensures x in old(blocks.places) ==> old(blocks.places)[x].Idle?
      ensures x in sizes && siz + head <= sizes[x]
    {
      var n := siz + head;
      var idx := Calc2n(n);
      if n > Pow2(idx) { idx := idx + 1; }
      ghost var v, b := View(), blocks;
      TakeFacts(v, b, n, got);
      hide Inv, Next, Allocated, Legal, Pow2, Calc2n, Stamp;
      x := headers[idx];
      if x != 0 {
        headers := headers[idx := words[x]];
      } else {
        x := got;
        sizes := sizes[x := Pow2(idx)];
      }
      versionNumber := versionNumber + 1;
      words := words[x := Stamp(versionNumber, idx)];
      blocks := Allocated(v, b, idx, got);
    }

    method Free(x: Addr)
      requires Valid() && (x != 0 ==> Legal(View(), blocks, GiveBack(x)))
      modifies this
      ensures Valid()
      ensures x != 0 ==> (View(), blocks) == Next(old(View()), old(blocks), GiveBack(x))
      ensures x == 0 ==> View() == old(View()) && blocks == old(blocks)
    {
      if x == 0 { return; }
      NextInv(View(), blocks, GiveBack(x));
      ghost var b := blocks;
      assert BlockOk(View(), blocks, x);
      StampSplits(b.places[x].serial, b.places[x].idx);
      var idx := words[x] / TWO56;
      words := words[x := headers[idx]];
      headers := headers[idx := x];
      blocks := Pushed(b, x, idx);
    }

    /** Up to the destructor. False if the object is already being released. */
    method Release(x: Addr) returns (first: bool, idx: nat)
      requires Valid() && Legal(View(), blocks, Start(x))
      modifies this
      ensures Valid() && (View(), blocks) == Next(old(View()), old(blocks), Start(x))
      ensures first <==> old(blocks.places)[x].Live?
      ensures first ==> Legal(View(), blocks, Finish(x, idx)) && !Test(View(), x, old(words)[x])
    {
      assert BlockOk(View(), blocks, x);
      NextInv(View(), blocks, Start(x));
      idx := 0;
      if words[x] == 0 { return false, 0; }
      ghost var b := blocks;
      StampSplits(b.places[x].serial, b.places[x].idx);
      idx := words[x] / TWO56;
      words := words[x := 0];
      blocks := b.(places := b.places[x := Dying(idx)]);
      first := true;
    }

    /** After the destructor. */
    method EndRelease(x: Addr, idx: nat)
      requires Valid() && Legal(View(), blocks, Finish(x, idx))
      modifies this
      ensures Valid() && (View(), blocks) == Next(old(View()), old(blocks), Finish(x, idx))
    {
      NextInv(View(), blocks, Finish(x, idx));
      assert BlockOk(View(), blocks, x);
      ghost var b := blocks;
      words := words[x := headers[idx]];
      headers := headers[idx := x];
      blocks := Pushed(b, x, idx);
    }

    /** The block's class has room for the size and the header. */
    ghost predicate HasRoom(x: Addr, newSize: nat)
      reads this
    {
      x != 0 && x in words && Pow2(words[x] / TWO56) >= newSize + 8
    }

    /** Keeps a block whose class has room, or moves it. */
    method Realloc(x: Addr, newSize: nat, got: Addr) returns (y: Addr)
      requires Valid() && (x != 0 ==> Legal(View(), blocks, GiveBack(x)))
      requires newSize > 0 && !HasRoom(x, newSize) ==> Legal(View(), blocks, Take(newSize + 8, got))
      modifies this
      ensures Valid()
      ensures newSize > 0 ==> (y == x <==> old(HasRoom(x, newSize)))
      ensures newSize == 0 ==> y == 0 && (x != 0 ==> x in blocks.places && blocks.places[x].Idle?)
      ensures newSize > 0 ==> y in blocks.places && blocks.places[y].Live? && y in sizes && newSize + 8 <= sizes[y]
      ensures newSize > 0 && x != 0 && y != x ==> x in blocks.places && blocks.places[x].Idle?
      ensures y == x && x != 0 ==> View() == old(View()) && blocks == old(blocks)
    {
      if newSize == 0 {
        if x != 0 { StepsApart(View(), blocks, GiveBack(x), x, blocks.places[x].serial, blocks.places[x].idx); }
        Free(x);
        return 0;
      }
      if x == 0 {
        y := Alloc(newSize, 8, got);
        return;
      }
      assert BlockOk(View(), blocks, x);
      StampSplits(blocks.places[x].serial, blocks.places[x].idx);
      var room := Pow2(words[x] / TWO56) - 8;
      if room >= newSize { return x; }
      StepsApart(View(), blocks, Take(newSize + 8, got), x, blocks.places[x].serial, blocks.places[x].idx);
      y := Alloc(newSize, 8, got);
      ghost var s, i := blocks.places[y].serial, blocks.places[y].idx;
      StepsApart(View(), blocks, GiveBack(x), y, s, i);
      Free(x);
    }
  }
}
