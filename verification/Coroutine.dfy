/** Coroutines run one at a time by handing a turn over unbuffered channels. Each step is one
    hand-over, or what the party whose turn it is does between two of them. */
module Coroutine {
  /** A coroutine before its `Begin`, waiting for its turn, having it, or finished. */
  datatype Status = Fresh | Parked | Running | Ended

  /** Outside `Resume`; about to wake the coroutine at `i`, or done if `i` is -1; waiting for its answer. */
  datatype Pc = Idle | Ready(i: int) | Waiting(i: int)

  /** `index` is the field each coroutine keeps; `begun` holds those that have passed their `Begin`,
      `frame` is the list when the frame began and `woken` whom it has woken since. */
  datatype Sched = Sched(
    cors: seq<nat>, index: map<nat, int>, status: map<nat, Status>, begun: set<nat>, pc: Pc,
    frame: seq<nat>, woken: seq<nat>)

  datatype Event = New(c: nat) | Begin(c: nat) | EnterResume | Wake | Yield | End | LeaveResume

  /** Moves the last coroutine into the hole and shortens the list. */
  function Delete(s: Sched, c: nat): Sched
    requires c in s.index && 0 <= s.index[c] < |s.cors|
  {
    var idx, count := s.index[c], |s.cors|;
    if idx + 1 < count then
      s.(index := s.index[s.cors[count - 1] := idx], cors := s.cors[idx := s.cors[count - 1]][..count - 1])
    else s.(cors := s.cors[..count - 1])
  }

  /** `New` is called by whoever has the turn; the others are the channel operations. */
  ghost predicate Enabled(s: Sched, e: Event) {
    match e
    case New(c) => c !in s.status && !s.pc.Ready?
    case Begin(c) => c in s.status && s.status[c].Fresh?
    case EnterResume => s.pc.Idle? && s.cors != []
    case Wake => s.pc.Ready? && 0 <= s.pc.i < |s.cors| && s.cors[s.pc.i] in s.status && s.status[s.cors[s.pc.i]].Parked?
    case Yield => s.pc.Waiting?
    case End => s.pc.Waiting?
    case LeaveResume => s.pc == Ready(-1)
  }

  ghost function Step(s: Sched, e: Event): Sched
    requires Inv(s) && Enabled(s, e)
  {
    match e
    case New(c) => s.(index := s.index[c := |s.cors|], cors := s.cors + [c], status := s.status[c := Fresh])
    case Begin(c) => s.(status := s.status[c := Parked], begun := s.begun + {c})
    case EnterResume => s.(pc := Ready(|s.cors| - 1), frame := s.cors, woken := [])
    case Wake =>
      var c := s.cors[s.pc.i];
      s.(status := s.status[c := Running], pc := Waiting(s.pc.i), woken := s.woken + [c])
    case Yield => s.(status := s.status[s.cors[s.pc.i] := Parked], pc := Ready(s.pc.i - 1))
    case End =>
      var c := s.cors[s.pc.i];
      Delete(s.(status := s.status[c := Ended], pc := Ready(s.pc.i - 1)), c)
    case LeaveResume => s.(pc := Idle)
  }

  function Reverse(s: seq<nat>): seq<nat> { if s == [] then [] else Reverse(s[1..]) + [s[0]] }

  ghost predicate Distinct(s: seq<nat>) { forall i, j :: 0 <= i < j < |s| ==> s[i] != s[j] }

  /** Everyone in the list knows its place and is unfinished. */
  ghost predicate Places(s: Sched) {
    && Distinct(s.cors)
    && forall k :: 0 <= k < |s.cors| ==>
         && s.cors[k] in s.index && s.index[s.cors[k]] == k
         && s.cors[k] in s.status && !s.status[s.cors[k]].Ended?
  }

  /** Exactly the one the scheduler waits for is running. */
  ghost predicate Turn(s: Sched) {
    && (s.pc.Waiting? ==> 0 <= s.pc.i < |s.cors|)
    && forall c <- s.status :: s.status[c].Running? <==> s.pc.Waiting? && c == s.cors[s.pc.i]
  }

  /** Those up to `i` are where they were when the frame began; those above, and `i` itself once
      it is being waited for, have had their turn in this frame. */
  ghost predicate Progress(s: Sched) {
    !s.pc.Idle? ==>
      && Distinct(s.frame)
      && -1 <= s.pc.i < |s.cors| && s.pc.i < |s.frame| && s.cors[..s.pc.i + 1] == s.frame[..s.pc.i + 1]
      && (s.pc.Waiting? ==> s.pc.i >= 0)
      && s.woken == Reverse(s.frame[if s.pc.Ready? then s.pc.i + 1 else s.pc.i..])
  }

  /** Whoever has begun and is not finished has the turn or waits for it. */
  ghost predicate Begun(s: Sched) {
    forall c <- s.status :: c in s.begun <==> !s.status[c].Fresh?
  }

  ghost predicate Inv(s: Sched) { Places(s) && Turn(s) && Progress(s) && Begun(s) && s.begun <= s.status.Keys }

  lemma DeletePlaces(s: Sched, c: nat)
    requires Places(s) && c in s.cors
    ensures c in s.index && 0 <= s.index[c] < |s.cors|
    ensures var s' := Delete(s, c);
            && Places(s') && |s'.cors| == |s.cors| - 1 && s'.cors[..s.index[c]] == s.cors[..s.index[c]]
            && s'.status == s.status && s'.pc == s.pc && s'.frame == s.frame && s'.woken == s.woken
            && s'.begun == s.begun
            && forall x :: x in s'.cors <==> x in s.cors && x != c
  {
    var k :| 0 <= k < |s.cors| && s.cors[k] == c;
    var s', n := Delete(s, c), |s.cors| - 1;
    assert forall j :: 0 <= j < n ==> s'.cors[j] == if j == k then s.cors[n] else s.cors[j];
    forall x ensures x in s'.cors <==> x in s.cors && x != c {
      if x in s'.cors {
        var j :| 0 <= j < n && s'.cors[j] == x;
        assert x == s.cors[if j == k then n else j];
      }
      if x in s.cors && x != c {
        var j :| 0 <= j <= n && s.cors[j] == x;
        assert s'.cors[if j == n then k else j] == x;
      }
    }
  }

  lemma ReverseMore(s: seq<nat>, i: nat)
    requires i < |s|
    ensures Reverse(s[i..]) == Reverse(s[i + 1..]) + [s[i]]
  {
    assert s[i..][1..] == s[i + 1..];
  }

  /** Every step keeps the indices, the turn and the order of the frame. */
  lemma StepKeeps(s: Sched, e: Event)
    requires Inv(s) && Enabled(s, e)
    ensures Inv(Step(s, e))
  {
    match e
    case New(c) =>
      NewKeeps(s, c);
    case Begin(c) =>
    case EnterResume =>
      assert s.cors[|s.cors|..] == [];
    case Wake =>
      WakeKeeps(s);
    case Yield =>
      assert s.cors[..s.pc.i] == s.cors[..s.pc.i + 1][..s.pc.i] == s.frame[..s.pc.i];
    case End =>
      EndKeeps(s);
    case LeaveResume =>
  }

  lemma NewKeeps(s: Sched, c: nat)
    requires Inv(s) && Enabled(s, New(c))
    ensures Inv(Step(s, New(c)))
  {
    assert forall x <- s.cors :: x in s.status;
  }

  lemma WakeKeeps(s: Sched)
    requires Inv(s) && Enabled(s, Wake)
    ensures Inv(Step(s, Wake))
  {
    ReverseMore(s.frame, s.pc.i);
    assert s.cors[..s.pc.i + 1][s.pc.i] == s.frame[..s.pc.i + 1][s.pc.i];
  }

  lemma EndKeeps(s: Sched)
    requires Inv(s) && s.pc.Waiting?
    ensures Inv(Step(s, End))
  {
    var c, i := s.cors[s.pc.i], s.pc.i;
    var g := s.(pc := Ready(i - 1));
    assert c in s.cors;
    DeletePlaces(g, c);
    var d := Delete(g, c);
    assert Step(s, End) == d.(status := s.status[c := Ended]);
    assert s.cors[..i] == s.cors[..i + 1][..i] == s.frame[..i];
    assert forall k :: 0 <= k < |d.cors| ==> d.cors[k] in d.cors && d.cors[k] != c;
  }

  // ----- runs

  const START: Sched := Sched([], map[], map[], {}, Idle, [], [])

  ghost predicate Runs(s: Sched, es: seq<Event>)
    requires Inv(s)
    decreases |es|
  {
    es == [] || (Enabled(s, es[0]) && (StepKeeps(s, es[0]); Runs(Step(s, es[0]), es[1..])))
  }

  ghost function After(s: Sched, es: seq<Event>): (r: Sched)
    requires Inv(s) && Runs(s, es)
    ensures Inv(r)
    decreases |es|
  {
    if es == [] then s
    else
      StepKeeps(s, es[0]);
      After(Step(s, es[0]), es[1..])
  }

  /** In every run: no two coroutines run at once, and each knows its index. */
  lemma OneAtATime(es: seq<Event>, c: nat, d: nat)
    requires Runs(START, es)
    ensures var s := After(START, es);
            && (c in s.status && d in s.status && s.status[c].Running? && s.status[d].Running? ==> c == d)
            && forall k :: 0 <= k < |s.cors| ==> s.cors[k] in s.index && s.index[s.cors[k]] == k
  {
  }

  /** When a frame ends, it has woken exactly those who were in the list when it began, each once,
      from the last to the first, whoever finished or was added on the way. */
  lemma FrameWakesEachOnce(es: seq<Event>)
    requires Runs(START, es) && Enabled(After(START, es), LeaveResume)
    ensures var s := After(START, es); s.woken == Reverse(s.frame) && Distinct(s.frame)
  {
    var s := After(START, es);
    assert s.frame[0..] == s.frame;
  }

  // ----- nobody is left waiting

  /** In every run: whoever is in the list and has begun is running or can be woken. */
  lemma BegunCanBeWoken(es: seq<Event>, c: nat)
    requires Runs(START, es) && c in After(START, es).cors && c in After(START, es).begun
    ensures var s := After(START, es);
            c in s.status && (s.status[c].Parked? || (s.pc.Waiting? && c == s.cors[s.pc.i]))
  {
    var s := After(START, es);
    var k :| 0 <= k < |s.cors| && s.cors[k] == c;
  }

  /** The next hand-over is possible in every sound state in which all those listed have begun. */
  lemma NextHandOver(s: Sched)
    requires Inv(s) && forall c <- s.cors :: c in s.begun
    ensures match s.pc {
              case Idle => s.cors == [] || Enabled(s, EnterResume)
              case Ready(i) => if i < 0 then Enabled(s, LeaveResume) else Enabled(s, Wake)
              case Waiting(_) => Enabled(s, Yield) && Enabled(s, End)
            }
  {
    hide Reverse, Distinct;
    if s.pc.Ready? && s.pc.i >= 0 {
      assert s.cors[s.pc.i] in s.cors;
      ReadyCanWake(s);
    }
    hide Places, Begun;
  }

  lemma ReadyCanWake(s: Sched)
    requires Inv(s) && s.pc.Ready? && 0 <= s.pc.i < |s.cors| && s.cors[s.pc.i] in s.begun
    ensures Enabled(s, Wake)
  {
    hide Reverse, Distinct;
    var c := s.cors[s.pc.i];
    assert c in s.status && !s.status[c].Ended?;
  }

  lemma RunsOne(s: Sched, e: Event, es: seq<Event>)
    requires Inv(s) && Enabled(s, e) && Inv(Step(s, e)) && Runs(Step(s, e), es)
    ensures Runs(s, [e] + es) && After(s, [e] + es) == After(Step(s, e), es)
  {
    hide Inv, Enabled, Step;
    assert ([e] + es)[0] == e && ([e] + es)[1..] == es;
  }

  /** One coroutine is woken, having begun if it had not yet, and answers. */
  lemma OneTurn(s: Sched, ends: bool) returns (es: seq<Event>)
    requires Inv(s) && s.pc.Ready? && s.pc.i >= 0
    ensures Runs(s, es)
    ensures var t := After(s, es); t.pc == Ready(s.pc.i - 1) && t.frame == s.frame && NoNew(es)
  {
    var c := s.cors[s.pc.i];
    assert c in s.cors;
    var answer := if ends then End else Yield;
    if s.status[c].Fresh? {
      var s1 := Step(s, Begin(c));
      StepKeeps(s, Begin(c));
      es := WakeAndAnswer(s1, answer);
      RunsOne(s, Begin(c), es);
      es := [Begin(c)] + es;
    } else {
      es := WakeAndAnswer(s, answer);
    }
  }

  ghost predicate NoNew(es: seq<Event>) { forall e <- es :: !e.New? && !e.EnterResume? }

  lemma WakeAndAnswer(s: Sched, answer: Event) returns (es: seq<Event>)
    requires Inv(s) && Enabled(s, Wake) && (answer.Yield? || answer.End?)
    ensures Runs(s, es)
    ensures var t := After(s, es); t.pc == Ready(s.pc.i - 1) && t.frame == s.frame && NoNew(es)
  {
    var s1 := Step(s, Wake);
    StepKeeps(s, Wake);
    var s2 := Step(s1, answer);
    StepKeeps(s1, answer);
    AnswerMovesOn(s1, answer);
    RunsNone(s2);
    RunsOne(s1, answer, []);
    RunsOne(s, Wake, [answer]);
    assert [answer] + [] == [answer];
    es := [Wake] + [answer];
  }

  lemma RunsNone(s: Sched)
    requires Inv(s)
    ensures Runs(s, []) && After(s, []) == s
  {
  }

  lemma AnswerMovesOn(s: Sched, e: Event)
    requires Inv(s) && s.pc.Waiting? && (e.Yield? || e.End?)
    ensures Step(s, e).pc == Ready(s.pc.i - 1) && Step(s, e).frame == s.frame
  {
  }

  lemma {:induction false} RunsMore(s: Sched, es: seq<Event>, fs: seq<Event>)
    requires Inv(s) && Runs(s, es) && Runs(After(s, es), fs)
    ensures Runs(s, es + fs) && After(s, es + fs) == After(After(s, es), fs)
    decreases |es|
  {
    hide Inv, Enabled, Step;
    if es == [] {
      assert es + fs == fs;
    } else {
      StepKeeps(s, es[0]);
      RunsMore(Step(s, es[0]), es[1..], fs);
      assert (es + fs)[1..] == es[1..] + fs;
    }
  }

  /** From any point of a frame it can be brought to its end, whatever the coroutines still to be woken
      answer. */
  lemma FrameCanEnd(s: Sched, answers: seq<bool>) returns (es: seq<Event>)
    requires Inv(s) && s.pc.Ready? && |answers| == s.pc.i + 1
    ensures Runs(s, es) && NoNew(es)
    ensures var t := After(s, es); Enabled(t, LeaveResume) && t.frame == s.frame && t.woken == Reverse(t.frame)
    decreases |answers|
  {
    if answers == [] {
      RunsNone(s);
      assert s.frame[0..] == s.frame;
      es := [];
    } else {
      var first := OneTurn(s, answers[0]);
      hide Inv, Enabled, Step;
      var rest := FrameCanEnd(After(s, first), answers[1..]);
      RunsMore(s, first, rest);
      es := first + rest;
    }
  }

  /** And a new frame can be begun and brought to its end. */
  lemma FrameCanRun(s: Sched, answers: seq<bool>) returns (es: seq<Event>)
    requires Inv(s) && s.pc.Idle? && s.cors != [] && |answers| == |s.cors|
    ensures Runs(s, es) && (forall e <- es :: !e.New?)
    ensures var t := After(s, es); Enabled(t, LeaveResume) && t.frame == s.cors && t.woken == Reverse(s.cors)
  {
    StepKeeps(s, EnterResume);
    var t := Step(s, EnterResume);
    var rest := FrameCanEnd(t, answers);
    RunsOne(s, EnterResume, rest);
    es := [EnterResume] + rest;
  }

  // ----- from one frame to the next

  /** A coroutine that has had its turn in this frame and waits for the next. */
  ghost predicate Resting(s: Sched, c: nat) {
    c in s.cors && c in s.status && s.status[c].Parked? && (s.pc.Idle? || c in s.woken)
  }

  /** Those still to be woken are not among those who were. */
  lemma NotWokenTwice(s: Sched)
    requires Inv(s) && s.pc.Ready? && s.pc.i >= 0
    ensures s.cors[s.pc.i] == s.frame[s.pc.i] && s.cors[s.pc.i] !in s.woken
  {
    var i := s.pc.i;
    assert s.cors[..i + 1][i] == s.frame[..i + 1][i];
    ReverseMembers(s.frame[i + 1..]);
    var rest := s.frame[i + 1..];
    assert forall j :: 0 <= j < |rest| ==> rest[j] == s.frame[i + 1 + j];
  }

  lemma {:induction false} ReverseMembers(s: seq<nat>)
    ensures forall x :: x in Reverse(s) <==> x in s
  {
    if s != [] {
      ReverseMembers(s[1..]);
      assert s == [s[0]] + s[1..];
    }
  }

  lemma RestingStays(s: Sched, e: Event, c: nat)
    requires Inv(s) && Enabled(s, e) && Resting(s, c) && !e.EnterResume?
    ensures Resting(Step(s, e), c)
  {
    match e
    case New(x) =>
    case Begin(x) =>
    case Wake => NotWokenTwice(s);
    case Yield =>
    case End =>
      var g := s.(pc := Ready(s.pc.i - 1));
      assert s.cors[s.pc.i] in s.cors;
      DeletePlaces(g, s.cors[s.pc.i]);
    case LeaveResume =>
  }

  ghost predicate SameFrame(es: seq<Event>) { forall e <- es :: !e.EnterResume? }

  lemma {:induction false} RestingLasts(s: Sched, es: seq<Event>, c: nat)
    requires Inv(s) && Runs(s, es) && Resting(s, c) && SameFrame(es)
    ensures Resting(After(s, es), c)
    decreases |es|
  {
    hide Inv, Enabled, Step, Resting;
    if es != [] {
      assert es[0] in es && forall e <- es[1..] :: e in es;
      StepKeeps(s, es[0]);
      RestingStays(s, es[0], c);
      RestingLasts(Step(s, es[0]), es[1..], c);
    }
  }

  lemma FrameStays(s: Sched, e: Event)
    requires Inv(s) && Enabled(s, e) && !e.EnterResume?
    ensures Step(s, e).frame == s.frame
  {
  }

  lemma {:induction false} FrameLasts(s: Sched, es: seq<Event>)
    requires Inv(s) && Runs(s, es) && SameFrame(es)
    ensures After(s, es).frame == s.frame
    decreases |es|
  {
    hide Inv, Enabled, Step;
    if es != [] {
      assert es[0] in es && forall e <- es[1..] :: e in es;
      StepKeeps(s, es[0]);
      FrameStays(s, es[0]);
      FrameLasts(Step(s, es[0]), es[1..]);
    }
  }

  /** A coroutine that yielded is woken by the next frame, by the time that ends. */
  lemma YieldedIsWoken(s: Sched, es: seq<Event>, fs: seq<Event>)
    requires Inv(s) && s.pc.Waiting? && SameFrame(es) && SameFrame(fs)
    requires Inv(Step(s, Yield)) && Runs(Step(s, Yield), es) && Enabled(After(Step(s, Yield), es), EnterResume)
    requires var t := Step(After(Step(s, Yield), es), EnterResume);
             Inv(t) && Runs(t, fs) && Enabled(After(t, fs), LeaveResume)
    ensures s.cors[s.pc.i] in After(Step(After(Step(s, Yield), es), EnterResume), fs).woken
  {
    var c := s.cors[s.pc.i];
    var s1 := Step(s, Yield);
    YieldedRests(s);
    RestingLasts(s1, es, c);
    var t := Step(After(s1, es), EnterResume);
    assert c in t.frame;
    FrameLasts(t, fs);
    var u := After(t, fs);
    assert u.frame[0..] == u.frame;
    ReverseMembers(u.frame);
  }

  lemma YieldedRests(s: Sched)
    requires Inv(s) && s.pc.Waiting?
    ensures Resting(Step(s, Yield), s.cors[s.pc.i])
  {
    var i := s.pc.i;
    assert s.cors[..i + 1][i] == s.frame[..i + 1][i];
    ReverseMembers(s.frame[i..]);
    assert s.frame[i..][0] == s.frame[i];
  }

  /** One that ended is gone for good. */
  ghost predicate Gone(s: Sched, c: nat) { c !in s.cors && c in s.status && s.status[c].Ended? }

  lemma EndedIsGone(s: Sched)
    requires Inv(s) && s.pc.Waiting?
    ensures Gone(Step(s, End), s.cors[s.pc.i])
  {
    var g := s.(pc := Ready(s.pc.i - 1));
    assert s.cors[s.pc.i] in s.cors;
    DeletePlaces(g, s.cors[s.pc.i]);
  }

  lemma GoneStays(s: Sched, e: Event, c: nat)
    requires Inv(s) && Enabled(s, e) && Gone(s, c)
    ensures Gone(Step(s, e), c) && (e.Wake? ==> s.cors[s.pc.i] != c)
  {
    if e.Wake? { assert s.cors[s.pc.i] in s.cors; }
    if e.End? {
      var g := s.(pc := Ready(s.pc.i - 1));
      assert s.cors[s.pc.i] in s.cors;
      DeletePlaces(g, s.cors[s.pc.i]);
    }
  }

  lemma {:induction false} GoneLasts(s: Sched, es: seq<Event>, c: nat)
    requires Inv(s) && Runs(s, es) && Gone(s, c)
    ensures Gone(After(s, es), c) && (c !in s.woken ==> c !in After(s, es).woken)
    decreases |es|
  {
    if es != [] {
      StepKeeps(s, es[0]);
      GoneStays(s, es[0], c);
      WokenGrows(s, es[0]);
      hide Inv, Enabled, Step, Gone;
      GoneLasts(Step(s, es[0]), es[1..], c);
    }
  }

  lemma WokenGrows(s: Sched, e: Event)
    requires Inv(s) && Enabled(s, e)
    ensures Step(s, e).woken
         == if e.EnterResume? then [] else if e.Wake? then s.woken + [s.cors[s.pc.i]] else s.woken
  {
  }

  /** One that ended is woken by no later frame. */
  lemma EndedIsNotWoken(s: Sched, es: seq<Event>, fs: seq<Event>)
    requires Inv(s) && s.pc.Waiting?
    requires Inv(Step(s, End)) && Runs(Step(s, End), es) && Enabled(After(Step(s, End), es), EnterResume)
    requires var t := Step(After(Step(s, End), es), EnterResume); Inv(t) && Runs(t, fs)
    ensures s.cors[s.pc.i] !in After(Step(After(Step(s, End), es), EnterResume), fs).woken
  {
    var c := s.cors[s.pc.i];
    EndedIsGone(s);
    GoneLasts(Step(s, End), es, c);
    var u := After(Step(s, End), es);
    GoneStays(u, EnterResume, c);
    GoneLasts(Step(u, EnterResume), fs, c);
  }

  // ----- the list, in place

  class Cor {
    var index: int

    constructor (i: int)
      ensures index == i
    {
      index := i;
    }
  }

  /** The list without the element at `i`, the last one moved into its place. */
  function SwapRemoved<T>(s: seq<T>, i: nat): (r: seq<T>)
    requires i < |s|
    ensures |r| == |s| - 1
    ensures forall j :: 0 <= j < i ==> r[j] == s[j]
  {
    s[i := s[|s| - 1]][..|s| - 1]
  }

  class Scheduler {
    var cors: seq<Cor>

    ghost predicate Valid()
      reads this, cors
    {
      forall k :: 0 <= k < |cors| ==> cors[k].index == k
    }

    constructor ()
      ensures Valid() && cors == []
    {
      cors := [];
    }

    method New() returns (c: Cor)
      requires Valid()
      modifies this
      ensures Valid() && fresh(c) && cors == old(cors) + [c]
    {
      c := new Cor(|cors|);
      cors := cors + [c];
    }

    /** The fields that say where each coroutine is follow the move. */
    method Delete(c: Cor)
      requires Valid() && c in cors
      modifies this, cors
      ensures 0 <= old(c.index) < |old(cors)| && old(cors)[old(c.index)] == c
      ensures Valid() && cors == SwapRemoved(old(cors), old(c.index))
      ensures c !in cors && forall x :: x in cors <==> x in old(cors) && x != c
    {
      var idx, count := c.index, |cors|;
      ghost var was := cors;
      if idx + 1 < count {
        cors[count - 1].index := idx;
        cors := cors[idx := cors[count - 1]];
      }
      cors := cors[..count - 1];
      assert forall j :: 0 <= j < count - 1 ==> cors[j] == if j == idx then was[count - 1] else was[j];
      forall x | x in was && x != c ensures x in cors {
        var j :| 0 <= j < count && was[j] == x;
        assert cors[if j == count - 1 then idx else j] == x;
      }
    }
  }
}
