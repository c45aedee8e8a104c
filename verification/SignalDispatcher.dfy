/**
 vsf_sysutil_check_pending_actions (sysutil.c): signal handlers run at points where the program asks for
 them, may themselves come back to such a point, and signals arrive between any two statements.
 */
module SignalDispatcher {
  import opened Basics

  /** A handler: a signal's, or the I/O handler. */
  datatype Handler = Sig(n: nat) | Io

  /** A signal arrives, its pending mark is cleared, a handler is called. */
  datatype Event = Arrived(sig: nat) | Taken(sig: nat) | Called(handler: Handler)

  type History = seq<Event>

  // ---------------------------------------------------------------- histories

  /** The signal has arrived since its mark was last cleared. */
  predicate Owed(h: History, j: nat) {
    h != [] &&
    var before, e := h[..|h| - 1], h[|h| - 1];
    e == Arrived(j) || (e != Taken(j) && Owed(before, j))
  }

  /** Ready, or in between: the mark of a signal is cleared and its handler has yet to be called. */
  datatype Phase = Ready | Took(sig: nat) | Broken

  /** A mark is cleared only when it is set, its handler is the next to be called, and none is called otherwise. */
  function Next(p: Phase, e: Event, owed: bool): Phase {
    match e
    case Arrived(_) => p
    case Taken(j) => if p.Ready? && owed then Took(j) else Broken
    case Called(Sig(j)) => if p == Took(j) then Ready else Broken
    case Called(Io) => if p.Ready? then Ready else Broken
  }

  function PhaseOf(h: History): Phase {
    if h == [] then Ready else
    var before, e := h[..|h| - 1], h[|h| - 1];
    Next(PhaseOf(before), e, e.Taken? && Owed(before, e.sig))
  }

  lemma OneMore(h: History, e: Event)
    ensures PhaseOf(h + [e]) == Next(PhaseOf(h), e, e.Taken? && Owed(h, e.sig))
    ensures forall j :: Owed(h + [e], j) <==> e == Arrived(j) || (e != Taken(j) && Owed(h, j))
  {
    assert (h + [e])[..|h|] == h;
  }

  /** What has happened from a to b. */
  function Since(a: History, b: History): History
    requires a <= b
  {
    b[|a|..]
  }

  lemma SinceThen(a: History, b: History, c: History)
    requires a <= b <= c
    ensures Since(a, c) == Since(a, b) + Since(b, c)
  {
  }

  /** A mark that is set stays set unless it is cleared. */
  lemma {:induction false} OwedStays(a: History, b: History, j: nat)
    requires a <= b && Owed(a, j) && Taken(j) !in Since(a, b)
    ensures Owed(b, j)
    decreases |b|
  {
    if a == b {
    } else {
      var before, e := b[..|b| - 1], b[|b| - 1];
      assert b == before + [e] && Since(a, b) == Since(a, before) + [e];
      OwedStays(a, before, j);
    }
  }

  lemma {:induction false} NotBroken(h: History, n: nat)
    requires n <= |h| && !PhaseOf(h).Broken?
    ensures !PhaseOf(h[..n]).Broken?
    decreases |h|
  {
    if n == |h| {
      assert h[..n] == h;
    } else {
      NotBroken(h[..|h| - 1], n);
      assert h[..|h| - 1][..n] == h[..n];
    }
  }

  /** From m on nothing but arrivals until the call. */
  predicate CalledNext(h: History, m: nat, c: nat, j: nat) {
    m < c < |h| && h[c] == Called(Sig(j)) && forall i | m < i < c :: h[i].Arrived?
  }

  /** The mark that is cleared at m has its call, unless that is still to come. */
  lemma {:induction false} TakenIsCalled(h: History, m: nat, j: nat)
    requires m < |h| && h[m] == Taken(j) && !PhaseOf(h).Broken?
    ensures (exists c :: CalledNext(h, m, c, j)) || (PhaseOf(h) == Took(j) && forall i | m < i < |h| :: h[i].Arrived?)
    decreases |h|
  {
    var before := h[..|h| - 1];
    NotBroken(h, |before|);
    if m == |before| {
    } else {
      TakenIsCalled(before, m, j);
      if c :| CalledNext(before, m, c, j) {
        assert CalledNext(h, m, c, j);
      } else {
        assert h[|before|].Arrived? || CalledNext(h, m, |before|, j);
      }
    }
  }

  /** No arrival is lost: its mark is still set, or was cleared later and the handler called right then. */
  lemma NoneLost(h: History, k: nat, j: nat)
    requires PhaseOf(h).Ready? && k < |h| && h[k] == Arrived(j)
    ensures Owed(h, j) || exists m, c :: k < m < |h| && h[m] == Taken(j) && CalledNext(h, m, c, j)
  {
    var a := h[..k + 1];
    assert a[..k] == h[..k];
    if Taken(j) in Since(a, h) {
      var i :| 0 <= i < |Since(a, h)| && Since(a, h)[i] == Taken(j);
      assert h[k + 1 + i] == Taken(j);
      TakenIsCalled(h, k + 1 + i, j);
    } else {
      OwedStays(a, h, j);
    }
  }

  /** From a to b the signal's mark is cleared and its handler called right then. */
  ghost predicate Served(a: History, b: History, j: nat)
    requires a <= b
  {
    exists m, c :: |a| <= m < |b| && b[m] == Taken(j) && CalledNext(b, m, c, j)
  }

  lemma TakenIsServed(a: History, b: History, j: nat)
    requires a <= b && PhaseOf(b).Ready? && Taken(j) in Since(a, b)
    ensures Served(a, b, j)
  {
    var i :| 0 <= i < |Since(a, b)| && Since(a, b)[i] == Taken(j);
    TakenIsCalled(b, |a| + i, j);
  }

  /** A mark that was clear, or has been cleared, is set again only by an arrival. */
  lemma {:induction false} OwedAgain(a: History, b: History, j: nat)
    requires a <= b && Owed(b, j) && (!Owed(a, j) || Taken(j) in Since(a, b))
    ensures Arrived(j) in Since(a, b)
    decreases |b|
  {
    if a == b {
      assert false;
    } else {
      var before, e := b[..|b| - 1], b[|b| - 1];
      assert b == before + [e] && Since(a, b) == Since(a, before) + [e];
      if e != Arrived(j) {
        OwedAgain(a, before, j);
      }
    }
  }

  /** What has arrived since, and has not been cleared since, is owed. */
  lemma {:induction false} ArrivedOwed(a: History, b: History, j: nat)
    requires a <= b && Arrived(j) in Since(a, b) && Taken(j) !in Since(a, b)
    ensures Owed(b, j)
    decreases |b|
  {
    var before, e := b[..|b| - 1], b[|b| - 1];
    assert b == before + [e] && Since(a, b) == Since(a, before) + [e];
    if e == Arrived(j) {
    } else {
      ArrivedOwed(a, before, j);
    }
  }

  /** The event happens, and before it nothing but arrivals. */
  ghost predicate HappensFirst(h: History, e: Event) {
    exists k :: 0 <= k < |h| && h[k] == e && forall i | 0 <= i < k :: h[i].Arrived?
  }

  lemma StillFirst(a: History, b: History, c: History, e: Event)
    requires a <= b <= c
    ensures HappensFirst(Since(a, b), e) ==> HappensFirst(Since(a, c), e)
    ensures HappensFirst(Since(b, c), e) && (forall x | x in Since(a, b) :: x.Arrived?) ==> HappensFirst(Since(a, c), e)
    ensures HappensFirst(Since(a, b), e) ==> e in Since(a, b)
  {
    SinceThen(a, b, c);
    var n := |Since(a, b)|;
    if HappensFirst(Since(a, b), e) {
      var k :| 0 <= k < n && Since(a, b)[k] == e && forall i | 0 <= i < k :: Since(a, b)[i].Arrived?;
      assert Since(a, c)[k] == e && forall i | 0 <= i < k :: Since(a, c)[i] == Since(a, b)[i];
    }
    if HappensFirst(Since(b, c), e) && forall x | x in Since(a, b) :: x.Arrived? {
      var k :| 0 <= k < |Since(b, c)| && Since(b, c)[k] == e && forall i | 0 <= i < k :: Since(b, c)[i].Arrived?;
      assert Since(a, c)[n + k] == e;
      forall i | 0 <= i < n + k ensures Since(a, c)[i].Arrived? {
        if i >= n {
          assert Since(a, c)[i] == Since(b, c)[i - n];
        }
      }
    }
  }

  lemma FirstNow(h: History, e: Event)
    ensures HappensFirst(Since(h, h + [e]), e)
  {
    assert Since(h, h + [e]) == [e] && [e][0] == e;
  }

  function Count(h: History, e: Event): nat {
    if h == [] then 0 else Count(h[..|h| - 1], e) + if h[|h| - 1] == e then 1 else 0
  }

  /** No call is invented: each has its own arrival, as has each mark that is set. */
  lemma {:induction false} NoneInvented(h: History, j: nat)
    requires !PhaseOf(h).Broken?
    ensures Count(h, Called(Sig(j))) + (if Owed(h, j) then 1 else 0) + (if PhaseOf(h) == Took(j) then 1 else 0)
            <= Count(h, Arrived(j))
  {
    if h == [] {
    } else {
      NotBroken(h, |h| - 1);
      NoneInvented(h[..|h| - 1], j);
    }
  }

  /** The marks of the handlers that run throughout are left alone. */
  predicate Untouched(a: History, b: History, running: seq<bool>) {
    a <= b && forall j | 0 <= j < |running| && running[j] :: Taken(j) !in Since(a, b)
  }

  lemma UntouchedThen(a: History, b: History, c: History, running: seq<bool>)
    requires Untouched(a, b, running) && Untouched(b, c, running)
    ensures Untouched(a, c, running) && a <= b <= c
    ensures forall e | e in Since(a, b) || e in Since(b, c) :: e in Since(a, c)
  {
    SinceThen(a, b, c);
  }

  lemma LessUntouched(a: History, b: History, running: seq<bool>, i: nat)
    requires i < |running| && Untouched(a, b, running[i := true])
    ensures Untouched(a, b, running) && a <= b
  {
    forall j | 0 <= j < |running| && running[j] ensures Taken(j) !in Since(a, b) {
      assert running[i := true][j];
    }
  }

  lemma UntouchedOne(h: History, e: Event, running: seq<bool>)
    requires e.Taken? && e.sig < |running| ==> !running[e.sig]
    ensures Untouched(h, h + [e], running) && Since(h, h + [e]) == [e]
  {
  }

  // ---------------------------------------------------------------- the dispatcher

  class Dispatcher {
    const nsig: nat
    /** Which signals have a synchronous handler, and whether there is an I/O handler. */
    const handled: nat -> bool
    const hasIo: bool
    /** What the k-th handler call does that matters here: it asks for pending actions, after I/O or not. */
    const plan: nat -> seq<bool>
    /** Which signals arrive at the k-th point between two statements: any finite number. */
    const storm: nat -> seq<nat>
    var pending: seq<bool>
    var running: seq<bool>
    var ioRunning: bool
    /** Handler calls and points between statements so far. */
    var started: nat
    var points: nat
    /** The handlers now active, outermost first, and all that has happened. */
    ghost var active: seq<Handler>
    ghost var history: History

    constructor (n: nat, h: nat -> bool, io: bool, p: nat -> seq<bool>, s: nat -> seq<nat>)
      ensures Valid() && active == [] && history == [] && nsig == n
    {
      nsig, handled, hasIo, plan, storm := n, h, io, p, s;
      pending, running, ioRunning := seq(n, _ => false), seq(n, _ => false), false;
      started, points, active, history := 0, 0, [], [];
    }

    /**
     The running flags say exactly which handlers are active, none is active twice, and the pending marks
     say exactly which signals are owed a call.
     */
    ghost predicate Shape()
      reads this`pending, this`running, this`ioRunning, this`active, this`history
    {
      && |pending| == |running| == nsig
      && (forall i | 0 <= i < nsig :: running[i] <==> Sig(i) in active)
      && (ioRunning <==> Io in active)
      && (forall h | h in active :: h.Io? || h.n < nsig)
      && (forall i, j | 0 <= i < j < |active| :: active[i] != active[j])
      && (forall i | 0 <= i < nsig :: pending[i] <==> Owed(history, i))
      && (forall i | 0 <= i < nsig && pending[i] :: handled(i))
    }

    /** Between steps, no cleared mark is without its call. */
    ghost predicate Valid()
      reads this`pending, this`running, this`ioRunning, this`active, this`history
    {
      Shape() && PhaseOf(history).Ready?
    }

    /** The handlers that can still be started. */
    ghost function Free(): nat
      reads this`running, this`ioRunning
    {
      Idle(running) + if ioRunning then 0 else 1
    }

    /** What every stretch of dispatching keeps: the same handlers are active, and their marks are not cleared. */
    twostate predicate Kept()
      reads this
    {
      && active == old(active) && running == old(running) && ioRunning == old(ioRunning)
      && Untouched(old(history), history, running)
    }

    /** The signal handler proper: note the signal and leave. */
    method Note(sig: nat)
      requires Shape()
      modifies this`pending, this`history
      ensures Shape()
      ensures history == old(history) + if sig < nsig && handled(sig) then [Arrived(sig)] else []
    {
      if sig < nsig && handled(sig) {
        pending := pending[sig := true];
        OneMore(history, Arrived(sig));
        history := history + [Arrived(sig)];
      } else {
        assert history == old(history) + [];
      }
    }

    /** A point between two statements: whatever arrives is noted. */
    method Interrupt()
      requires Shape()
      modifies this`pending, this`history, this`points
      ensures Shape() && Kept() && old(history) <= history
      ensures forall e | e in Since(old(history), history) :: e.Arrived?
      ensures PhaseOf(history) == PhaseOf(old(history))
      ensures forall i | 0 <= i < nsig && old(pending)[i] :: pending[i]
    {
      hide Dispatcher.Shape, Owed, PhaseOf;
      Marks();
      var sigs := storm(points);
      points := points + 1;
      var k := 0;
      while k < |sigs|
        invariant k <= |sigs| && Shape() && old(history) <= history
        invariant forall e | e in Since(old(history), history) :: e.Arrived?
        invariant PhaseOf(history) == PhaseOf(old(history))
      {
        ghost var before := history;
        Note(sigs[k]);
        Appended(old(history), before, history);
        k := k + 1;
      }
      Marks();
      forall i | 0 <= i < nsig && Owed(old(history), i) ensures pending[i] {
        OwedStays(old(history), history, i);
      }
    }

    lemma Marks()
      requires Shape()
      ensures |pending| == |running| == nsig
      ensures forall i | 0 <= i < nsig :: pending[i] <==> Owed(history, i)
      ensures forall i | 0 <= i < nsig && pending[i] :: handled(i)
    {
    }

    /** The running flag of a handler is set. */
    method Enter(h: Handler)
      requires Shape() && if h.Io? then !ioRunning else h.n < nsig && !running[h.n]
      modifies this`running, this`ioRunning, this`active
      ensures Shape() && active == old(active) + [h] && Free() < old(Free())
      ensures if h.Io? then ioRunning && running == old(running)
              else ioRunning == old(ioRunning) && running == old(running)[h.n := true]
    {
      hide Owed;
      if h.Io? {
        ioRunning := true;
      } else {
        FewerIdle(running, h.n);
        running := running[h.n := true];
      }
      active := active + [h];
    }

    /** And cleared again. */
    method Leave(h: Handler)
      requires Shape() && active != [] && active[|active| - 1] == h
      modifies this`running, this`ioRunning, this`active
      ensures Shape() && active == old(active)[..|old(active)| - 1]
      ensures if h.Io? then !ioRunning && running == old(running)
              else h.n < nsig && ioRunning == old(ioRunning) && running == old(running)[h.n := false]
    {
      hide Owed;
      assert h in active;
      if h.Io? {
        ioRunning := false;
      } else {
        running := running[h.n := false];
      }
      active := active[..|active| - 1];
    }

    /** The pending mark of a signal is cleared. */
    method Unmark(i: nat)
      requires Valid() && i < nsig && pending[i]
      modifies this`pending, this`history
      ensures Shape() && PhaseOf(history) == Took(i)
      ensures history == old(history) + [Taken(i)]
    {
      pending := pending[i := false];
      OneMore(history, Taken(i));
      history := history + [Taken(i)];
    }

    /**
     A handler's body: it asks for pending actions any number of times.  A signal that arrives while its own
     handler runs is still pending when that returns.
     */
    method Call(h: Handler)
      requires Shape() && h in active
      requires PhaseOf(history) == if h.Io? then Ready else Took(h.n)
      modifies this
      ensures Valid() && Kept()
      ensures forall i | 0 <= i < nsig && running[i] && Arrived(i) in Since(old(history), history) :: pending[i]
      ensures HappensFirst(Since(old(history), history), Called(h))
      decreases Free(), 2
    {
      hide Owed, PhaseOf, Untouched, HappensFirst, Since;
      var asks := plan(started);
      started := started + 1;
      OneMore(history, Called(h));
      UntouchedOne(history, Called(h), running);
      FirstNow(history, Called(h));
      history := history + [Called(h)];
      var k := 0;
      while k < |asks|
        invariant k <= |asks| && Valid() && Kept() && old(history) <= history
        invariant HappensFirst(Since(old(history), history), Called(h))
      {
        ghost var before := history;
        Interrupt();
        UntouchedThen(old(history), before, history, running);
        StillFirst(old(history), before, history, Called(h));
        before := history;
        CheckPendingActions(asks[k]);
        UntouchedThen(old(history), before, history, running);
        StillFirst(old(history), before, history, Called(h));
        k := k + 1;
      }
      RunningPending(old(history));
    }

    lemma RunningPending(a: History)
      requires Shape() && Untouched(a, history, running)
      ensures forall i | 0 <= i < nsig && running[i] && Arrived(i) in Since(a, history) :: pending[i]
    {
      forall i | 0 <= i < nsig && running[i] && Arrived(i) in Since(a, history) ensures pending[i] {
        ArrivedOwed(a, history, i);
      }
    }

    /** The I/O half of the dispatcher. */
    method RunIo()
      requires Valid() && !ioRunning
      modifies this
      ensures Valid() && Kept()
      ensures HappensFirst(Since(old(history), history), Called(Io))
      decreases Free(), 0
    {
      hide Owed, PhaseOf, Untouched, HappensFirst, Since, Dispatcher.Shape, Dispatcher.Free;
      Enter(Io);
      Interrupt();
      ghost var before := history;
      Call(Io);
      UntouchedThen(old(history), before, history, running);
      StillFirst(old(history), before, history, Called(Io));
      Leave(Io);
    }

    /** One signal's turn: its pending mark goes before the handler runs, its running mark after. */
    method RunSignal(i: nat)
      requires Valid() && i < nsig && pending[i] && !running[i]
      modifies this
      ensures Valid() && Kept()
      ensures Taken(i) in Since(old(history), history)
      decreases Free(), 0
    {
      hide Owed, PhaseOf, Untouched, Dispatcher.Shape, Dispatcher.Free;
      Marks();
      ghost var idle := running;
      Enter(Sig(i));
      Interrupt();
      ghost var before := history;
      LessUntouched(old(history), before, idle, i);
      if handled(i) {
        Unmark(i);
        UntouchedOne(before, Taken(i), idle);
        UntouchedThen(old(history), before, history, idle);
        before := history;
        Interrupt();
        LessUntouched(before, history, idle, i);
        UntouchedThen(old(history), before, history, idle);
        before := history;
        Call(Sig(i));
        LessUntouched(before, history, idle, i);
        UntouchedThen(old(history), before, history, idle);
      }
      Leave(Sig(i));
      assert running == idle;
    }

    /**
     vsf_sysutil_check_pending_actions: the I/O handler comes first when it is asked for and idle; every signal
     pending on entry whose handler is not running gets its call, and afterwards only those that have arrived
     meanwhile are pending.
     */
    method CheckPendingActions(io: bool)
      requires Valid()
      modifies this
      ensures Valid() && Kept()
      ensures old(hasIo && !ioRunning && io) ==> HappensFirst(Since(old(history), history), Called(Io))
      ensures forall i | 0 <= i < nsig && old(pending)[i] && !running[i] :: Served(old(history), history, i)
      ensures forall i | 0 <= i < nsig && pending[i] && !running[i] :: Arrived(i) in Since(old(history), history)
      decreases Free(), 1
    {
      hide Owed, PhaseOf, Untouched, Served, HappensFirst, Since, Dispatcher.Shape, Dispatcher.Free;
      Marks();
      Interrupt();
      ghost var before := history;
      if hasIo && !ioRunning && io {
        RunIo();
        UntouchedThen(old(history), before, history, running);
        StillFirst(old(history), before, history, Called(Io));
      }
      var i := 0;
      while i < nsig
        invariant i <= nsig && Valid() && Kept() && old(history) <= history
        invariant old(hasIo && !ioRunning && io) ==> HappensFirst(Since(old(history), history), Called(Io))
        invariant forall j | 0 <= j < i && old(pending)[j] && !running[j] :: Taken(j) in Since(old(history), history)
      {
        before := history;
        Interrupt();
        UntouchedThen(old(history), before, history, running);
        StillFirst(old(history), before, history, Called(Io));
        before := history;
        Marks();
        Waiting(old(history), i);
        if pending[i] && !running[i] {
          RunSignal(i);
          UntouchedThen(old(history), before, history, running);
          StillFirst(old(history), before, history, Called(Io));
        }
        i := i + 1;
      }
      Marks();
      Settled(old(history), old(pending));
    }

    lemma Settled(a: History, was: seq<bool>)
      requires Valid() && a <= history && |was| == nsig && forall i | 0 <= i < nsig :: was[i] <==> Owed(a, i)
      requires forall i | 0 <= i < nsig && was[i] && !running[i] :: Taken(i) in Since(a, history)
      ensures forall i | 0 <= i < nsig && was[i] && !running[i] :: Served(a, history, i)
      ensures forall i | 0 <= i < nsig && pending[i] && !running[i] :: Arrived(i) in Since(a, history)
    {
      forall i | 0 <= i < nsig && was[i] && !running[i] ensures Served(a, history, i) {
        TakenIsServed(a, history, i);
      }
      forall i | 0 <= i < nsig && pending[i] && !running[i] ensures Arrived(i) in Since(a, history) {
        OwedAgain(a, history, i);
      }
    }

    /** A mark set in the past is set now or has been cleared. */
    lemma Waiting(a: History, i: nat)
      requires Shape() && i < nsig && a <= history
      ensures Owed(a, i) ==> pending[i] || Taken(i) in Since(a, history)
    {
      if Owed(a, i) && Taken(i) !in Since(a, history) {
        OwedStays(a, history, i);
      }
    }
  }

  lemma Appended(a: History, b: History, c: History)
    requires a <= b <= c && |c| <= |b| + 1 && forall e | e in Since(a, b) :: e.Arrived?
    requires |c| > |b| ==> c[|b|].Arrived?
    ensures forall e | e in Since(a, c) :: e.Arrived?
    ensures PhaseOf(c) == PhaseOf(b)
  {
    SinceThen(a, b, c);
    if |c| > |b| {
      assert c == b + [c[|b|]];
      OneMore(b, c[|b|]);
    } else {
      assert c == b;
    }
  }

  // ---------------------------------------------------------------- how deep handlers nest

  ghost function Idle(running: seq<bool>): nat {
    if running == [] then 0 else (if running[0] then 0 else 1) + Idle(running[1..])
  }

  lemma {:induction false} FewerIdle(running: seq<bool>, i: nat)
    requires i < |running| && !running[i]
    ensures Idle(running[i := true]) == Idle(running) - 1
  {
    if i == 0 {
    } else {
      assert running[i := true][1..] == running[1..][i - 1 := true];
      FewerIdle(running[1..], i - 1);
    }
  }

  lemma Distinct(s: seq<Handler>, n: nat)
    requires forall i, j | 0 <= i < j < |s| :: s[i] != s[j]
    requires forall h | h in s :: h.Io? || h.n < n
    ensures |s| <= n + 1
  {
    var all := {Io} + set i | 0 <= i < n :: Sig(i);
    var here := set h | h in s;
    SigCount(n);
    SeqSet(s);
    assert here <= all;
    SubsetSize(here, all);
  }

  lemma {:induction false} SigCount(n: nat)
    ensures |set i | 0 <= i < n :: Sig(i)| == n
  {
    if n == 0 {
    } else {
      SigCount(n - 1);
      assert (set i | 0 <= i < n :: Sig(i)) == (set i | 0 <= i < n - 1 :: Sig(i)) + {Sig(n - 1)};
    }
  }

  lemma {:induction false} SeqSet(s: seq<Handler>)
    requires forall i, j | 0 <= i < j < |s| :: s[i] != s[j]
    ensures |set h | h in s| == |s|
  {
    if s == [] {
    } else {
      var t := s[..|s| - 1];
      SeqSet(t);
      assert (set h | h in s) == (set h | h in t) + {s[|s| - 1]};
    }
  }

  /** Handlers nest no deeper than the signals plus the I/O handler: every method keeps each from running twice. */
  lemma NestingBounded(d: Dispatcher)
    requires d.Valid()
    ensures |d.active| <= d.nsig + 1
  {
    Distinct(d.active, d.nsig);
  }
}
