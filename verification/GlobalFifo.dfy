/**
 globalfifo.c: a blocking byte queue shared by any number of tasks, as a state machine whose steps are
 the stretches of driver code between two points where another task can run.
 */
module GlobalFifo {
  import opened Basics

  const SIZE: nat := 0x1000

  function Zeros(): (r: seq<Byte>)
    ensures |r| == SIZE
  {
    seq(SIZE, _ => 0)
  }

  /** What a task has called the driver for; Clear is the FIFO_CLEAR ioctl. */
  datatype Job = Read(count: nat) | Write(data: seq<Byte>) | Clear

  /** Where a task is in globalfifo_read, globalfifo_write or globalfifo_ioctl. */
  datatype Pc = Outside | Wanting | Checking | Parking | Parked | Waking | Unlocking | Leaving

  /** `queued`: on its wait queue; `sleeping`: TASK_INTERRUPTIBLE; `signalled`: a signal is pending. */
  datatype Task = Task(job: Job, nonblock: bool, pc: Pc, queued: bool, sleeping: bool, signalled: bool)

  type Tid = nat

  /**
   The device, its mutex and every task calling it.  `written` and `taken` are all the bytes written and read since
   the last clear; `stale` is set by a clear and reset by the next reader that wakes the writers.
   */
  datatype World = World(tasks: map<Tid, Task>, holder: Option<Tid>, mem: seq<Byte>, len: nat,
                         written: seq<Byte>, taken: seq<Byte>, stale: bool)

  /** A task enters the driver, moves on (`fault`: the copy to or from user space fails), or gets a signal. */
  datatype Action = Begin(t: Tid, job: Job, nonblock: bool) | Advance(t: Tid, fault: bool) | Signal(t: Tid)

  predicate Holding(pc: Pc) {
    pc.Checking? || pc.Parking? || pc.Waking? || pc.Unlocking?
  }

  predicate Blocked(job: Job, len: nat) {
    (job.Read? && len == 0) || (job.Write? && len == SIZE)
  }

  function Min(a: nat, b: nat): nat { if a < b then a else b }

  /** The move in globalfifo_read. */
  function Taken(w: World, count: nat): World
    requires w.len <= |w.mem|
  {
    var n := Min(count, w.len);
    w.(mem := w.mem[n..w.len] + w.mem[w.len - n..], len := w.len - n, taken := w.taken + w.mem[..n])
  }

  /** The copy in globalfifo_write. */
  function Added(w: World, data: seq<Byte>): World
    requires w.len <= SIZE == |w.mem|
  {
    var n := Min(|data|, SIZE - w.len);
    w.(mem := w.mem[..w.len] + data[..n] + w.mem[w.len + n..], len := w.len + n, written := w.written + data[..n])
  }

  /** wake_up_interruptible on the queue of the other side. */
  function Woken(tasks: map<Tid, Task>, job: Job): map<Tid, Task> {
    map t | t in tasks ::
      var k := tasks[t];
      if k.queued && ((job.Read? && k.job.Write?) || (job.Write? && k.job.Read?)) then k.(sleeping := false) else k
  }

  function With(w: World, t: Tid, k: Task): World {
    w.(tasks := w.tasks[t := k])
  }

  /** The work a task does between taking the mutex and its next chance to be interrupted. */
  function Checked(w: World, t: Tid, k: Task, fault: bool): World
    requires w.len <= SIZE == |w.mem|
  {
    if k.job.Clear? then
      With(w, t, k.(pc := Unlocking)).(mem := Zeros(), len := 0, written := [], taken := [], stale := true)
    else if Blocked(k.job, w.len) then
      With(w, t, if k.nonblock then k.(pc := Unlocking) else k.(sleeping := true, pc := Parking))
    else if fault then With(w, t, k.(pc := Unlocking))
    else if k.job.Read? then Taken(With(w, t, k.(pc := Waking)), k.job.count)
    else Added(With(w, t, k.(pc := Waking)), k.job.data)
  }

  /** One step of one task; None when it cannot move. */
  function Moved(w: World, t: Tid, fault: bool): Option<World>
    requires w.len <= SIZE == |w.mem|
  {
    if t !in w.tasks then None else
    var k := w.tasks[t];
    match k.pc
    case Outside => None
    case Wanting =>
      if w.holder.Some? then None
      else Some(With(w, t, k.(pc := Checking, queued := !k.job.Clear?)).(holder := Some(t)))
    case Checking => Some(Checked(w, t, k, fault))
    case Parking => Some(With(w, t, k.(pc := Parked)).(holder := None))
    case Parked =>
      if k.sleeping && !k.signalled then None
      else Some(With(w, t, k.(sleeping := false, pc := if k.signalled then Leaving else Wanting)))
    case Waking =>
      Some(w.(tasks := Woken(w.tasks, k.job)[t := k.(pc := Unlocking)], stale := w.stale && !k.job.Read?))
    case Unlocking => Some(With(w, t, k.(pc := Leaving)).(holder := None))
    case Leaving => Some(With(w, t, k.(pc := Outside, queued := false, sleeping := false, signalled := false)))
  }

  function Step(w: World, a: Action): World
    requires w.len <= SIZE == |w.mem|
  {
    match a
    case Begin(t, job, nonblock) =>
      if t in w.tasks && !w.tasks[t].pc.Outside? then w
      else With(w, t, Task(job, nonblock, Wanting, false, false, false))
    case Advance(t, fault) => var m := Moved(w, t, fault); if m.Some? then m.value else w
    case Signal(t) => if t in w.tasks then With(w, t, w.tasks[t].(signalled := true)) else w
  }

  // ---------------------------------------------------------------- what a step does, in the caller's terms

  /** The buffer and its history are as before. */
  predicate SameData(w: World, m: World) {
    m.mem == w.mem && m.len == w.len && m.written == w.written && m.taken == w.taken
  }

  /** Everything but task t's own place is as before. */
  predicate SameOthers(w: World, m: World, t: Tid) {
    m.holder == w.holder && m.tasks.Keys == w.tasks.Keys && forall u | u in w.tasks && u != t :: m.tasks[u] == w.tasks[u]
  }

  /** The task is where this step of the driver has brought it. */
  predicate Reached(w: World, m: World, t: Tid, pc: Pc, sleeping: bool)
    requires t in w.tasks
  {
    t in m.tasks && m.tasks[t] == w.tasks[t].(pc := pc, sleeping := sleeping)
  }

  /**
   The critical section of a read: with data there and no fault it takes as much as was asked for, or all
   there is, from the front; else it takes nothing, and goes to sleep only before an empty buffer.
   */
  lemma ReadTakes(w: World, t: Tid, fault: bool)
    requires w.len <= SIZE == |w.mem| && t in w.tasks && w.tasks[t].pc.Checking? && w.tasks[t].job.Read?
    ensures var m, k := Step(w, Advance(t, fault)), w.tasks[t];
            && SameOthers(w, m, t) && m.stale == w.stale
            && (if w.len > 0 && !fault then
                  var n := if k.job.count <= w.len then k.job.count else w.len;
                  && m.taken == w.taken + w.mem[..n] && m.len == w.len - n && m.mem[..m.len] == w.mem[n..w.len]
                  && m.written == w.written && Reached(w, m, t, Waking, k.sleeping)
                else
                  && SameData(w, m)
                  && if w.len > 0 || k.nonblock then Reached(w, m, t, Unlocking, k.sleeping)
                     else Reached(w, m, t, Parking, true))
  {
    hide Taken;
    var k := w.tasks[t];
    if w.len > 0 && !fault {
      FrontTaken(With(w, t, k.(pc := Waking)), k.job.count);
    }
  }

  lemma FrontTaken(w: World, count: nat)
    requires w.len <= SIZE == |w.mem|
    ensures var m, n := Taken(w, count), if count <= w.len then count else w.len;
            && m == w.(mem := m.mem, len := w.len - n, taken := w.taken + w.mem[..n])
            && |m.mem| == SIZE && m.mem[..m.len] == w.mem[n..w.len]
  {
    var n := Min(count, w.len);
    assert (w.mem[n..w.len] + w.mem[w.len - n..])[..w.len - n] == w.mem[n..w.len];
  }

  /** The same for a write: all of the data if there is room, else its beginning. */
  lemma WriteAdds(w: World, t: Tid, fault: bool)
    requires w.len <= SIZE == |w.mem| && t in w.tasks && w.tasks[t].pc.Checking? && w.tasks[t].job.Write?
    ensures var m, k := Step(w, Advance(t, fault)), w.tasks[t];
            && SameOthers(w, m, t) && m.stale == w.stale
            && (if w.len < 0x1000 && !fault then
                  var data := if w.len + |k.job.data| <= 0x1000 then k.job.data else k.job.data[..0x1000 - w.len];
                  && m.written == w.written + data && m.len == w.len + |data| && m.mem[..m.len] == w.mem[..w.len] + data
                  && m.taken == w.taken && Reached(w, m, t, Waking, k.sleeping)
                else
                  && SameData(w, m)
                  && if w.len < 0x1000 || k.nonblock then Reached(w, m, t, Unlocking, k.sleeping)
                     else Reached(w, m, t, Parking, true))
  {
    var k := w.tasks[t];
    if w.len < SIZE && !fault {
      var n := if w.len + |k.job.data| <= SIZE then |k.job.data| else SIZE - w.len;
      var m := Step(w, Advance(t, fault));
      assert m.mem[..m.len] == w.mem[..w.len] + k.job.data[..n];
    }
  }

  /** A clear empties the buffer, and nothing else. */
  lemma ClearEmpties(w: World, t: Tid, fault: bool)
    requires w.len <= SIZE == |w.mem| && t in w.tasks && w.tasks[t].pc.Checking? && w.tasks[t].job.Clear?
    ensures var m := Step(w, Advance(t, fault));
            && SameOthers(w, m, t) && m.len == 0 && Reached(w, m, t, Unlocking, w.tasks[t].sleeping)
            && forall i | 0 <= i < |m.mem| :: m.mem[i] == 0
  {
  }

  /** No other step touches the data. */
  lemma OnlyCheckingMovesData(w: World, a: Action)
    requires w.len <= SIZE == |w.mem|
    requires a.Advance? && a.t in w.tasks ==> !w.tasks[a.t].pc.Checking?
    ensures SameData(w, Step(w, a))
  {
  }

  /** After a read every sleeper on the writers' queue is awake, after a write every one on the readers'; no one else is. */
  lemma WakesTheOthers(w: World, t: Tid, fault: bool)
    requires w.len <= SIZE == |w.mem| && t in w.tasks && w.tasks[t].pc.Waking?
    ensures var m, k := Step(w, Advance(t, fault)), w.tasks[t];
            && m.holder == w.holder && m.tasks.Keys == w.tasks.Keys && Reached(w, m, t, Unlocking, k.sleeping)
            && forall u | u in w.tasks && u != t ::
                 var j := w.tasks[u];
                 var woken := j.queued && ((k.job.Read? && j.job.Write?) || (k.job.Write? && j.job.Read?));
                 m.tasks[u] == if woken then j.(sleeping := false) else j
  {
  }

  /** A task that is woken goes back for the mutex; only a signal makes it give up. */
  lemma WokenTriesAgain(w: World, t: Tid, fault: bool)
    requires w.len <= SIZE == |w.mem| && t in w.tasks && w.tasks[t].pc.Parked?
    requires !w.tasks[t].sleeping || w.tasks[t].signalled
    ensures var m, k := Step(w, Advance(t, fault)), w.tasks[t];
            SameOthers(w, m, t) && SameData(w, m) && Reached(w, m, t, if k.signalled then Leaving else Wanting, false)
  {
  }

  /** A task in the driver is stuck exactly while it waits for the mutex, or sleeps and no signal is pending. */
  lemma StuckExactly(w: World, t: Tid, fault: bool)
    requires w.len <= SIZE == |w.mem| && t in w.tasks && !w.tasks[t].pc.Outside?
    ensures var k := w.tasks[t];
            Moved(w, t, fault).None? <==> (k.pc.Wanting? && w.holder.Some?) || (k.pc.Parked? && k.sleeping && !k.signalled)
  {
  }

  // ---------------------------------------------------------------- the invariant

  /** A task that nothing but a wake-up or a signal will move. */
  predicate Asleep(k: Task) {
    k.pc.Parked? && k.sleeping && !k.signalled
  }

  /** The mutex holder is about to wake the queue of tasks with the other job. */
  predicate AboutToWake(w: World, read: bool) {
    w.holder.Some? && w.holder.value in w.tasks && w.tasks[w.holder.value].pc.Waking?
    && (if read then w.tasks[w.holder.value].job.Write? else w.tasks[w.holder.value].job.Read?)
  }

  predicate TaskOk(w: World, t: Tid)
    requires t in w.tasks
  {
    var k := w.tasks[t];
    && (Holding(k.pc) <==> w.holder == Some(t))
    && (k.pc.Parking? ==> Blocked(k.job, w.len))
    && (k.pc.Waking? ==> !k.job.Clear?)
    && (k.pc.Parking? || k.pc.Parked? ==> !k.job.Clear?)
    && ((Holding(k.pc) || k.pc.Parked?) && !k.job.Clear? ==> k.queued)
    && (k.sleeping ==> k.pc.Parking? || k.pc.Parked?)
    && (k.pc.Parked? && k.sleeping && k.job.Read? ==> w.len == 0 || AboutToWake(w, true))
    && (k.pc.Parked? && k.sleeping && k.job.Write? ==> w.len == SIZE || w.stale || AboutToWake(w, false))
  }

  ghost predicate Inv(w: World) {
    && w.len <= SIZE == |w.mem|
    && w.written == w.taken + w.mem[..w.len]
    && (w.holder.Some? ==> w.holder.value in w.tasks)
    && (forall t | t in w.tasks :: TaskOk(w, t))
  }

  lemma TakenKeeps(w: World, count: nat)
    requires w.len <= SIZE == |w.mem| && w.written == w.taken + w.mem[..w.len]
    ensures var m := Taken(w, count);
            m.len <= SIZE == |m.mem| && m.written == m.taken + m.mem[..m.len]
  {
    var n := Min(count, w.len);
    assert w.mem[..w.len] == w.mem[..n] + w.mem[n..w.len];
  }

  lemma AddedKeeps(w: World, data: seq<Byte>)
    requires w.len <= SIZE == |w.mem| && w.written == w.taken + w.mem[..w.len]
    ensures var m := Added(w, data);
            m.len <= SIZE == |m.mem| && m.written == m.taken + m.mem[..m.len]
  {
    var n := Min(|data|, SIZE - w.len);
    var m := Added(w, data);
    assert m.mem[..m.len] == w.mem[..w.len] + data[..n];
  }

  /** A step of one task that leaves the buffer, the mutex and the stale mark alone. */
  lemma QuietKeeps(w: World, t: Tid, k: Task)
    requires Inv(w) && TaskOk(With(w, t, k), t)
    requires t in w.tasks ==> !w.tasks[t].pc.Waking?
    requires w.holder != Some(t)
    ensures Inv(With(w, t, k))
  {
    var m := With(w, t, k);
    forall u | u in m.tasks ensures TaskOk(m, u) {
      assert u in w.tasks ==> TaskOk(w, u);
    }
  }

  /** Taking and giving back the mutex. */
  lemma LockKeeps(w: World, t: Tid, k: Task, holder: Option<Tid>)
    requires Inv(w) && t in w.tasks && TaskOk(With(w, t, k).(holder := holder), t)
    requires !w.tasks[t].pc.Waking?
    requires if holder.Some? then holder.value == t && w.holder.None? else w.holder == Some(t)
    ensures Inv(With(w, t, k).(holder := holder))
  {
    var m := With(w, t, k).(holder := holder);
    forall u | u in m.tasks ensures TaskOk(m, u) {
      assert TaskOk(w, u);
    }
  }

  lemma WakingKeeps(w: World, t: Tid)
    requires Inv(w) && t in w.tasks && w.tasks[t].pc.Waking?
    ensures Inv(Moved(w, t, false).value)
  {
    var m := Moved(w, t, false).value;
    forall u | u in m.tasks ensures TaskOk(m, u) {
      assert TaskOk(w, u) && TaskOk(w, t);
    }
  }

  /** The critical section: only the one inside it moves, and whoever it ought to wake it is about to wake. */
  lemma CheckingKeeps(w: World, t: Tid, fault: bool)
    requires Inv(w) && t in w.tasks && w.tasks[t].pc.Checking?
    ensures Inv(Moved(w, t, fault).value)
  {
    hide Taken, Added;
    var m, k := Moved(w, t, fault).value, w.tasks[t];
    assert TaskOk(w, t);
    CheckedBuffer(w, t, k, fault);
    forall u | u in m.tasks ensures TaskOk(m, u) {
      assert TaskOk(w, u);
    }
  }

  lemma CheckedBuffer(w: World, t: Tid, k: Task, fault: bool)
    requires w.len <= SIZE == |w.mem| && w.written == w.taken + w.mem[..w.len]
    ensures var m := Checked(w, t, k, fault);
            && m.len <= SIZE == |m.mem| && m.written == m.taken + m.mem[..m.len]
            && (var inside := if t in m.tasks then m.tasks[t] else k;
                && m == w.(tasks := w.tasks[t := inside], mem := m.mem, len := m.len, written := m.written,
                           taken := m.taken, stale := w.stale || k.job.Clear?)
                && inside == k.(pc := inside.pc, sleeping := inside.sleeping)
                && (if k.job.Clear? then inside.pc.Unlocking? && m.len == 0
                    else if Blocked(k.job, w.len) then m.len == w.len && (inside.pc.Unlocking? || inside.pc.Parking?)
                    else inside.pc.Waking? || (inside.pc.Unlocking? && m.len == w.len))
                && (inside.sleeping ==> k.sleeping || inside.pc.Parking?))
  {
    if !k.job.Clear? && !Blocked(k.job, w.len) && !fault {
      var n := With(w, t, k.(pc := Waking));
      if k.job.Read? {
        TakenKeeps(n, k.job.count);
      } else {
        AddedKeeps(n, k.job.data);
      }
    }
  }

  lemma StepKeeps(w: World, a: Action)
    requires Inv(w)
    ensures Inv(Step(w, a))
  {
    hide Taken, Added, Inv, Checked, Woken;
    InvFacts(w, a.t);
    match a
    case Begin(t, job, nonblock) =>
      if !(t in w.tasks && !w.tasks[t].pc.Outside?) {
        QuietKeeps(w, t, Task(job, nonblock, Wanting, false, false, false));
      }
    case Signal(t) =>
      if t in w.tasks {
        SignalKeeps(w, t);
      }
    case Advance(t, fault) =>
      if t in w.tasks && Moved(w, t, fault).Some? {
        var k := w.tasks[t];
        match k.pc
        case Wanting => LockKeeps(w, t, k.(pc := Checking, queued := !k.job.Clear?), Some(t));
        case Checking => CheckingKeeps(w, t, fault);
        case Parking => LockKeeps(w, t, k.(pc := Parked), None);
        case Parked => QuietKeeps(w, t, k.(sleeping := false, pc := if k.signalled then Leaving else Wanting));
        case Waking => WakingKeeps(w, t);
        case Unlocking => LockKeeps(w, t, k.(pc := Leaving), None);
        case Leaving => QuietKeeps(w, t, k.(pc := Outside, queued := false, sleeping := false, signalled := false));
      }
  }

  lemma SignalKeeps(w: World, t: Tid)
    requires Inv(w) && t in w.tasks
    ensures Inv(With(w, t, w.tasks[t].(signalled := true)))
  {
    var m := With(w, t, w.tasks[t].(signalled := true));
    forall u | u in m.tasks ensures TaskOk(m, u) {
      assert TaskOk(w, u);
    }
  }

  lemma InvFacts(w: World, t: Tid)
    requires Inv(w)
    ensures w.len <= SIZE == |w.mem| && (t in w.tasks ==> TaskOk(w, t))
    ensures t !in w.tasks ==> w.holder != Some(t)
  {
  }

  // ---------------------------------------------------------------- every run

  function Start(): World {
    World(map[], None, Zeros(), 0, [], [], false)
  }

  function Run(actions: seq<Action>): (w: World)
    ensures Inv(w)
  {
    if actions == [] then Start() else
    var w := Run(actions[..|actions| - 1]);
    StepKeeps(w, actions[|actions| - 1]);
    Step(w, actions[|actions| - 1])
  }

  /**
   In every interleaving of any number of readers, writers, clears and signals: what has been read since
   the last clear, followed by what is in the buffer, is what has been written, in order; the buffer never
   overflows; at most one task is inside; and whenever the mutex is free no reader is asleep while there
   is data, and no writer while there is room unless a clear made that room and no read has followed it.
   */
  lemma EveryRun(actions: seq<Action>)
    ensures var w := Run(actions);
            && w.written == w.taken + w.mem[..w.len] && w.len <= 0x1000
            && (forall t, u | t in w.tasks && u in w.tasks && Holding(w.tasks[t].pc) && Holding(w.tasks[u].pc) :: t == u)
            && (w.holder.None? && w.len > 0 ==> forall t | t in w.tasks :: !(Asleep(w.tasks[t]) && w.tasks[t].job.Read?))
            && (w.holder.None? && w.len < 0x1000 && !w.stale ==>
                  forall t | t in w.tasks :: !(Asleep(w.tasks[t]) && w.tasks[t].job.Write?))
  {
    var w := Run(actions);
    forall t | t in w.tasks ensures TaskOk(w, t) {}
  }

  lemma RunMore(actions: seq<Action>, a: Action)
    ensures Run(actions + [a]) == Step(Run(actions), a)
  {
    assert (actions + [a])[..|actions|] == actions;
  }

  /** A run continued by task t going on alone. */
  lemma OneMore(actions: seq<Action>, t: Tid) returns (more: seq<Action>)
    ensures Run(more) == Step(Run(actions), Advance(t, false))
  {
    more := actions + [Advance(t, false)];
    RunMore(actions, Advance(t, false));
  }

  lemma Entered(actions: seq<Action>, t: Tid, job: Job) returns (more: seq<Action>)
    requires t !in Run(actions).tasks
    ensures Run(more) == With(Run(actions), t, Task(job, false, Wanting, false, false, false))
  {
    more := actions + [Begin(t, job, false)];
    RunMore(actions, Begin(t, job, false));
  }

  predicate IsClear(a: Action) {
    a.Begin? && a.job.Clear?
  }

  /** Only a clear makes the writers' guarantee conditional. */
  lemma {:induction false} NeverStale(actions: seq<Action>)
    requires forall a | a in actions :: !IsClear(a)
    ensures !Run(actions).stale
    ensures forall t | t in Run(actions).tasks :: !Run(actions).tasks[t].job.Clear?
  {
    if actions == [] {
    } else {
      var before, a := actions[..|actions| - 1], actions[|actions| - 1];
      NeverStale(before);
      assert a in actions;
      StaysFresh(Run(before), a);
    }
  }

  lemma StaysFresh(w: World, a: Action)
    requires Inv(w) && !w.stale && !IsClear(a)
    requires forall t | t in w.tasks :: !w.tasks[t].job.Clear?
    ensures var m := Step(w, a); !m.stale && forall t | t in m.tasks :: !m.tasks[t].job.Clear?
  {
    hide Taken, Added, Checked, Inv;
    InvFacts(w, a.t);
    if a.Advance? && a.t in w.tasks && w.tasks[a.t].pc.Checking? {
      CheckedJobs(w, a.t, w.tasks[a.t], a.fault);
    }
  }

  lemma CheckedJobs(w: World, t: Tid, k: Task, fault: bool)
    requires w.len <= SIZE == |w.mem| && t in w.tasks && w.tasks[t] == k && !k.job.Clear?
    ensures var m := Checked(w, t, k, fault); m.stale == w.stale && m.tasks.Keys == w.tasks.Keys
    ensures forall u | u in w.tasks :: Checked(w, t, k, fault).tasks[u].job == w.tasks[u].job
  {
  }

  /** In a run without clears no task ever sleeps on what it is waiting for, writers included. */
  lemma NoClearNoLostTask(actions: seq<Action>)
    requires forall a | a in actions :: !IsClear(a)
    ensures var w := Run(actions);
            w.holder.None? ==> forall t | t in w.tasks && Asleep(w.tasks[t]) :: Blocked(w.tasks[t].job, w.len)
  {
    hide Run;
    NeverStale(actions);
    var w := Run(actions);
    assert Inv(w);
    forall t | t in w.tasks && Asleep(w.tasks[t]) && w.holder.None? ensures Blocked(w.tasks[t].job, w.len) {
      assert TaskOk(w, t);
    }
  }

  /** FIFO_CLEAR by a task that is not in the driver, start to end, while nobody else moves. */
  function Cleared(w: World, c: Tid): (v: World)
    requires Inv(w) && w.holder.None? && (c in w.tasks ==> w.tasks[c].pc.Outside?)
    ensures Inv(v)
  {
    hide Inv;
    StepKeeps(w, Begin(c, Clear, false));
    InvFacts(w, c);
    var w1 := Step(w, Begin(c, Clear, false));
    StepKeeps(w1, Advance(c, false));
    InvFacts(w1, c);
    var w2 := Step(w1, Advance(c, false));
    StepKeeps(w2, Advance(c, false));
    InvFacts(w2, c);
    var w3 := Step(w2, Advance(c, false));
    StepKeeps(w3, Advance(c, false));
    InvFacts(w3, c);
    var w4 := Step(w3, Advance(c, false));
    StepKeeps(w4, Advance(c, false));
    InvFacts(w4, c);
    Step(w4, Advance(c, false))
  }

  /**
   FIFO_CLEAR wakes nobody.  From every state: the buffer is empty and the mutex free afterwards, and
   the writers asleep then, in front of an empty buffer, are exactly those asleep before.
   */
  lemma ClearLosesWriters(w: World, c: Tid)
    requires Inv(w) && w.holder.None? && (c in w.tasks ==> w.tasks[c].pc.Outside?)
    ensures var v := Cleared(w, c);
            && v.holder.None? && v.len == 0 && c in v.tasks && v.tasks[c].pc.Outside?
            && (forall t :: t in v.tasks && Asleep(v.tasks[t]) && v.tasks[t].job.Write? <==>
                            t in w.tasks && Asleep(w.tasks[t]) && w.tasks[t].job.Write?)
  {
  }

  /** The loss is real: a run after which the buffer is empty, the mutex free and a writer asleep. */
  lemma LostWriter() returns (actions: seq<Action>)
    ensures var w := Run(actions);
            && w.holder.None? && w.len == 0
            && 1 in w.tasks && Asleep(w.tasks[1]) && w.tasks[1].job.Write?
  {
    hide Run, Taken, Added, Woken, Zeros;
    actions := WriterAsleep();
    actions := Entered(actions, 2, Clear);
    actions := OneMore(actions, 2);
    actions := OneMore(actions, 2);
    actions := OneMore(actions, 2);
  }

  lemma WriterAsleep() returns (actions: seq<Action>)
    ensures var w := Run(actions);
            && w.holder.None? && 2 !in w.tasks
            && 1 in w.tasks && Asleep(w.tasks[1]) && w.tasks[1].job.Write?
  {
    hide Run, Taken, Added, Woken, Zeros;
    actions := WriterBlocked();
    actions := OneMore(actions, 1);
    actions := OneMore(actions, 1);
  }

  lemma WriterBlocked() returns (actions: seq<Action>)
    ensures var w := Run(actions);
            && w.len == SIZE && w.holder == Some(1) && 2 !in w.tasks
            && 1 in w.tasks && w.tasks[1] == Task(Write([0]), false, Checking, true, false, false)
  {
    hide Run, Taken, Added, Woken, Zeros;
    actions := Filled();
    actions := Entered(actions, 1, Write([0]));
    actions := OneMore(actions, 1);
  }

  lemma Filled() returns (actions: seq<Action>)
    ensures var w := Run(actions); w.holder.None? && w.len == SIZE && 1 !in w.tasks && 2 !in w.tasks
  {
    hide Run, Taken, Added, Zeros;
    actions := Filling();
    actions := OneMore(actions, 0);
    actions := OneMore(actions, 0);
  }

  lemma Filling() returns (actions: seq<Action>)
    ensures var w := Run(actions);
            && w.holder == Some(0) && w.len == SIZE && w.tasks.Keys == {0} && w.tasks[0].pc.Waking? && w.tasks[0].job.Write?
  {
    actions := [];
    assert Run(actions) == Start();
    hide Run, Taken, Woken, Zeros;
    actions := Entered(actions, 0, Write(Zeros()));
    actions := OneMore(actions, 0);
    actions := OneMore(actions, 0);
  }
}
