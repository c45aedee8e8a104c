/**
 The privileged-parent protocol (twoprocess.c, postprivparent.c, privsock.c) as a state machine of
 two processes and a stream socket, and why its calls return what the direct calls of oneprocess.c return, with
 the same state and deaths.  (A parent that dies takes the child with it, and both may then write their last
 words to the client; one process writes them once.)
 */
module PrivChannel {
  import opened Basics
  import opened Privops

  // ---------------------------------------------------------------- the calls

  /** What the unprivileged side asks for. */
  datatype Call = GetDataSock(target: Endpoint) | PasvCleanup | PasvActive | PasvListen | PasvAccept | ChownUpload(fd: File)

  /** A call, and what the system will answer while it is carried out. */
  datatype Job = Job(call: Call, answers: Answers)

  /** The one-process model: the privileged operation is called directly. */
  function Direct(p: Priv, site: Site, j: Job): Result {
    match j.call
    case GetDataSock(target) => PortSock(p, target, j.answers)
    case PasvCleanup => Done(p.(listen := None), Unit)
    case PasvActive => Done(p, Number(if p.listen.Some? then 1 else 0))
    case PasvListen => Listen(p, site, j.answers)
    case PasvAccept => Accept(p, site, j.answers)
    case ChownUpload(fd) => Chown(p, site, fd, j.answers)
  }

  /** The parent is told only the port: it connects to the peer of the control connection. */
  function AtParent(c: Call, site: Site): Call {
    if c.GetDataSock? then GetDataSock(Endpoint(site.remote, c.target.port)) else c
  }

  // ---------------------------------------------------------------- the wire

  /** One byte on the stream; send_fd attaches a descriptor to its byte. */
  datatype Item = Octet(b: Byte) | Passed(fd: File)

  type Int32 = n: int | -0x8000_0000 <= n < 0x8000_0000

  function IntItems(n: Int32): (r: seq<Item>)
    ensures |r| == 4 && forall i | 0 <= i < 4 :: r[i].Octet?
  {
    var u: int := if n < 0 then n + 0x1_0000_0000 else n;
    var u1 := u / 0x100;
    var u2 := u1 / 0x100;
    [Octet(u % 0x100), Octet(u1 % 0x100), Octet(u2 % 0x100), Octet(u2 / 0x100)]
  }

  function ReadInt(s: seq<Item>): Option<int>
    requires |s| == 4
  {
    if !(s[0].Octet? && s[1].Octet? && s[2].Octet? && s[3].Octet?) then None else
    var u := s[0].b + 0x100 * (s[1].b + 0x100 * (s[2].b + 0x100 * s[3].b));
    Some(if u >= 0x8000_0000 then u - 0x1_0000_0000 else u)
  }

  lemma IntRoundTrip(n: Int32)
    ensures ReadInt(IntItems(n)) == Some(n)
  {
  }

  const CHOWN: Byte := 2
  const GET_DATA_SOCK: Byte := 3
  const PASV_CLEANUP: Byte := 10
  const PASV_ACTIVE: Byte := 11
  const PASV_LISTEN: Byte := 12
  const PASV_ACCEPT: Byte := 13
  const RESULT_OK: Byte := 1
  const RESULT_BAD: Byte := 2

  function Request(c: Call): (r: seq<Item>)
    ensures 1 <= |r| <= 5
  {
    match c
    case GetDataSock(target) => [Octet(GET_DATA_SOCK)] + IntItems(target.port)
    case PasvCleanup => [Octet(PASV_CLEANUP)]
    case PasvActive => [Octet(PASV_ACTIVE)]
    case PasvListen => [Octet(PASV_LISTEN)]
    case PasvAccept => [Octet(PASV_ACCEPT)]
    case ChownUpload(fd) => [Octet(CHOWN), Passed(fd)]
  }

  /** What a reader makes of the items it has so far. */
  datatype Heard<T> = More | Got(value: T) | Broken

  /** The reads of process_post_login_req and its handlers. */
  function ReadRequest(s: seq<Item>, site: Site): Heard<Call> {
    if s == [] then More else
    if s[0].Passed? then Broken else
    if site.chownUploads && s[0].b == CHOWN then
      if |s| == 1 then More else if s[1].Passed? then Got(ChownUpload(s[1].fd)) else Broken
    else if s[0].b == GET_DATA_SOCK then
      if |s| < 5 then More else
      var n := ReadInt(s[1..5]);
      if n.None? then Broken else Got(GetDataSock(Endpoint(site.remote, n.value % 0x1_0000)))
    else if s[0].b == PASV_CLEANUP then Got(PasvCleanup)
    else if s[0].b == PASV_ACTIVE then Got(PasvActive)
    else if s[0].b == PASV_LISTEN then Got(PasvListen)
    else if s[0].b == PASV_ACCEPT then Got(PasvAccept)
    else Broken
  }

  /** The values an operation can come back with. */
  predicate Proper(c: Call, v: Value) {
    match c
    case GetDataSock(_) => v.Fd? || v == Error(-1)
    case PasvCleanup => v.Unit?
    case PasvActive => v.Number? && 0 <= v.n <= 1
    case PasvListen => v.Number? && 0 <= v.n < 0x1_0000
    case PasvAccept => v.Fd? || v == Error(-1) || v == Error(-2)
    case ChownUpload(_) => v.Unit?
  }

  function Reply(c: Call, v: Value): (r: seq<Item>)
    requires Proper(c, v)
    ensures 1 <= |r| <= 5
  {
    match c
    case GetDataSock(_) => if v.Fd? then [Octet(RESULT_OK), Passed(v.file)] else [Octet(RESULT_BAD)]
    case PasvActive => IntItems(v.n)
    case PasvListen => IntItems(v.n)
    case PasvAccept => if v.Fd? then [Octet(RESULT_OK), Passed(v.file)] else [Octet(RESULT_BAD)] + IntItems(v.code)
    case _ => [Octet(RESULT_OK)]
  }

  /** The reads of the vsf_two_process stubs. */
  function ReadReply(c: Call, s: seq<Item>): Heard<Value> {
    if s == [] then More else
    if s[0].Passed? then Broken else
    match c
    case GetDataSock(_) =>
      if s[0].b == RESULT_BAD then Got(Error(-1)) else
      if s[0].b != RESULT_OK then Broken else
      if |s| < 2 then More else if s[1].Passed? then Got(Fd(s[1].fd)) else Broken
    case PasvActive =>
      if |s| < 4 then More else if ReadInt(s[..4]).None? then Broken else Got(Number(ReadInt(s[..4]).value))
    case PasvListen =>
      if |s| < 4 then More else if ReadInt(s[..4]).None? then Broken else Got(Number(ReadInt(s[..4]).value % 0x1_0000))
    case PasvAccept =>
      if s[0].b == RESULT_BAD then
        if |s| < 5 then More else if ReadInt(s[1..5]).None? then Broken else Got(Error(ReadInt(s[1..5]).value))
      else if s[0].b != RESULT_OK then Broken
      else if |s| < 2 then More else if s[1].Passed? then Got(Fd(s[1].fd)) else Broken
    case _ => if s[0].b == RESULT_OK then Got(Unit) else Broken
  }

  /** A request is understood when its last item arrives, and not before. */
  lemma RequestTold(c: Call, site: Site, n: nat)
    requires n <= |Request(c)| && (c.ChownUpload? ==> site.chownUploads)
    ensures ReadRequest(Request(c)[..n], site) == if n < |Request(c)| then More else Got(AtParent(c, site))
  {
    hide IntItems, ReadInt;
    var s := Request(c)[..n];
    if c.GetDataSock? && n == 5 {
      IntRoundTrip(c.target.port);
      assert s[1..5] == IntItems(c.target.port);
    }
  }

  /** A reply is understood when its last item arrives, and not before. */
  lemma ReplyTold(c: Call, v: Value, n: nat)
    requires Proper(c, v) && n <= |Reply(c, v)|
    ensures ReadReply(c, Reply(c, v)[..n]) == if n < |Reply(c, v)| then More else Got(v)
  {
    hide IntItems, ReadInt;
    var s := Reply(c, v)[..n];
    if n == |Reply(c, v)| {
      assert s == Reply(c, v);
      if v.Number? {
        IntRoundTrip(v.n);
        assert s[..4] == s;
      } else if v.Error? && c.PasvAccept? {
        IntRoundTrip(v.code);
        assert s[1..5] == IntItems(v.code);
      }
    }
  }

  // ---------------------------------------------------------------- the two processes

  /** The unprivileged child: between calls, writing a request, reading the reply, or ended in die(). */
  datatype Child = Ready | Sending(rest: seq<Item>) | Waiting(got: seq<Item>) | Exited

  /** The privileged parent: reading a request, writing the reply, or ended in die(). */
  datatype Parent = Reading(got: seq<Item>) | Writing(rest: seq<Item>) | Gone

  /**
   Both processes, the items under way in each direction, the privileged state, the calls still to
   make and the values returned so far.  `answer` is the value of the call in progress once the
   parent has carried it out.
   */
  datatype Net = Net(child: Child, up: seq<Item>, down: seq<Item>, parent: Parent, priv: Priv,
                     jobs: seq<Job>, results: seq<Value>, answer: Option<Value>)

  /** One step of the child; None when it is blocked or finished. */
  function ChildStep(n: Net): Option<Net> {
    if n.jobs == [] then None else
    match n.child
    case Ready => Some(n.(child := Sending(Request(n.jobs[0].call))))
    case Sending(rest) =>
      if rest == [] || n.parent.Gone? then Some(n.(child := Exited)) else
      Some(n.(up := n.up + [rest[0]], child := if |rest| == 1 then Waiting([]) else Sending(rest[1..])))
    case Waiting(got) =>
      if n.down == [] then if n.parent.Gone? then Some(n.(child := Exited)) else None else
      var more := got + [n.down[0]];
      var m := n.(down := n.down[1..]);
      (match ReadReply(n.jobs[0].call, more)
       case More => Some(m.(child := Waiting(more)))
       case Got(v) => Some(m.(child := Ready, jobs := n.jobs[1..], results := n.results + [v], answer := None))
       case Broken => Some(m.(child := Exited)))
    case Exited => None
  }

  /** One step of the parent. */
  function ParentStep(n: Net, site: Site): Option<Net> {
    match n.parent
    case Reading(got) =>
      if n.up == [] || n.jobs == [] then if n.child.Exited? then Some(n.(parent := Gone)) else None else
      var more := got + [n.up[0]];
      var m := n.(up := n.up[1..]);
      (match ReadRequest(more, site)
       case More => Some(m.(parent := Reading(more)))
       case Got(call) => Some(Served(m, site, call))
       case Broken => Some(m.(parent := Gone)))
    case Writing(rest) =>
      if rest == [] then None else
      Some(n.(down := n.down + [rest[0]], parent := if |rest| == 1 then Reading([]) else Writing(rest[1..])))
    case Gone => None
  }

  /** The parent carries out a request. */
  function Served(n: Net, site: Site, call: Call): Net
    requires n.jobs != []
  {
    DirectProper(n.priv, site, Job(call, n.jobs[0].answers));
    match Direct(n.priv, site, Job(call, n.jobs[0].answers))
    case Dead => n.(parent := Gone)
    case Done(p, v) => n.(priv := p, parent := Writing(Reply(call, v)), answer := Some(v))
  }

  lemma DirectProper(p: Priv, site: Site, j: Job)
    ensures var r := Direct(p, site, j); r.Done? ==> Proper(j.call, r.value)
  {
    if j.call.PasvListen? && Direct(p, site, j).Done? {
      AttemptMeans(j.answers.tries, PasvRange(site.pasvMin, site.pasvMax), TRIES, Direct(p, site, j).value.n);
    }
  }

  /** Which process moves next. */
  datatype Turn = ChildTurn | ParentTurn

  function Step(n: Net, site: Site, t: Turn): Option<Net> {
    if t.ChildTurn? then ChildStep(n) else ParentStep(n, site)
  }

  function Run(n: Net, site: Site, schedule: seq<Turn>): Net
    decreases |schedule|
  {
    if schedule == [] then n else
    var m := Step(n, site, schedule[0]);
    Run(if m.Some? then m.value else n, site, schedule[1..])
  }

  function Start(p: Priv, jobs: seq<Job>): Net {
    Net(Ready, [], [], Reading([]), p, jobs, [], None)
  }

  // ---------------------------------------------------------------- the invariant

  /** How a session goes: the values returned, the privileged state left, and whether it ended in die(). */
  datatype Story = Story(results: seq<Value>, priv: Priv, died: bool)

  /** The same calls in the one-process model. */
  function OneProcess(p: Priv, site: Site, jobs: seq<Job>, done: seq<Value>): Story
    decreases |jobs|
  {
    if jobs == [] then Story(done, p, false) else
    match Direct(p, site, jobs[0])
    case Dead => Story(done, p, true)
    case Done(p', v) => OneProcess(p', site, jobs[1..], done + [v])
  }

  /** PORT targets are the peer's own address, as handle_port and handle_eprt leave them; chown only when configured. */
  predicate Legal(site: Site, j: Job) {
    (j.call.GetDataSock? ==> j.call.target.addr == site.remote) && (j.call.ChownUpload? ==> site.chownUploads)
  }

  predicate AllLegal(site: Site, jobs: seq<Job>) {
    jobs == [] || (Legal(site, jobs[0]) && AllLegal(site, jobs[1..]))
  }

  /** While a request is under way nothing is lost, duplicated or reordered. */
  predicate Asking(n: Net, unsent: seq<Item>)
    requires n.jobs != []
  {
    && n.down == [] && n.answer.None? && n.parent.Reading?
    && n.parent.got + n.up + unsent == Request(n.jobs[0].call)
    && n.up + unsent != []
  }

  /** The same for a reply. */
  predicate Answering(n: Net, got: seq<Item>)
    requires n.jobs != []
  {
    && n.up == [] && n.answer.Some? && Proper(n.jobs[0].call, n.answer.value)
    && (if n.parent.Writing? then n.parent.rest != [] else n.parent == Reading([]))
    && var rest := if n.parent.Writing? then n.parent.rest else [];
       got + n.down + rest == Reply(n.jobs[0].call, n.answer.value) && n.down + rest != []
  }

  predicate Quiet(n: Net) {
    n.up == [] && n.down == [] && n.answer.None?
  }

  predicate Inv(n: Net, site: Site) {
    && AllLegal(site, n.jobs)
    && match n.child
       case Ready => Quiet(n) && n.parent == Reading([])
       case Exited => Quiet(n) && n.parent.Gone?
       case Sending(rest) => n.jobs != [] && rest != [] && Asking(n, rest)
       case Waiting(got) =>
         n.jobs != [] && if n.parent.Gone? then Quiet(n) && got == []
                         else if n.answer.None? then Asking(n, []) && got == [] else Answering(n, got)
  }

  /** How the session will end, whatever happens next. */
  function Foretold(n: Net, site: Site): Story {
    if n.parent.Gone? then Story(n.results, n.priv, true) else
    if n.answer.Some? && n.jobs != [] then OneProcess(n.priv, site, n.jobs[1..], n.results + [n.answer.value])
    else OneProcess(n.priv, site, n.jobs, n.results)
  }

  lemma Regroup(a: seq<Item>, b: seq<Item>, c: seq<Item>)
    requires b != []
    ensures a + [b[0]] + b[1..] + c == a + b + c
    ensures a + [b[0]] == (a + b + c)[..|a| + 1]
  {
  }

  /** The reply's next item reaches the child. */
  lemma ChildHears(n: Net, got: seq<Item>, site: Site)
    requires Inv(n, site) && n.child == Waiting(got) && n.down != []
    ensures var m := ChildStep(n).value; Inv(m, site) && Foretold(m, site) == Foretold(n, site)
  {
    hide ReadReply, Reply, Request, Direct;
    var rest := if n.parent.Writing? then n.parent.rest else [];
    Regroup(got, n.down, rest);
    ReplyTold(n.jobs[0].call, n.answer.value, |got| + 1);
  }

  lemma ChildKeeps(n: Net, site: Site)
    requires Inv(n, site) && ChildStep(n).Some?
    ensures var m := ChildStep(n).value; Inv(m, site) && Foretold(m, site) == Foretold(n, site)
  {
    hide ReadReply, Reply, Request, Direct;
    if n.child.Waiting? && n.down != [] {
      ChildHears(n, n.child.got, site);
    } else if n.child.Sending? {
      var rest := n.child.rest;
      assert n.parent.got + (n.up + [rest[0]]) + rest[1..] == n.parent.got + n.up + rest;
    }
  }

  /** The request's next item reaches the parent. */
  lemma ParentHears(n: Net, got: seq<Item>, site: Site)
    requires Inv(n, site) && n.parent == Reading(got) && n.up != []
    ensures var m := ParentStep(n, site).value; Inv(m, site) && Foretold(m, site) == Foretold(n, site)
  {
    hide ReadRequest, Reply, Request, Direct;
    var unsent := if n.child.Sending? then n.child.rest else [];
    Regroup(got, n.up, unsent);
    RequestTold(n.jobs[0].call, site, |got| + 1);
    DirectProper(n.priv, site, n.jobs[0]);
  }

  lemma ParentKeeps(n: Net, site: Site)
    requires Inv(n, site) && ParentStep(n, site).Some?
    ensures var m := ParentStep(n, site).value; Inv(m, site) && Foretold(m, site) == Foretold(n, site)
  {
    hide ReadRequest, Reply, Request, Direct;
    if n.parent.Reading? && n.up != [] {
      ParentHears(n, n.parent.got, site);
    } else if n.parent.Writing? {
      var rest, got := n.parent.rest, n.child.got;
      assert got + (n.down + [rest[0]]) + rest[1..] == got + n.down + rest;
    }
  }

  // ---------------------------------------------------------------- every interleaving

  lemma StepKeeps(n: Net, site: Site, t: Turn)
    requires Inv(n, site) && Step(n, site, t).Some?
    ensures var m := Step(n, site, t).value; Inv(m, site) && Foretold(m, site) == Foretold(n, site)
  {
    if t.ChildTurn? {
      ChildKeeps(n, site);
    } else {
      ParentKeeps(n, site);
    }
  }

  /** How far the processes are from having nothing left to do. */
  function Left(n: Net): nat {
    100 * |n.jobs| + |n.up| + |n.down|
    + (match n.child
       case Ready => 60
       case Sending(rest) => 41 + 2 * |rest|
       case Waiting(_) => 40
       case Exited => 0)
    + match n.parent
      case Reading(_) => if n.answer.None? then 30 else 0
      case Writing(rest) => 1 + 2 * |rest|
      case Gone => 0
  }

  lemma StepsEnd(n: Net, site: Site, t: Turn)
    requires Inv(n, site) && Step(n, site, t).Some?
    ensures Left(Step(n, site, t).value) < Left(n)
  {
    if t.ChildTurn? {
      ChildStepsEnd(n, site);
    } else {
      ParentStepsEnd(n, site);
    }
  }

  lemma ChildStepsEnd(n: Net, site: Site)
    requires Inv(n, site) && ChildStep(n).Some?
    ensures Left(ChildStep(n).value) < Left(n)
  {
    hide ReadRequest, ReadReply, Direct, Reply, Request, Foretold, OneProcess;
    if n.child.Waiting? && n.down != [] {
      ChildHears(n, n.child.got, site);
    }
  }

  lemma ParentStepsEnd(n: Net, site: Site)
    requires Inv(n, site) && ParentStep(n, site).Some?
    ensures Left(ParentStep(n, site).value) < Left(n)
  {
    hide ReadRequest, ReadReply, Direct, Reply, Request, Foretold, OneProcess, AllLegal;
  }

  /** Neither process can move only when every call has returned or both have ended. */
  predicate Finished(n: Net) {
    (n.child.Ready? && n.jobs == []) || (n.child.Exited? && n.parent.Gone?)
  }

  lemma NoDeadlock(n: Net, site: Site)
    requires Inv(n, site)
    ensures Finished(n) <==> Step(n, site, ChildTurn).None? && Step(n, site, ParentTurn).None?
  {
    hide ReadRequest, ReadReply, Direct, Reply, Request;
  }

  /** Any schedule keeps the invariant and the story. */
  lemma {:induction false} RunKeeps(n: Net, site: Site, schedule: seq<Turn>)
    requires Inv(n, site)
    ensures Inv(Run(n, site, schedule), site) && Foretold(Run(n, site, schedule), site) == Foretold(n, site)
    decreases |schedule|
  {
    if schedule == [] {
    } else {
      var m := Step(n, site, schedule[0]);
      if m.Some? {
        StepKeeps(n, site, schedule[0]);
      }
      RunKeeps(if m.Some? then m.value else n, site, schedule[1..]);
    }
  }

  /** The steps of a schedule that found their process blocked. */
  function Blocked(n: Net, site: Site, schedule: seq<Turn>): nat
    decreases |schedule|
  {
    if schedule == [] then 0 else
    var m := Step(n, site, schedule[0]);
    if m.Some? then Blocked(m.value, site, schedule[1..]) else 1 + Blocked(n, site, schedule[1..])
  }

  /** No schedule can keep the processes busy for more than a fixed number of steps. */
  lemma {:induction false} RunEnds(n: Net, site: Site, schedule: seq<Turn>)
    requires Inv(n, site)
    ensures |schedule| <= Left(n) + Blocked(n, site, schedule)
    decreases |schedule|
  {
    if schedule == [] {
    } else {
      var m := Step(n, site, schedule[0]);
      if m.Some? {
        StepKeeps(n, site, schedule[0]);
        StepsEnd(n, site, schedule[0]);
      }
      RunEnds(if m.Some? then m.value else n, site, schedule[1..]);
    }
  }

  /**
   Refinement: under every interleaving of the two processes, whenever neither can move the calls
   have returned exactly what the one-process model returns, the listening state is the same, the
   session died exactly when the one-process model dies, and nothing is left in either direction.
   Between calls the channel is always empty.
   */
  lemma TwoProcessesAreOne(p: Priv, site: Site, jobs: seq<Job>, schedule: seq<Turn>)
    requires AllLegal(site, jobs)
    ensures var n := Run(Start(p, jobs), site, schedule);
            && (n.child.Ready? ==> n.up == [] && n.down == [])
            && (Finished(n) ==>
                  && n.up == [] && n.down == []
                  && Story(n.results, n.priv, n.child.Exited?) == OneProcess(p, site, jobs, []))
  {
    RunKeeps(Start(p, jobs), site, schedule);
  }

  // ---------------------------------------------------------------- what the calls answer

  /** The socket that listens after the first n calls: that of the last PasvListen, unless a PasvCleanup followed. */
  function Listening(jobs: seq<Job>, n: nat): Option<File>
    requires n <= |jobs|
  {
    if n == 0 then None else
    match jobs[n - 1].call
    case PasvListen => Some(jobs[n - 1].answers.sock)
    case PasvCleanup => None
    case _ => Listening(jobs, n - 1)
  }

  /** A port of the unreserved ones, drawn by the first try that did not find its own in use. */
  ghost predicate PortGot(site: Site, a: Answers, n: int) {
    var r := PasvRange(site.pasvMin, site.pasvMax);
    && 1024 <= r.lo <= n <= r.hi
    && exists i :: 0 <= i < 9 && i < |a.tries| && a.tries[i].outcome.Bound? && n == Scaled(r, a.tries[i].hi, a.tries[i].lo)
                   && forall j | 0 <= j < i :: a.tries[j].outcome.InUse?
  }

  /** What a call that returns is to answer, given whether a socket listens. */
  ghost predicate RightAnswer(site: Site, j: Job, listening: bool, v: Value) {
    var a := j.answers;
    match j.call
    case PasvActive => v == Number(if listening then 1 else 0)
    case PasvCleanup => v == Unit
    case PasvListen => v.Number? && PortGot(site, a, v.n)
    case PasvAccept =>
      if !listening || a.accepted.None? then v == Error(-1)
      else if site.pasvPromiscuous || AddrEqual(site.remote, a.accepted.value.1) then v == Fd(a.accepted.value.0)
      else v == Error(-2)
    case GetDataSock(target) => v == if a.connects(target) then Fd(a.sock) else Error(-1)
    case ChownUpload(_) => v == Unit
  }

  lemma DirectRight(p: Priv, site: Site, j: Job)
    ensures var r := Direct(p, site, j);
            r.Done? ==>
              && RightAnswer(site, j, p.listen.Some?, r.value)
              && r.priv.listen == match j.call
                                  case PasvListen => Some(j.answers.sock)
                                  case PasvCleanup => None
                                  case _ => p.listen
  {
    if j.call.PasvListen? && Direct(p, site, j).Done? {
      AttemptMeans(j.answers.tries, PasvRange(site.pasvMin, site.pasvMax), TRIES, Direct(p, site, j).value.n);
    }
  }

  ghost predicate AllRight(site: Site, jobs: seq<Job>, results: seq<Value>) {
    |results| <= |jobs| && forall i | 0 <= i < |results| :: RightAnswer(site, jobs[i], Listening(jobs, i).Some?, results[i])
  }

  lemma {:induction false} RightFrom(p: Priv, site: Site, jobs: seq<Job>, done: seq<Value>)
    requires AllRight(site, jobs, done) && |done| <= |jobs| && p.listen == Listening(jobs, |done|)
    ensures var s := OneProcess(p, site, jobs[|done|..], done);
            && AllRight(site, jobs, s.results) && done <= s.results
            && (if s.died then |s.results| < |jobs| else |s.results| == |jobs| && s.priv.listen == Listening(jobs, |jobs|))
    decreases |jobs| - |done|
  {
    hide Direct, RightAnswer, AllRight, Listening;
    var k := |done|;
    RightSoFar(site, jobs, done);
    if k < |jobs| {
      var j := jobs[k];
      assert jobs[k..][0] == j && jobs[k..][1..] == jobs[k + 1..];
      DirectRight(p, site, j);
      match Direct(p, site, j)
      case Dead =>
      case Done(q, v) =>
        RightOneMore(site, jobs, done, v);
        RightFrom(q, site, jobs, done + [v]);
    }
  }

  lemma RightSoFar(site: Site, jobs: seq<Job>, done: seq<Value>)
    requires AllRight(site, jobs, done)
    ensures |done| <= |jobs|
  {
  }

  lemma RightOneMore(site: Site, jobs: seq<Job>, done: seq<Value>, v: Value)
    requires AllRight(site, jobs, done) && |done| < |jobs|
    ensures RightAnswer(site, jobs[|done|], Listening(jobs, |done|).Some?, v) ==> AllRight(site, jobs, done + [v])
    ensures Listening(jobs, |done| + 1) == match jobs[|done|].call
                                           case PasvListen => Some(jobs[|done|].answers.sock)
                                           case PasvCleanup => None
                                           case _ => Listening(jobs, |done|)
  {
    hide RightAnswer;
  }

  /**
   Direct calls from the start: as many answers as calls unless one died, each the right one; so PasvActive
   answers 1 exactly after a PasvListen that no PasvCleanup has followed.
   */
  lemma CallsAnswerRight(site: Site, jobs: seq<Job>)
    ensures var s := OneProcess(Priv(None, []), site, jobs, []);
            && AllRight(site, jobs, s.results)
            && (if s.died then |s.results| < |jobs| else |s.results| == |jobs| && s.priv.listen == Listening(jobs, |jobs|))
  {
    assert jobs[0..] == jobs;
    RightFrom(Priv(None, []), site, jobs, []);
  }

  /** What has been returned so far is the beginning of what will have been. */
  lemma {:induction false} DoneStays(p: Priv, site: Site, jobs: seq<Job>, done: seq<Value>)
    ensures done <= OneProcess(p, site, jobs, done).results
    decreases |jobs|
  {
    hide Direct;
    if jobs == [] {
    } else {
      match Direct(p, site, jobs[0])
      case Dead =>
      case Done(q, v) => DoneStays(q, site, jobs[1..], done + [v]);
    }
  }

  /** The same with the parent, under every interleaving and at every moment of it. */
  lemma TwoProcessesAnswerRight(site: Site, jobs: seq<Job>, schedule: seq<Turn>)
    requires AllLegal(site, jobs)
    ensures AllRight(site, jobs, Run(Start(Priv(None, []), jobs), site, schedule).results)
  {
    hide OneProcess, Run, Inv, RightAnswer;
    var p := Priv(None, []);
    var n := Run(Start(p, jobs), site, schedule);
    StartHolds(p, site, jobs);
    RunKeeps(Start(p, jobs), site, schedule);
    CallsAnswerRight(site, jobs);
    ForetoldStays(n, site);
  }

  lemma StartHolds(p: Priv, site: Site, jobs: seq<Job>)
    requires AllLegal(site, jobs)
    ensures Inv(Start(p, jobs), site) && Foretold(Start(p, jobs), site) == OneProcess(p, site, jobs, [])
  {
  }

  lemma ForetoldStays(n: Net, site: Site)
    ensures n.results <= Foretold(n, site).results
  {
    hide OneProcess;
    if n.parent.Gone? {
    } else if n.answer.Some? && n.jobs != [] {
      DoneStays(n.priv, site, n.jobs[1..], n.results + [n.answer.value]);
    } else {
      DoneStays(n.priv, site, n.jobs, n.results);
    }
  }

  /** A PORT or EPRT that the server accepted, with port_promiscuous off, makes a legal call. */
  lemma AcceptedPortIsLegal(site: Site, host: Addr, port: Port, a: Answers)
    requires PortTarget(site.local, site.remote, host, port, false).Some?
    ensures Legal(site, Job(GetDataSock(PortTarget(site.local, site.remote, host, port, false).value), a))
            <==> SameLink(site.local, site.remote)
  {
    PortIsPeer(site.local, site.remote, host, port);
  }
}
