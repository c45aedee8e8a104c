/**
 The privileged calls a session makes, command by command, and why a session with the privileged parent
 goes as one in a single process: each call is one the parent can carry out as asked, and the parent dies
 exactly when the session is told to.
 */
module FtpJobs {
  import opened Basics
  import opened Privops
  import S = FtpSpec
  import C = PrivChannel

  function NoAnswers(): Answers {
    Answers(0, [], [], _ => false, None, 0, false)
  }

  function Plain(call: C.Call): C.Job {
    C.Job(call, NoAnswers())
  }

  /** !pasv_active() && !port_active(): port_active asks again when a PORT address is set. */
  function ActiveJobs(v: S.View): seq<C.Job> {
    [Plain(C.PasvActive)] + if v.priv.listen.None? && v.port.Some? then [Plain(C.PasvActive)] else []
  }

  /** The call that makes the data connection. */
  function ConnectJob(v: S.View, a: Answers): C.Job
    requires S.Active(v)
  {
    if v.priv.listen.Some? then C.Job(C.PasvAccept, a) else C.Job(C.GetDataSock(v.port.value), a)
  }

  /** get_remote_transfer_fd, and the cleanup at the end of every transfer command. */
  function TransferJobs(v: S.View, a: Answers): seq<C.Job>
    requires S.Active(v)
  {
    ActiveJobs(v) + [Plain(C.PasvActive), ConnectJob(v, a), Plain(C.PasvCleanup)]
  }

  function ChownJobs(cfg: S.Config, site: Site, c: S.Command): seq<C.Job> {
    if S.Chowns(cfg, site, c) then [C.Job(C.ChownUpload(c.fd), c.data.answers)] else []
  }

  /** All privileged calls of one command, up to the one that kills the session if there is one. */
  function Jobs(v: S.View, cfg: S.Config, site: Site, c: S.Command): seq<C.Job> {
    if !S.Enabled(v, cfg, c) then [] else
    if c.Pasv? || (c.Epsv? && c.arg.EpsvPlain?) then [Plain(C.PasvCleanup), C.Job(C.PasvListen, c.answers)] else
    if c.Port? || c.Eprt? then [Plain(C.PasvCleanup)] else
    if !S.Moves(c) then [] else
    ActiveJobs(v)
    + if S.Reaches(v, cfg, c) then ChownJobs(cfg, site, c) + TransferJobs(v, c.data.answers) else []
  }

  function SessionJobs(cfg: S.Config, site: Site, cmds: seq<S.Command>): seq<C.Job> {
    if cmds == [] then [] else
    var before := cmds[..|cmds| - 1];
    var s := S.Tell(cfg, site, before);
    SessionJobs(cfg, site, before) + if s.ended.Some? then [] else Jobs(s.view, cfg, site, cmds[|cmds| - 1])
  }

  // ---------------------------------------------------------------- every call is legal

  lemma {:induction false} LegalConcat(site: Site, a: seq<C.Job>, b: seq<C.Job>)
    ensures C.AllLegal(site, a + b) <==> C.AllLegal(site, a) && C.AllLegal(site, b)
  {
    if a == [] {
      assert a + b == b;
    } else {
      assert (a + b)[0] == a[0] && (a + b)[1..] == a[1..] + b;
      LegalConcat(site, a[1..], b);
    }
  }

  lemma ShortLegal(site: Site)
    ensures C.AllLegal(site, [])
    ensures forall j | C.Legal(site, j) :: C.AllLegal(site, [j])
    ensures forall j, k | C.Legal(site, j) && C.Legal(site, k) :: C.AllLegal(site, [j, k])
    ensures forall j, k, l | C.Legal(site, j) && C.Legal(site, k) && C.Legal(site, l) :: C.AllLegal(site, [j, k, l])
  {
    forall j | C.Legal(site, j) ensures C.AllLegal(site, [j]) {
      assert [j][1..] == [];
    }
    forall j, k | C.Legal(site, j) && C.Legal(site, k) ensures C.AllLegal(site, [j, k]) {
      assert [j, k][1..] == [k];
    }
    forall j, k, l | C.Legal(site, j) && C.Legal(site, k) && C.Legal(site, l) ensures C.AllLegal(site, [j, k, l]) {
      assert [j, k, l][1..] == [k, l];
    }
  }

  lemma ActiveLegal(v: S.View, site: Site)
    ensures C.AllLegal(site, ActiveJobs(v))
  {
    ShortLegal(site);
    LegalConcat(site, [Plain(C.PasvActive)], if v.priv.listen.None? && v.port.Some? then [Plain(C.PasvActive)] else []);
  }

  lemma TransferLegal(v: S.View, site: Site, a: Answers)
    requires S.Active(v) && S.OnlyPeer(site, v.port) && SameLink(site.local, site.remote)
    ensures C.AllLegal(site, TransferJobs(v, a))
  {
    ActiveLegal(v, site);
    ShortLegal(site);
    LegalConcat(site, ActiveJobs(v), [Plain(C.PasvActive), ConnectJob(v, a), Plain(C.PasvCleanup)]);
  }

  lemma JobsLegal(v: S.View, cfg: S.Config, site: Site, c: S.Command)
    requires S.OnlyPeer(site, v.port) && SameLink(site.local, site.remote)
    ensures C.AllLegal(site, Jobs(v, cfg, site, c))
  {
    hide C.AllLegal, ActiveJobs, TransferJobs, S.Enabled, S.OnlyPeer;
    ShortLegal(site);
    ActiveLegal(v, site);
    if S.Moves(c) && S.Reaches(v, cfg, c) {
      var chown := ChownJobs(cfg, site, c);
      TransferLegal(v, site, c.data.answers);
      LegalConcat(site, chown, TransferJobs(v, c.data.answers));
      LegalConcat(site, ActiveJobs(v), chown + TransferJobs(v, c.data.answers));
    } else {
      LegalConcat(site, ActiveJobs(v), []);
    }
  }

  /** Without port_promiscuous, every privileged call of every session is one the parent carries out as asked. */
  lemma {:induction false} SessionsAreLegal(cfg: S.Config, site: Site, cmds: seq<S.Command>)
    requires !cfg.portPromiscuous && SameLink(site.local, site.remote)
    ensures C.AllLegal(site, SessionJobs(cfg, site, cmds))
  {
    hide C.AllLegal, Jobs, S.OnlyPeer, S.Tell;
    ShortLegal(site);
    if cmds == [] {
    } else {
      var before, c := cmds[..|cmds| - 1], cmds[|cmds| - 1];
      var s := S.Tell(cfg, site, before);
      SessionsAreLegal(cfg, site, before);
      S.PortsAreSafe(cfg, site, before);
      JobsLegal(s.view, cfg, site, c);
      LegalConcat(site, SessionJobs(cfg, site, before), if s.ended.Some? then [] else Jobs(s.view, cfg, site, c));
    }
  }

  // ---------------------------------------------------------------- the calls are the session's

  /** How calls go from a privileged state, whatever has been returned before. */
  function Ends(p: Priv, site: Site, jobs: seq<C.Job>): Option<Priv>
    decreases |jobs|
  {
    if jobs == [] then Some(p) else
    match C.Direct(p, site, jobs[0])
    case Dead => None
    case Done(q, _) => Ends(q, site, jobs[1..])
  }

  lemma {:induction false} EndsIsOneProcess(p: Priv, site: Site, jobs: seq<C.Job>, done: seq<Value>)
    ensures var s := C.OneProcess(p, site, jobs, done);
            (s.died <==> Ends(p, site, jobs).None?) && (!s.died ==> Ends(p, site, jobs) == Some(s.priv))
    decreases |jobs|
  {
    hide C.Direct;
    if jobs == [] {
    } else {
      match C.Direct(p, site, jobs[0])
      case Dead =>
      case Done(q, v) => EndsIsOneProcess(q, site, jobs[1..], done + [v]);
    }
  }

  lemma {:induction false} EndsConcat(p: Priv, site: Site, a: seq<C.Job>, b: seq<C.Job>)
    ensures Ends(p, site, a + b) == if Ends(p, site, a).None? then None else Ends(Ends(p, site, a).value, site, b)
    decreases |a|
  {
    hide C.Direct;
    if a == [] {
      assert a + b == b;
    } else {
      assert (a + b)[0] == a[0] && (a + b)[1..] == a[1..] + b;
      match C.Direct(p, site, a[0])
      case Dead =>
      case Done(q, _) => EndsConcat(q, site, a[1..], b);
    }
  }

  lemma EndsOne(p: Priv, site: Site, j: C.Job)
    ensures Ends(p, site, [j]) == match C.Direct(p, site, j) case Dead => None case Done(q, _) => Some(q)
  {
    hide C.Direct;
    assert [j][1..] == [];
  }

  lemma EndsActive(v: S.View, p: Priv, site: Site)
    ensures Ends(p, site, ActiveJobs(v)) == Some(p)
  {
    var a := [Plain(C.PasvActive)];
    EndsOne(p, site, Plain(C.PasvActive));
    EndsConcat(p, site, a, if v.priv.listen.None? && v.port.Some? then a else []);
  }

  /** The data connection and the cleanup, from a state that still listens or not as the settings say. */
  lemma EndsTransfer(v: S.View, site: Site, a: Answers)
    requires S.Active(v)
    ensures Ends(v.priv, site, TransferJobs(v, a))
            == if S.Connect(v, site, a).Died? then None else Some(S.Cleaned(v).priv)
  {
    hide ActiveJobs, PortSock, Accept;
    var t, j, k := Plain(C.PasvActive), ConnectJob(v, a), Plain(C.PasvCleanup);
    EndsActive(v, v.priv, site);
    EndsConcat(v.priv, site, ActiveJobs(v), [t, j, k]);
    assert [t, j, k] == [t] + ([j] + [k]);
    EndsConcat(v.priv, site, [t], [j] + [k]);
    EndsOne(v.priv, site, t);
    EndsConcat(v.priv, site, [j], [k]);
    EndsOne(v.priv, site, j);
    ConnectKeeps(v.priv, v, site, a);
    EndsOne(v.priv, site, k);
  }

  /** Making a data connection changes nothing on the privileged side. */
  lemma ConnectKeeps(p: Priv, v: S.View, site: Site, a: Answers)
    requires S.Active(v) && p == v.priv
    ensures var r := C.Direct(p, site, ConnectJob(v, a));
            (r.Dead? <==> S.Connect(v, site, a).Died?) && (r.Done? ==> r.priv == p)
  {
  }

  /** The privileged state once the owner of an upload has been changed where that is asked for. */
  function Owned(v: S.View, cfg: S.Config, site: Site, c: S.Command): (r: Result)
    requires S.Moves(c)
    ensures r.Done? ==> r.priv.listen == v.priv.listen
  {
    if S.Chowns(cfg, site, c) then Chown(v.priv, site, c.fd, c.data.answers) else Done(v.priv, Unit)
  }

  lemma NotReached(v: S.View, cfg: S.Config, site: Site, c: S.Command)
    requires S.Moves(c) && !S.Reaches(v, cfg, c)
    ensures var o := S.RespondMove(v, cfg, site, c); o.Next? && o.view.priv == v.priv
  {
    hide S.Connect, S.Transferred;
  }

  lemma ConnectSame(v: S.View, w: S.View, site: Site, a: Answers)
    requires S.Active(v) && v.port == w.port && v.priv == w.priv
    ensures S.Connect(v, site, a) == S.Connect(w, site, a)
  {
  }

  lemma Reached(v: S.View, cfg: S.Config, site: Site, c: S.Command)
    requires S.Moves(c) && S.Reaches(v, cfg, c)
    ensures var o, r := S.RespondMove(v, cfg, site, c), Owned(v, cfg, site, c);
            && (o.Over? <==> r.Dead? || S.Connect(v.(priv := r.priv), site, c.data.answers).Died?)
            && (o.Next? ==> o.view.priv == r.priv.(listen := None))
  {
    hide S.Connect, Chown, S.Complaints, S.RetrCode, S.StoreCode;
    var r, w := Owned(v, cfg, site, c), v.(restart := 0);
    if r.Done? {
      ConnectSame(v.(priv := r.priv), w.(priv := r.priv), site, c.data.answers);
    }
  }

  /** What a transfer command's calls leave behind. */
  lemma EndsMove(v: S.View, cfg: S.Config, site: Site, c: S.Command)
    requires S.Moves(c) && S.Enabled(v, cfg, c)
    ensures var o := S.RespondMove(v, cfg, site, c);
            Ends(v.priv, site, Jobs(v, cfg, site, c)) == if o.Over? then None else Some(o.view.priv)
  {
    hide ActiveJobs, TransferJobs, Chown, S.Connect, S.Enabled, S.RespondMove, ChownJobs, Owned, Ends;
    var a := c.data.answers;
    EndsActive(v, v.priv, site);
    if S.Reaches(v, cfg, c) {
      Reached(v, cfg, site, c);
      var chown := ChownJobs(cfg, site, c);
      EndsConcat(v.priv, site, ActiveJobs(v), chown + TransferJobs(v, a));
      EndsConcat(v.priv, site, chown, TransferJobs(v, a));
      EndsOwned(v, cfg, site, c);
      var r := Owned(v, cfg, site, c);
      if r.Done? {
        SameJobs(v, v.(priv := r.priv), site, a);
        EndsTransfer(v.(priv := r.priv), site, a);
      }
    } else {
      NotReached(v, cfg, site, c);
      assert ActiveJobs(v) + [] == ActiveJobs(v);
    }
  }

  lemma EndsOwned(v: S.View, cfg: S.Config, site: Site, c: S.Command)
    requires S.Moves(c)
    ensures Ends(v.priv, site, ChownJobs(cfg, site, c))
            == match Owned(v, cfg, site, c) case Dead => None case Done(p, _) => Some(p)
  {
    hide Chown;
    if S.Chowns(cfg, site, c) {
      EndsOne(v.priv, site, C.Job(C.ChownUpload(c.fd), c.data.answers));
    }
  }

  lemma SameJobs(v: S.View, w: S.View, site: Site, a: Answers)
    requires S.Active(v) && v.port == w.port && v.priv.listen == w.priv.listen
    ensures TransferJobs(v, a) == TransferJobs(w, a)
  {
  }

  lemma EndsCommand(v: S.View, cfg: S.Config, site: Site, c: S.Command)
    ensures var o := S.Respond(v, cfg, site, c);
            Ends(v.priv, site, Jobs(v, cfg, site, c))
            == match o
               case Over(_) => if o == S.DEATH then None else Some(v.priv)
               case Next(w, _, _) => Some(w.priv)
  {
    hide S.RespondMove, S.RespondLocal, S.Enabled, Listen, PortTarget, ActiveJobs, TransferJobs, S.Reaches;
    if !S.Enabled(v, cfg, c) {
    } else if S.Moves(c) {
      EndsMove(v, cfg, site, c);
    } else if c.Port? || c.Eprt? {
      EndsOne(v.priv, site, Plain(C.PasvCleanup));
    } else if c.Pasv? || (c.Epsv? && c.arg.EpsvPlain?) {
      var j := C.Job(C.PasvListen, c.answers);
      assert [Plain(C.PasvCleanup), j] == [Plain(C.PasvCleanup)] + [j];
      EndsConcat(v.priv, site, [Plain(C.PasvCleanup)], [j]);
      EndsOne(v.priv, site, Plain(C.PasvCleanup));
      EndsOne(S.Cleaned(v).priv, site, j);
    }
  }

  /** The calls leave the privileged state the session has, and one of them dies exactly when the session does. */
  lemma {:induction false} EndsSession(cfg: S.Config, site: Site, cmds: seq<S.Command>)
    ensures var s := S.Tell(cfg, site, cmds);
            var r := Ends(Priv(None, []), site, SessionJobs(cfg, site, cmds));
            && (r.None? <==> s.ended == Some(S.DEATH.replies))
            && (r.Some? ==> r.value == s.view.priv)
  {
    hide Jobs, S.Respond, C.Direct;
    if cmds == [] {
    } else {
      var before, c := cmds[..|cmds| - 1], cmds[|cmds| - 1];
      var s := S.Tell(cfg, site, before);
      EndsSession(cfg, site, before);
      EndsCommand(s.view, cfg, site, c);
      S.FinalAnswers(s.view, cfg, site, c);
      EndsConcat(Priv(None, []), site, SessionJobs(cfg, site, before),
                 if s.ended.Some? then [] else Jobs(s.view, cfg, site, c));
    }
  }

  /**
   Whole sessions with the privileged parent, under every interleaving: when neither process can move any
   more, the parent has died exactly if the session ends in die(), else both sides are where the
   specification says, and nothing is left between them.
   */
  lemma SessionsAreOne(cfg: S.Config, site: Site, cmds: seq<S.Command>, schedule: seq<C.Turn>)
    requires !cfg.portPromiscuous && SameLink(site.local, site.remote)
    ensures var n := C.Run(C.Start(Priv(None, []), SessionJobs(cfg, site, cmds)), site, schedule);
            var s := S.Tell(cfg, site, cmds);
            C.Finished(n) ==>
              && n.up == [] && n.down == []
              && (n.child.Exited? <==> s.ended == Some(S.DEATH.replies))
              && (!n.child.Exited? ==> n.priv == s.view.priv)
  {
    hide C.Run, C.OneProcess, Ends, C.AllLegal, SessionJobs, S.Tell, C.Finished;
    SessionsAreLegal(cfg, site, cmds);
    C.TwoProcessesAreOne(Priv(None, []), site, SessionJobs(cfg, site, cmds), schedule);
    EndsIsOneProcess(Priv(None, []), site, SessionJobs(cfg, site, cmds), []);
    EndsSession(cfg, site, cmds);
  }

  // ---------------------------------------------------------------- what the calls answer the session

  /** The calls of the first n commands, then those of the next, are where the session's calls begin. */
  lemma {:induction false} JobsPrefix(cfg: S.Config, site: Site, cmds: seq<S.Command>, n: nat)
    requires n < |S.Tell(cfg, site, cmds).exchanges| && n < |cmds|
    ensures SessionJobs(cfg, site, cmds[..n]) + Jobs(S.Tell(cfg, site, cmds[..n]).view, cfg, site, cmds[n])
            <= SessionJobs(cfg, site, cmds)
  {
    hide Jobs, S.Respond;
    var before := cmds[..|cmds| - 1];
    S.TellAt(cfg, site, cmds, n);
    S.TellLength(cfg, site, before);
    if n < |S.Tell(cfg, site, before).exchanges| {
      JobsPrefix(cfg, site, before, n);
      assert before[..n] == cmds[..n];
    } else {
      assert cmds[..n] == before;
    }
  }

  lemma {:induction false} ListeningPrefix(a: seq<C.Job>, b: seq<C.Job>, n: nat)
    requires n <= |a| && a <= b
    ensures C.Listening(a, n) == C.Listening(b, n)
  {
    if n == 0 {
    } else {
      ListeningPrefix(a, b, n - 1);
    }
  }

  /** The call leaves alone what listens. */
  predicate Quiet(j: C.Job) {
    !j.call.PasvListen? && !j.call.PasvCleanup?
  }

  lemma {:induction false} QuietListening(a: seq<C.Job>, b: seq<C.Job>, i: nat)
    requires i <= |b| && forall k | 0 <= k < i :: Quiet(b[k])
    ensures C.Listening(a + b, |a| + i) == C.Listening(a, |a|)
  {
    if i == 0 {
      ListeningPrefix(a, a + b, |a|);
    } else {
      QuietListening(a, b, i - 1);
      assert (a + b)[|a| + i - 1] == b[i - 1];
    }
  }

  /** A call that asks about or makes a connection has no other before it in its command that changes what listens. */
  lemma QuietBefore(v: S.View, cfg: S.Config, site: Site, c: S.Command, i: nat)
    requires i < |Jobs(v, cfg, site, c)|
    ensures var js := Jobs(v, cfg, site, c);
            && (js[i].call.PasvActive? || js[i].call.PasvAccept? || js[i].call.GetDataSock? ==>
                  S.Moves(c) && S.Enabled(v, cfg, c) && forall k | 0 <= k < i :: Quiet(js[k]))
            && (js[i].call.PasvAccept? || js[i].call.GetDataSock? ==>
                  S.Reaches(v, cfg, c) && js[i] == ConnectJob(v, c.data.answers))
  {
    hide S.Enabled;
    var js := Jobs(v, cfg, site, c);
    if S.Moves(c) && S.Enabled(v, cfg, c) && S.Reaches(v, cfg, c) {
      var a := ActiveJobs(v);
      var front := a + ChownJobs(cfg, site, c) + a + [Plain(C.PasvActive), ConnectJob(v, c.data.answers)];
      assert js == front + [Plain(C.PasvCleanup)];
    }
  }

  /** The connect call answers with a descriptor exactly when the connection comes about. */
  lemma ConnectFits(v: S.View, site: Site, a: Answers, val: Value)
    requires S.Active(v) && !S.Connect(v, site, a).Died?
    requires C.RightAnswer(site, ConnectJob(v, a), v.priv.listen.Some?, val)
    ensures val.Fd? <==> S.Connect(v, site, a).Linked?
  {
  }

  lemma TransferIsLinked(v: S.View, cfg: S.Config, site: Site, c: S.Command)
    requires S.Moves(c) && S.Reaches(v, cfg, c)
    ensures var o := S.RespondMove(v, cfg, site, c);
            o.Next? ==> !S.Connect(v, site, c.data.answers).Died?
                        && (o.exchange.Transfer? <==> S.Connect(v, site, c.data.answers).Linked?)
  {
    hide S.Connect, Chown, S.Complaints, S.RetrCode, S.StoreCode;
    var r, w, a := Owned(v, cfg, site, c), v.(restart := 0), c.data.answers;
    ConnectSame(v, w, site, a);
    if r.Done? {
      ConnectListens(v, v.(priv := r.priv), site, a);
      ConnectSame(v.(priv := r.priv), w.(priv := r.priv), site, a);
    }
  }

  lemma ConnectListens(v: S.View, w: S.View, site: Site, a: Answers)
    requires S.Active(v) && v.port == w.port && v.priv.listen == w.priv.listen
    ensures S.Connect(v, site, a) == S.Connect(w, site, a)
  {
  }

  /** At the start of each command the parent listens exactly when the settings do. */
  lemma ListeningIsSetting(cfg: S.Config, site: Site, cmds: seq<S.Command>)
    requires S.Tell(cfg, site, cmds).ended.None?
    ensures var js := SessionJobs(cfg, site, cmds);
            C.Listening(js, |js|) == S.Tell(cfg, site, cmds).view.priv.listen
  {
    hide S.Tell, SessionJobs, C.OneProcess, Ends, C.AllRight, C.Listening;
    var js := SessionJobs(cfg, site, cmds);
    C.CallsAnswerRight(site, js);
    EndsIsOneProcess(Priv(None, []), site, js, []);
    EndsSession(cfg, site, cmds);
  }

  /**
   Each answer a command of a session gets from the parent, under every interleaving: whether a socket
   listens is told as the settings have it, and the connect call brings a descriptor exactly when the command
   becomes a transfer.
   */
  lemma AnswersFit(cfg: S.Config, site: Site, cmds: seq<S.Command>, schedule: seq<C.Turn>, n: nat, i: nat)
    requires !cfg.portPromiscuous && SameLink(site.local, site.remote)
    requires n < |S.Tell(cfg, site, cmds).exchanges| && n < |cmds|
    requires i < |Jobs(S.Tell(cfg, site, cmds[..n]).view, cfg, site, cmds[n])|
    ensures var v := S.Tell(cfg, site, cmds[..n]).view;
            var net := C.Run(C.Start(Priv(None, []), SessionJobs(cfg, site, cmds)), site, schedule);
            var j, at := Jobs(v, cfg, site, cmds[n])[i], |SessionJobs(cfg, site, cmds[..n])| + i;
            at < |net.results| ==>
              && (j.call.PasvActive? ==> net.results[at] == Number(if v.priv.listen.Some? then 1 else 0))
              && (j.call.PasvAccept? || j.call.GetDataSock? ==>
                    (net.results[at].Fd? <==> S.Tell(cfg, site, cmds).exchanges[n].Transfer?))
  {
    hide C.Run, C.OneProcess, Ends, C.AllLegal, SessionJobs, S.Tell, Jobs, S.RespondMove, S.RespondSetup, S.RespondLocal,
         S.Enabled, S.Reaches, ConnectJob, C.Listening, C.RightAnswer;
    var v, js, all := S.Tell(cfg, site, cmds[..n]).view, Jobs(S.Tell(cfg, site, cmds[..n]).view, cfg, site, cmds[n]),
                      SessionJobs(cfg, site, cmds);
    var start := SessionJobs(cfg, site, cmds[..n]);
    SessionsAreLegal(cfg, site, cmds);
    C.TwoProcessesAnswerRight(site, all, schedule);
    JobsPrefix(cfg, site, cmds, n);
    S.TellAt(cfg, site, cmds, n);
    ListeningIsSetting(cfg, site, cmds[..n]);
    QuietBefore(v, cfg, site, cmds[n], i);
    var at, net := |start| + i, C.Run(C.Start(Priv(None, []), all), site, schedule);
    if at < |net.results| && (js[i].call.PasvActive? || js[i].call.PasvAccept? || js[i].call.GetDataSock?) {
      QuietListening(start, js, i);
      ListeningPrefix(start + js, all, at);
      assert all[at] == js[i];
      Answered(v, cfg, site, cmds[n], js[i], net.results[at]);
    }
  }

  /** A right answer to a call of a command, in the command's own terms. */
  lemma Answered(v: S.View, cfg: S.Config, site: Site, c: S.Command, j: C.Job, val: Value)
    requires S.Moves(c) && S.Enabled(v, cfg, c) && S.Respond(v, cfg, site, c).Next?
    requires C.RightAnswer(site, j, v.priv.listen.Some?, val)
    requires j.call.PasvAccept? || j.call.GetDataSock? ==> S.Reaches(v, cfg, c) && j == ConnectJob(v, c.data.answers)
    ensures j.call.PasvActive? ==> val == Number(if v.priv.listen.Some? then 1 else 0)
    ensures j.call.PasvAccept? || j.call.GetDataSock? ==> (val.Fd? <==> S.Respond(v, cfg, site, c).exchange.Transfer?)
  {
    hide S.RespondMove, S.RespondSetup, S.RespondLocal, S.Enabled, S.Connect, ConnectJob;
    if j.call.PasvAccept? || j.call.GetDataSock? {
      TransferIsLinked(v, cfg, site, c);
      ConnectFits(v, site, c.data.answers, val);
    }
  }
}
