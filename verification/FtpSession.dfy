/**
 postlogin.c as it runs: one session record, the flags that its internal checks test, and the proof
 that every command does what `FtpSpec` says and that none of the checks ever fires.
 */
module FtpSession {
  import opened Basics
  import opened FtpSpec
  import P = Privops

  /** The internal checks: each ends the process when it fires. */
  datatype Bug = NeitherActive | DataFdPresent | DataFdMissing | HandlerTwice | HandlerMissing | LogBusy

  class Session {
    const cfg: Config
    const priv: P.Session
    var port: Option<P.Endpoint>
    var dataFd: Option<P.File>
    var ioHandler: bool
    var logType: Option<LogEntry>
    var restartPos: nat
    var isAscii: bool
    var rnfr: string
    var aborReceived: bool
    var epsvAll: bool
    /** What has been sent to the client and to the log. */
    var sent: seq<Reply>
    var logs: seq<LogLine>
    /** The session has ended. */
    var over: bool
    var bug: Option<Bug>

    /** The settings, as the specification sees them. */
    function Settings(): View
      reads this`port, this`restartPos, this`isAscii, this`rnfr, this`epsvAll, priv
    {
      View(port, priv.State(), restartPos, isAscii, rnfr, epsvAll)
    }

    /** No transfer is under way and no check has fired. */
    ghost predicate Calm()
      reads this`dataFd, this`ioHandler, this`aborReceived, this`over, this`bug
    {
      dataFd.None? && !ioHandler && !aborReceived && !over && bug.None?
    }

    /** Ready for the next command. */
    ghost predicate Ready()
      reads this, priv
    {
      Calm() && logType.None? && Exclusive(Settings())
    }

    /** The log as a handler leaves it: a failed operation's entry stays open for the command loop. */
    twostate predicate Logged(line: Option<LogLine>)
      reads this`logs, this`logType
    {
      match line
      case None => logs == old(logs) && logType.None?
      case Some(l) =>
        if l.ok then logs == old(logs) + [l] && logType.None? else logs == old(logs) && logType == Some(l.entry)
    }

    /** A handler has done what the specification says. */
    twostate predicate Handled(o: Outcome)
      reads this, priv
    {
      match o
      case Over(rs) => over && bug.None? && sent == old(sent) + rs && logs == old(logs)
      case Next(v, e, log) => Calm() && Settings() == v && sent == old(sent) + Replies(e) && Logged(log)
    }

    constructor (c: Config, site: P.Site)
      ensures Ready() && fresh(priv) && cfg == c && priv.site == site
      ensures Settings() == View(None, P.Priv(None, []), 0, false, "", false)
      ensures sent == [] && logs == []
    {
      cfg := c;
      priv := new P.Session(site);
      port, dataFd, ioHandler, logType := None, None, false, None;
      restartPos, isAscii, rnfr, aborReceived, epsvAll := 0, false, "", false, false;
      sent, logs, over, bug := [], [], false, None;
    }

    // -------------------------------------------------------------- replies and log

    /** vsf_cmdio_write */
    method Write(code: int)
      modifies this`sent
      ensures sent == old(sent) + [Reply(code, false)]
    {
      sent := sent + [Reply(code, false)];
    }

    /** die() */
    method Die()
      modifies this`sent, this`over
      ensures over && sent == old(sent) + [Reply(500, false)]
    {
      Write(500);
      over := true;
    }

    /** vsf_cmdio_write_hyphen, and the directory banner. */
    method WriteLines(n: nat, code: int)
      modifies this`sent
      ensures sent == old(sent) + Lines(n, code)
    {
      var i := 0;
      assert Lines(0, code) == [];
      while i < n
        invariant i <= n && sent == old(sent) + Lines(i, code)
      {
        LinesMore(i, code);
        sent := sent + [Reply(code, true)];
        i := i + 1;
      }
    }

    /** vsf_log_start_entry */
    method StartEntry(entry: LogEntry)
      modifies this`logType, this`bug
      ensures bug == if old(logType).Some? then Some(LogBusy) else old(bug)
      ensures logType == if old(logType).Some? then old(logType) else Some(entry)
    {
      if logType.Some? {
        bug := Some(LogBusy);
        return;
      }
      logType := Some(entry);
    }

    /** vsf_log_do_log */
    method DoLog(ok: bool)
      requires logType.Some?
      modifies this`logType, this`logs
      ensures logs == old(logs) + [LogLine(old(logType).value, ok)] && logType.None?
    {
      logs := logs + [LogLine(logType.value, ok)];
      logType := None;
    }

    // -------------------------------------------------------------- port and passive

    /** port_active; with both set the two predicates would call each other for ever. */
    method PortActive() returns (ret: bool)
      requires Exclusive(Settings())
      ensures ret == port.Some?
      decreases if port.Some? then 1 else 0
    {
      ret := false;
      if port.Some? {
        ret := true;
        var pasv := PasvActive();
        if pasv {
          assert false;
        }
      }
    }

    /** pasv_active */
    method PasvActive() returns (ret: bool)
      requires Exclusive(Settings())
      ensures ret == priv.pasvListenFd.Some?
      decreases if priv.pasvListenFd.Some? then 1 else 0
    {
      ret := priv.pasvListenFd.Some?;
      if ret {
        var active := PortActive();
        if active {
          assert false;
        }
      }
    }

    /** port_cleanup and pasv_cleanup */
    method Cleanup()
      modifies this`port, priv
      ensures Settings() == Cleaned(old(Settings()))
    {
      port := None;
      priv.PasvCleanup();
    }

    /** data_transfer_checks_ok */
    method DataTransferChecksOk() returns (ok: bool)
      requires Exclusive(Settings())
      modifies this`sent
      ensures ok == Barred(Settings(), cfg).None?
      ensures sent == old(sent) + if ok then [] else [Reply(Barred(Settings(), cfg).value, false)]
    {
      var active := PasvActive();
      if !active {
        active := PortActive();
      }
      if !active {
        Write(425);
        return false;
      }
      if cfg.needEncrypt {
        Write(522);
        return false;
      }
      ok := true;
      assert sent == old(sent) + [];
    }

    // -------------------------------------------------------------- the data connection

    /** init_data_sock_params */
    method InitDataSock(fd: P.File)
      modifies this`dataFd, this`ioHandler, this`bug
      ensures bug == if old(dataFd).Some? then Some(DataFdPresent)
                     else if old(ioHandler) then Some(HandlerTwice) else old(bug)
      ensures old(dataFd).None? ==> dataFd == Some(fd) && ioHandler
    {
      if dataFd.Some? {
        bug := Some(DataFdPresent);
        return;
      }
      dataFd := Some(fd);
      if ioHandler {
        bug := Some(HandlerTwice);
        return;
      }
      ioHandler := true;
    }

    /** vsf_ftpdataio_dispose_transfer_fd */
    method DisposeTransferFd()
      modifies this`dataFd, this`ioHandler, this`bug
      ensures bug == if old(dataFd).None? then Some(DataFdMissing)
                     else if !old(ioHandler) then Some(HandlerMissing) else old(bug)
      ensures old(dataFd).Some? && old(ioHandler) ==> dataFd.None? && !ioHandler
    {
      if dataFd.None? {
        bug := Some(DataFdMissing);
        return;
      }
      if !ioHandler {
        bug := Some(HandlerMissing);
        return;
      }
      ioHandler := false;
      dataFd := None;
    }

    /** handle_sigurg, once per command that arrives out of band; without a data connection it does nothing. */
    method HandleSigurg(oob: seq<Oob>)
      modifies this`aborReceived, this`sent
      ensures sent == old(sent) + if dataFd.Some? then Complaints(oob) else []
      ensures aborReceived == (old(aborReceived) || (dataFd.Some? && Abort in oob))
    {
      var n := 0;
      assert old(sent) + [] == sent && Complaints([]) == [];
      while n < |oob|
        invariant n <= |oob|
        invariant sent == old(sent) + if dataFd.Some? then Complaints(oob[..n]) else []
        invariant aborReceived == (old(aborReceived) || (dataFd.Some? && Abort in oob[..n]))
      {
        ComplaintsSnoc(oob, n);
        if dataFd.Some? {
          if oob[n].Abort? {
            aborReceived := true;
          } else {
            Write(500);
          }
        }
        n := n + 1;
      }
      assert oob[..n] == oob;
    }

    /** check_abor */
    method CheckAbor()
      modifies this`aborReceived, this`sent
      ensures !aborReceived
      ensures sent == old(sent) + if old(aborReceived) then [Reply(226, false)] else []
    {
      if aborReceived {
        aborReceived := false;
        Write(226);
      } else {
        assert sent == old(sent) + [];
      }
    }

    /** A data connection is open. */
    ghost predicate Open()
      reads this`dataFd, this`ioHandler, this`over, this`bug
    {
      dataFd.Some? && ioHandler && !over && bug.None?
    }

    /** get_remote_transfer_fd */
    method GetRemoteTransferFd(d: Data) returns (linked: bool)
      requires Calm() && Exclusive(Settings()) && |d.answers.binds| >= 2
      modifies this`aborReceived, this`sent, this`dataFd, this`ioHandler, this`bug, this`over
      ensures !Active(Settings()) ==> bug == Some(NeitherActive)
      ensures Active(Settings()) ==>
        match Connect(Settings(), priv.site, d.answers)
        case Died => !linked && over && bug.None? && sent == old(sent) + [Reply(500, false)]
        case Refused => !linked && Calm() && sent == old(sent) + [Reply(425, false)]
        case Linked => linked && Open() && sent == old(sent) + [Reply(150, false)] + Complaints(d.early)
                       && aborReceived == (Abort in d.early)
    {
      linked := false;
      var active := PasvActive();
      if !active {
        active := PortActive();
      }
      if !active {
        bug := Some(NeitherActive);
        return;
      }
      aborReceived := false;
      var died, v := false, P.Unit;
      var pasv := PasvActive();
      if pasv {
        v := priv.AcceptPasv(d.answers);
      } else {
        died, v := priv.GetFtpPortSock(port.value, d.answers);
      }
      if died {
        Die();
        return;
      }
      if !v.Fd? {
        Write(425);
        return;
      }
      InitDataSock(v.file);
      Write(150);
      HandleSigurg(d.early);
      linked := true;
    }

    /** The final reply of a transfer, from how it ended and the abort flag. */
    function FinalCode(kind: Kind, ending: Ending): int
      reads this`aborReceived
    {
      match kind
      case Sending => if ending.FileFailed? then 451 else if ending.NetFailed? then 426 else 226
      case Receiving => if ending.FileFailed? then 451 else if ending.NetFailed? || aborReceived then 426 else 226
      case Listing(shown) => if shown && !ending.Complete? then 426 else 226
    }

    /** The final reply, the answer to an ABOR, and the data settings gone. */
    method CloseTransfer(code: int, ghost oob: seq<Oob>)
      requires aborReceived == (Abort in oob)
      modifies this`sent, this`aborReceived, this`port, priv
      ensures !aborReceived && Settings() == Cleaned(old(Settings()))
      ensures sent == old(sent) + Closing(oob, code)
    {
      Write(code);
      CheckAbor();
      Cleanup();
    }

    /** What handle_retr, handle_upload_common and handle_dir_common do once the data connection is open. */
    method MoveData(kind: Kind, d: Data)
      requires Open() && aborReceived == (Abort in d.early) && (logType.None? <==> kind.Listing?)
      modifies this`sent, this`aborReceived, this`port, priv
      modifies this`dataFd, this`ioHandler, this`bug, this`logType, this`logs
      ensures Calm() && Settings() == Cleaned(old(Settings()))
      ensures sent == old(sent) + (Complaints(d.late) + Closing(d.early + d.late, CodeFor(kind, d)))
      ensures if d.ending.Complete? && !kind.Listing?
              then logs == old(logs) + [LogLine(old(logType).value, true)] && logType.None?
              else logs == old(logs) && logType == old(logType)
    {
      hide Complaints, Lines, Cleaned;
      AbortEither(d.early, d.late);
      HandleSigurg(d.late);
      DisposeTransferFd();
      var code := FinalCode(kind, d.ending);
      assert code == CodeFor(kind, d);
      if d.ending.Complete? && !kind.Listing? {
        DoLog(true);
      }
      CloseTransfer(code, d.early + d.late);
    }

    /** The rest of a transfer command from get_remote_transfer_fd on. */
    method TransferData(kind: Kind, d: Data)
      requires Calm() && Exclusive(Settings()) && Active(Settings()) && |d.answers.binds| >= 2
      requires logType.None? <==> kind.Listing?
      modifies this`sent, this`aborReceived, this`port, priv
      modifies this`dataFd, this`ioHandler, this`bug, this`logType, this`logs, this`over
      ensures Handled(Transferred(old(Settings()), priv.site, d, CodeFor(kind, d), old(logType)))
    {
      var linked := GetRemoteTransferFd(d);
      if over {
        return;
      }
      if linked {
        MoveData(kind, d);
        TransferReplies(old(sent), d.early, d.late, CodeFor(kind, d));
      } else {
        Cleanup();
      }
    }

    // -------------------------------------------------------------- handlers

    /** The file checks of handle_retr; a directory is refused without a log line. */
    method OpenToRead(f: Target) returns (ok: bool)
      requires logType.None? && bug.None?
      modifies this`logType, this`sent, this`bug
      ensures ok == (f.allowed && f.opens && f.regular && !(cfg.anonymous && cfg.worldReadableOnly && !f.readable))
      ensures sent == old(sent) + if ok then [] else [Reply(550, false)]
      ensures bug.None?
      ensures logType == if f.allowed && f.opens && !f.regular && f.directory then None else Some(Download)
    {
      StartEntry(Download);
      ok := false;
      if !f.allowed {
        Write(550);
        return;
      }
      if !f.opens {
        Write(550);
        return;
      }
      if !f.regular {
        Write(550);
        if f.directory {
          logType := None;
        }
        return;
      }
      if cfg.anonymous && cfg.worldReadableOnly && !f.readable {
        Write(550);
        return;
      }
      ok := true;
      assert sent == old(sent) + [];
    }

    /** handle_retr */
    method HandleRetr(f: Target, d: Data)
      requires Ready() && |d.answers.binds| >= 2
      modifies this, priv
      ensures Handled(RespondRetr(old(Settings()), cfg, priv.site, f, d))
    {
      hide Transferred, Connect, Complaints, RetrCode, StoreCode, Lines, MoveLaw;
      OneLine();
      var offset := restartPos;
      restartPos := 0;
      var ok := DataTransferChecksOk();
      if !ok {
        return;
      }
      if isAscii && offset != 0 {
        Write(550);
        return;
      }
      ok := OpenToRead(f);
      if !ok {
        return;
      }
      assert sent == old(sent);
      TransferData(Sending, d);
    }

    /** The file checks of handle_upload_common; the entry stays open for the log. */
    method OpenToWrite(f: Target) returns (ok: bool)
      requires logType.None? && bug.None?
      modifies this`logType, this`sent, this`bug
      ensures ok == (f.allowed && f.opens)
      ensures sent == old(sent) + if ok then [] else [Reply(if f.allowed then 553 else 550, false)]
      ensures bug.None? && logType == Some(Upload)
    {
      StartEntry(Upload);
      ok := false;
      if !f.allowed {
        Write(550);
        return;
      }
      if !f.opens {
        Write(553);
        return;
      }
      ok := true;
      assert sent == old(sent) + [];
    }

    /** The upload once its file is open. */
    method StoreData(fd: P.File, d: Data)
      requires Calm() && Exclusive(Settings()) && Active(Settings()) && |d.answers.binds| >= 2
      requires logType == Some(Upload)
      modifies this`sent, this`aborReceived, this`port, priv
      modifies this`dataFd, this`ioHandler, this`bug, this`logType, this`logs, this`over
      ensures Handled(Uploaded(old(Settings()), cfg, priv.site, fd, d))
    {
      hide Transferred, Connect, P.Chown, Replies;
      if cfg.anonymous && priv.site.chownUploads {
        var died := priv.DoFileChown(fd, d.answers);
        if died {
          Die();
          return;
        }
      }
      assert CodeFor(Receiving, d) == StoreCode(d);
      TransferData(Receiving, d);
    }

    /** handle_upload_common */
    method HandleStore(f: Target, fd: P.File, d: Data)
      requires Ready() && |d.answers.binds| >= 2
      modifies this, priv
      ensures Handled(RespondStore(old(Settings()), cfg, priv.site, f, fd, d))
    {
      hide Uploaded, Complaints, Lines, MoveLaw;
      OneLine();
      restartPos := 0;
      var ok := DataTransferChecksOk();
      if !ok {
        return;
      }
      ok := OpenToWrite(f);
      if !ok {
        return;
      }
      assert sent == old(sent);
      StoreData(fd, d);
    }

    /** handle_dir_common for LIST and NLST */
    method HandleList(allowed: bool, opens: bool, readable: bool, d: Data)
      requires Ready() && |d.answers.binds| >= 2
      modifies this, priv
      ensures Handled(RespondList(old(Settings()), cfg, priv.site, allowed, opens, readable, d))
    {
      hide Transferred, Connect, Complaints, RetrCode, StoreCode;
      var ok := DataTransferChecksOk();
      if !ok {
        return;
      }
      if !allowed {
        Write(550);
        return;
      }
      var dirAllowRead := true;
      if cfg.anonymous && opens && cfg.worldReadableOnly {
        if !readable {
          dirAllowRead := false;
        }
      }
      assert sent == old(sent);
      TransferData(Listing(opens && dirAllowRead), d);
    }

    /** handle_pasv, for PASV and plain EPSV */
    method HandlePasv(code: int, a: P.Answers)
      requires Ready() && |a.tries| >= P.TRIES
      modifies this, priv
      ensures Handled(RespondPasv(old(Settings()), priv.site, code, a))
    {
      hide P.Listen;
      Cleanup();
      var died, thePort := priv.PasvListen(a);
      if died {
        Die();
        return;
      }
      Write(code);
    }

    /** The argument checks of handle_pasv for EPSV. */
    method HandleEpsv(arg: EpsvArg, a: P.Answers)
      requires Ready() && |a.tries| >= P.TRIES
      modifies this, priv
      ensures Handled(RespondEpsv(old(Settings()), priv.site, arg, a))
    {
      if arg.EpsvAll? {
        epsvAll := true;
        Write(200);
        return;
      }
      if arg.EpsvBad? {
        Write(522);
        return;
      }
      HandlePasv(229, a);
    }

    /** handle_port and the end of handle_eprt: the check comes after the address is stored. */
    method HandlePort(host: Option<(P.Addr, P.Port)>)
      requires Ready()
      modifies this, priv
      ensures Handled(RespondPort(old(Settings()), cfg, priv.site, host))
    {
      Cleanup();
      if host.None? || P.Named(priv.site.local, host.value.0).None? {
        Write(500);
        return;
      }
      port := Some(P.Endpoint(P.Named(priv.site.local, host.value.0).value, host.value.1));
      if !cfg.portPromiscuous {
        if !P.AddrEqual(priv.site.remote, port.value.addr) || port.value.port < P.RESERVED {
          Write(500);
          port := None;
          return;
        }
      }
      Write(200);
    }

    /** handle_mkd, handle_rmd, handle_dele and handle_site_chmod */
    method HandleFile(entry: LogEntry, allowed: bool, ok: bool, code: int)
      requires Ready()
      modifies this, priv
      ensures Handled(RespondFile(old(Settings()), entry, allowed, ok, code))
    {
      StartEntry(entry);
      if !allowed {
        Write(550);
        return;
      }
      if !ok {
        Write(550);
        return;
      }
      DoLog(true);
      Write(code);
    }

    /** handle_rnfr */
    method HandleRnfr(name: string, allowed: bool, there: bool)
      requires Ready()
      modifies this, priv
      ensures Handled(RespondRnfr(old(Settings()), name, allowed, there))
    {
      rnfr := "";
      if !allowed {
        StartEntry(Rename);
        Write(550);
        return;
      }
      if there {
        rnfr := name;
        Write(350);
      } else {
        StartEntry(Rename);
        Write(550);
      }
    }

    /** handle_rnto */
    method HandleRnto(allowed: bool, ok: bool)
      requires Ready()
      modifies this, priv
      ensures Handled(RespondRnto(old(Settings()), allowed, ok))
    {
      if rnfr == "" {
        Write(503);
        return;
      }
      StartEntry(Rename);
      if !allowed {
        Write(550);
        return;
      }
      rnfr := "";
      if ok {
        DoLog(true);
        Write(250);
      } else {
        Write(550);
      }
    }

    /** handle_type */
    method HandleType(kind: TypeArg)
      requires Ready()
      modifies this, priv
      ensures Handled(RespondType(old(Settings()), kind))
    {
      match kind
      case TypeI =>
        isAscii := false;
        Write(200);
      case TypeA =>
        isAscii := true;
        Write(200);
      case TypeOther => Write(500);
    }

    /** handle_rest */
    method HandleRest(position: int)
      requires Ready()
      modifies this, priv
      ensures Handled(RespondRest(old(Settings()), position))
    {
      var val := position;
      if val < 0 {
        val := 0;
      }
      restartPos := val;
      Write(350);
    }

    /** Commands that only answer. */
    method HandleSimple(c: Command)
      requires Ready() && Simple(c)
      modifies this, priv
      ensures Handled(RespondSimple(old(Settings()), c))
    {
      match c
      case Quit =>
        Write(221);
        over := true;
      case Empty => assert sent == old(sent) + [];
      case Unlisted => Write(550);
      case Unknown => Write(500);
      case Answer(code) => Write(code);
      case Text(code) =>
        WriteLines(1, code);
        Write(code);
      case Cwd(allowed, ok, banner) =>
        if !allowed || !ok {
          Write(550);
        } else {
          WriteLines(banner, 250);
          Write(250);
        }
      case StatFile(allowed) =>
        if !allowed {
          Write(550);
        } else {
          WriteLines(1, 213);
          Write(213);
        }
    }

    /** The dispatch in process_post_login, once a command has passed the lists. */
    method Dispatch(c: Command)
      requires Ready() && Answered(c)
      modifies this, priv
      ensures Handled(Respond(old(Settings()), cfg, priv.site, c))
    {
      hide RespondSetup, RespondMove, RespondLocal, Enabled, Answered, Lines;
      OneLine();
      if !Enabled(Settings(), cfg, c) {
        Write(550);
      } else if SetsUp(c) {
        DispatchSetup(c);
      } else if Moves(c) {
        DispatchMove(c);
      } else {
        DispatchLocal(c);
      }
    }

    method DispatchSetup(c: Command)
      requires Ready() && Answered(c) && SetsUp(c)
      modifies this, priv
      ensures Handled(RespondSetup(old(Settings()), cfg, priv.site, c))
    {
      match c
      case Pasv(a) => HandlePasv(227, a);
      case Epsv(arg, a) => HandleEpsv(arg, a);
      case Port(host) => HandlePort(host);
      case Eprt(host) => HandlePort(host);
    }

    method DispatchMove(c: Command)
      requires Ready() && Answered(c) && Moves(c)
      modifies this, priv
      ensures Handled(RespondMove(old(Settings()), cfg, priv.site, c))
    {
      match c
      case Retr(f, d) => HandleRetr(f, d);
      case Store(_, f, fd, d) => HandleStore(f, fd, d);
      case List(allowed, opens, readable, d) => HandleList(allowed, opens, readable, d);
    }

    method DispatchLocal(c: Command)
      requires Ready() && !SetsUp(c) && !Moves(c)
      modifies this, priv
      ensures Handled(RespondLocal(old(Settings()), cfg, c))
    {
      if Simple(c) {
        HandleSimple(c);
        return;
      }
      match c
      case Rnfr(name, allowed, there) => HandleRnfr(name, allowed, there);
      case Rnto(allowed, ok) => HandleRnto(allowed, ok);
      case Mkd(allowed, ok) => HandleFile(Mkdir, allowed, ok, 257);
      case Rmd(allowed, ok) => HandleFile(Rmdir, allowed, ok, 250);
      case Dele(allowed, ok) => HandleFile(Delete, allowed, ok, 250);
      case SiteChmod(args, allowed, ok) =>
        if cfg.writeEnable && cfg.chmodEnable && args {
          HandleFile(Chmod, allowed, ok, 200);
        } else {
          Write(500);
        }
      case Type(kind) => HandleType(kind);
      case Rest(position) => HandleRest(position);
    }

    /** One turn of the command loop: whatever a handler left open in the log is logged as a failure. */
    method Execute(c: Command)
      requires Ready() && Answered(c)
      modifies this, priv
      ensures match Respond(old(Settings()), cfg, priv.site, c)
              case Over(rs) => over && bug.None? && sent == old(sent) + rs && logs == old(logs)
              case Next(v, e, log) =>
                && Ready() && Settings() == v && sent == old(sent) + Replies(e)
                && logs == old(logs) + if log.Some? then [log.value] else []
    {
      hide Respond, Replies;
      StaysExclusive(Settings(), cfg, priv.site, c);
      Dispatch(c);
      if over {
        return;
      }
      if logType.Some? {
        DoLog(false);
      } else {
        assert logs == old(logs) + if Respond(old(Settings()), cfg, priv.site, c).log.Some? then
                                     [Respond(old(Settings()), cfg, priv.site, c).log.value] else [];
      }
    }
  }

  /**
   process_post_login over any list of commands: the client hears and the log records exactly what the
   specification says, and no internal check ever fires.
   */
  method Serve(cfg: Config, site: P.Site, cmds: seq<Command>)
    returns (sent: seq<Reply>, logs: seq<LogLine>, bug: Option<Bug>)
    requires forall c | c in cmds :: Answered(c)
    ensures bug.None?
    ensures sent == Heard(Tell(cfg, site, cmds)) && logs == Tell(cfg, site, cmds).logs
  {
    hide Respond, Replies;
    var s := new Session(cfg, site);
    var n := 0;
    while n < |cmds| && !s.over
      invariant n <= |cmds| && fresh(s) && fresh(s.priv) && s.cfg == cfg && s.priv.site == site
      invariant var t := Tell(cfg, site, cmds[..n]);
                && s.bug.None? && s.sent == Heard(t) && s.logs == t.logs && s.over == t.ended.Some?
                && (!s.over ==> s.Ready() && s.Settings() == t.view)
    {
      TellNext(cfg, site, cmds, n);
      ghost var t := Tell(cfg, site, cmds[..n]);
      s.Execute(cmds[n]);
      HeardNext(t, Respond(t.view, cfg, site, cmds[n]));
      n := n + 1;
    }
    TellOver(cfg, site, cmds, n);
    sent, logs, bug := s.sent, s.logs, s.bug;
  }

  lemma HeardNext(t: Story, o: Outcome)
    requires t.ended.None?
    ensures o.Over? ==> Heard(t.(ended := Some(o.replies))) == Heard(t) + o.replies
    ensures o.Next? ==> Heard(t.(exchanges := t.exchanges + [o.exchange])) == Heard(t) + Replies(o.exchange)
  {
    hide Replies, AllReplies;
    if o.Next? {
      AllRepliesSnoc(t.exchanges, o.exchange);
    }
  }

  /** Commands after the end of a session are never read. */
  lemma {:induction false} TellOver(cfg: Config, site: P.Site, cmds: seq<Command>, n: nat)
    requires n <= |cmds| && (n < |cmds| ==> Tell(cfg, site, cmds[..n]).ended.Some?)
    ensures Tell(cfg, site, cmds) == Tell(cfg, site, cmds[..n])
  {
    if n == |cmds| {
      assert cmds[..n] == cmds;
    } else {
      var before := cmds[..|cmds| - 1];
      assert before[..n] == cmds[..n];
      TellOver(cfg, site, before, n);
    }
  }

  /** The surroundings answer every retry the code can make. */
  predicate Answered(c: Command) {
    match c
    case Pasv(a) => |a.tries| >= P.TRIES
    case Epsv(_, a) => |a.tries| >= P.TRIES
    case Retr(_, d) => |d.answers.binds| >= 2
    case Store(_, _, _, d) => |d.answers.binds| >= 2
    case List(_, _, _, d) => |d.answers.binds| >= 2
    case _ => true
  }

  datatype Kind = Sending | Receiving | Listing(shown: bool)

  /** The final code of a transfer as the specification gives it. */
  function CodeFor(kind: Kind, d: Data): int {
    match kind
    case Sending => RetrCode(d)
    case Receiving => StoreCode(d)
    case Listing(shown) => if shown && !d.ending.Complete? then 426 else 226
  }

  function Closing(oob: seq<Oob>, code: int): seq<Reply> {
    [Reply(code, false)] + if Abort in oob then [Reply(226, false)] else []
  }

  lemma AbortEither(early: seq<Oob>, late: seq<Oob>)
    ensures Abort in early + late <==> Abort in early || Abort in late
  {
  }

  lemma TransferReplies(before: seq<Reply>, early: seq<Oob>, late: seq<Oob>, code: int)
    ensures before + [Reply(150, false)] + Complaints(early) + (Complaints(late) + Closing(early + late, code))
            == before + Replies(Transfer(early + late, code))
  {
    ComplaintsConcat(early, late);
  }

  /** port_active and pasv_active with a bound on the depth of their calls; None: the bound was reached. */
  function PortActiveWithin(depth: nat, port: bool, pasv: bool): Option<bool> {
    if depth == 0 then None else
    if !port then Some(false) else
    if PasvActiveWithin(depth - 1, port, pasv).None? then None else Some(true)
  }

  function PasvActiveWithin(depth: nat, port: bool, pasv: bool): Option<bool> {
    if depth == 0 then None else
    if !pasv then Some(false) else
    if PortActiveWithin(depth - 1, port, pasv).None? then None else Some(true)
  }

  lemma {:induction false} BothNeverEnds(depth: nat)
    ensures PortActiveWithin(depth, true, true).None? && PasvActiveWithin(depth, true, true).None?
  {
    if depth == 0 {
    } else {
      BothNeverEnds(depth - 1);
    }
  }

  lemma OneReturns(depth: nat, port: bool, pasv: bool)
    requires depth >= 3 && (!port || !pasv)
    ensures PortActiveWithin(depth, port, pasv).Some? && PasvActiveWithin(depth, port, pasv).Some?
  {
    assert PortActiveWithin(depth - 2, false, pasv) == Some(false);
    assert PasvActiveWithin(depth - 2, port, false) == Some(false);
  }

  /** The two predicates return exactly when not both are set: their own check for that case can never be reached. */
  lemma PredicatesReturn(port: bool, pasv: bool)
    ensures (exists depth: nat :: PortActiveWithin(depth, port, pasv).Some?) <==> !port || !pasv
    ensures (exists depth: nat :: PasvActiveWithin(depth, port, pasv).Some?) <==> !port || !pasv
  {
    if port && pasv {
      forall depth: nat ensures PortActiveWithin(depth, true, true).None? && PasvActiveWithin(depth, true, true).None? {
        BothNeverEnds(depth);
      }
    } else {
      OneReturns(3, port, pasv);
    }
  }

  lemma OneLine()
    ensures forall code: int :: Lines(0, code) == []
  {
  }

  lemma {:induction false} LinesMore(n: nat, code: int)
    ensures Lines(n + 1, code) == Lines(n, code) + [Reply(code, true)]
  {
    if n == 0 {
    } else {
      LinesMore(n - 1, code);
    }
  }

  lemma {:induction false} ComplaintsConcat(a: seq<Oob>, b: seq<Oob>)
    ensures Complaints(a + b) == Complaints(a) + Complaints(b)
  {
    if a == [] {
      assert a + b == b;
    } else {
      var first := if a[0].Junk? then [Reply(500, false)] else [];
      assert (a + b)[1..] == a[1..] + b && (a + b)[0] == a[0];
      ComplaintsConcat(a[1..], b);
      assert first + (Complaints(a[1..]) + Complaints(b)) == first + Complaints(a[1..]) + Complaints(b);
    }
  }

  lemma ComplaintsSnoc(oob: seq<Oob>, n: nat)
    requires n < |oob|
    ensures Complaints(oob[..n + 1]) == Complaints(oob[..n]) + if oob[n].Junk? then [Reply(500, false)] else []
    ensures oob[..n + 1] == oob[..n] + [oob[n]]
  {
    assert oob[..n + 1] == oob[..n] + [oob[n]];
    ComplaintsConcat(oob[..n], [oob[n]]);
  }
}
