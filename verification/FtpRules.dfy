/**
 The command loop's rules, one setting and one command at a time, as an administrator or a client would
 state them: over whole sessions, with the configuration's own names, the reply codes and the log lines.
 */
module FtpRules {
  import opened Basics
  import opened Privops
  import opened FtpSpec

  function Line(log: Option<LogLine>): seq<LogLine> {
    if log.Some? then [log.value] else []
  }

  /** The session is not over, and the command, coming next, is answered and logged like this. */
  ghost predicate Goes(cfg: Config, site: Site, cmds: seq<Command>, c: Command, e: Exchange, log: Option<LogLine>) {
    var s, t := Tell(cfg, site, cmds), Tell(cfg, site, cmds + [c]);
    s.ended.None? ==> t.ended.None? && t.exchanges == s.exchanges + [e] && t.logs == s.logs + Line(log)
  }

  /** It is answered with this code alone, and nothing is logged. */
  ghost predicate Says(cfg: Config, site: Site, cmds: seq<Command>, c: Command, code: int) {
    Goes(cfg, site, cmds, c, Single(0, code), None)
  }

  /** It leaves the settings like this. */
  ghost predicate Leaves(cfg: Config, site: Site, cmds: seq<Command>, c: Command, v: View) {
    var s, t := Tell(cfg, site, cmds), Tell(cfg, site, cmds + [c]);
    s.ended.None? ==> t.ended.None? && t.view == v
  }

  /** It ends the session. */
  ghost predicate Ends(cfg: Config, site: Site, cmds: seq<Command>, c: Command, code: int) {
    var s, t := Tell(cfg, site, cmds), Tell(cfg, site, cmds + [c]);
    s.ended.None? ==> t.ended == Some([Reply(code, false)]) && t.exchanges == s.exchanges && t.logs == s.logs
  }

  /** One more command of a session. */
  lemma NextTold(cfg: Config, site: Site, cmds: seq<Command>, c: Command)
    ensures var v := Tell(cfg, site, cmds).view;
            var o := Respond(v, cfg, site, c);
            if o.Over? then |o.replies| == 1 && !o.replies[0].more && Ends(cfg, site, cmds, c, o.replies[0].code)
            else Goes(cfg, site, cmds, c, o.exchange, o.log) && Leaves(cfg, site, cmds, c, o.view)
  {
    hide Respond;
    var s := Tell(cfg, site, cmds);
    assert (cmds + [c])[..|cmds|] == cmds;
    FinalAnswers(s.view, cfg, site, c);
    assert forall log: Option<LogLine> :: Line(log) == if log.Some? then [log.value] else [];
  }

  /** The settings at this point. */
  function At(cfg: Config, site: Site, cmds: seq<Command>): View {
    Tell(cfg, site, cmds).view
  }

  function Repeat(r: Reply, n: nat): seq<Reply> {
    if n == 0 then [] else [r] + Repeat(r, n - 1)
  }

  lemma {:induction false} JunkGets500(oob: seq<Oob>)
    ensures Complaints(oob) == Repeat(Reply(500, false), Junks(oob))
  {
    if oob == [] {
    } else {
      JunkGets500(oob[1..]);
      assert [] + Complaints(oob[1..]) == Complaints(oob[1..]);
    }
  }

  lemma {:induction false} LinesRepeat(n: nat, code: int)
    ensures Lines(n, code) == Repeat(Reply(code, true), n)
  {
    if n == 0 {
    } else {
      LinesRepeat(n - 1, code);
    }
  }

  /**
   What the client hears of an exchange: lines of one code, the last closing the reply; and for a transfer
   150, a 500 for each command that is not understood, the final code, and 226 once if there was an ABOR.
   */
  lemma HeardIs(e: Exchange)
    ensures match e
            case Silent => Replies(e) == []
            case Single(lines, code) => Replies(e) == Repeat(Reply(code, true), lines) + [Reply(code, false)]
            case Transfer(oob, code) =>
              Replies(e) == [Reply(150, false)] + Repeat(Reply(500, false), Junks(oob)) + [Reply(code, false)]
                            + Repeat(Reply(226, false), if Aborts(oob) > 0 then 1 else 0)
  {
    match e
    case Silent =>
    case Single(lines, code) => LinesRepeat(lines, code);
    case Transfer(oob, code) =>
      JunkGets500(oob);
      ComplaintsComplete(oob);
      assert Repeat(Reply(226, false), 0) == [] && Repeat(Reply(226, false), 1) == [Reply(226, false)];
  }

  /** A session starts with nothing set up, binary transfers from the beginning of files, and no name to rename. */
  lemma StartsPlain(cfg: Config, site: Site)
    ensures At(cfg, site, []) == View(None, Priv(None, []), 0, false, "", false)
  {
  }

  // ---------------------------------------------------------------- what the configuration forbids

  /** With write_enable off nothing is changed: no upload, no directory made or removed, no file deleted, renamed or chmodded. */
  lemma NoWriting(cfg: Config, site: Site, cmds: seq<Command>, c: Command)
    requires !cfg.writeEnable
    ensures c.Store? || c.Mkd? || c.Rmd? || c.Dele? || c.Rnfr? || c.Rnto? ==> Says(cfg, site, cmds, c, 550)
    ensures c.SiteChmod? ==> Says(cfg, site, cmds, c, if cfg.anonymous then 550 else 500)
  {
    hide Goes, Leaves, RespondSetup, RespondMove;
    NextTold(cfg, site, cmds, c);
  }

  /** An anonymous user needs a setting of its own for each of these, and never gets SITE CHMOD. */
  lemma AnonymousNeeds(cfg: Config, site: Site, cmds: seq<Command>, c: Command)
    requires cfg.anonymous
    ensures !cfg.anonUpload && c.Store? && !c.append ==> Says(cfg, site, cmds, c, 550)
    ensures !cfg.anonOther && c.Store? && c.append ==> Says(cfg, site, cmds, c, 550)
    ensures !cfg.anonOther && (c.Rmd? || c.Dele? || c.Rnfr? || c.Rnto?) ==> Says(cfg, site, cmds, c, 550)
    ensures !cfg.anonMkdir && c.Mkd? ==> Says(cfg, site, cmds, c, 550)
    ensures c.SiteChmod? ==> Says(cfg, site, cmds, c, 550)
  {
    hide Goes, Leaves, RespondSetup, RespondMove, RespondLocal;
    NextTold(cfg, site, cmds, c);
  }

  /** Downloads, listings, passive and active connections each have their switch. */
  lemma Switches(cfg: Config, site: Site, cmds: seq<Command>, c: Command)
    ensures !cfg.downloadEnable && c.Retr? ==> Says(cfg, site, cmds, c, 550)
    ensures !cfg.dirlistEnable && (c.List? || c.StatFile?) ==> Says(cfg, site, cmds, c, 550)
    ensures !cfg.pasvEnable && (c.Pasv? || c.Epsv?) ==> Says(cfg, site, cmds, c, 550)
    ensures !cfg.portEnable && (c.Port? || c.Eprt?) ==> Says(cfg, site, cmds, c, 550)
    ensures !cfg.chmodEnable && c.SiteChmod? ==> Says(cfg, site, cmds, c, if cfg.anonymous then 550 else 500)
  {
    hide Goes, Leaves, RespondSetup, RespondMove;
    NextTold(cfg, site, cmds, c);
  }

  // ---------------------------------------------------------------- what it allows

  /** The user may write, with this setting if anonymous. */
  predicate MayWrite(cfg: Config, setting: bool) {
    cfg.writeEnable && (!cfg.anonymous || setting)
  }

  /** A file command that is allowed succeeds when the system does it: its code and a success line; else 550 and a failure. */
  lemma FileCommands(cfg: Config, site: Site, cmds: seq<Command>, c: Command)
    ensures c.Mkd? && MayWrite(cfg, cfg.anonMkdir) ==>
              var done := c.allowed && c.ok;
              Goes(cfg, site, cmds, c, Single(0, if done then 257 else 550), Some(LogLine(Mkdir, done)))
    ensures c.Rmd? && MayWrite(cfg, cfg.anonOther) ==>
              var done := c.allowed && c.ok;
              Goes(cfg, site, cmds, c, Single(0, if done then 250 else 550), Some(LogLine(Rmdir, done)))
    ensures c.Dele? && MayWrite(cfg, cfg.anonOther) ==>
              var done := c.allowed && c.ok;
              Goes(cfg, site, cmds, c, Single(0, if done then 250 else 550), Some(LogLine(Delete, done)))
    ensures c.SiteChmod? && MayWrite(cfg, false) && cfg.chmodEnable ==>
              var done := c.allowed && c.ok;
              if c.args then Goes(cfg, site, cmds, c, Single(0, if done then 200 else 550), Some(LogLine(Chmod, done)))
              else Says(cfg, site, cmds, c, 500)
    ensures c.Mkd? || c.Rmd? || c.Dele? || c.SiteChmod? ==> Leaves(cfg, site, cmds, c, At(cfg, site, cmds))
  {
    hide Goes, Leaves, RespondSetup, RespondMove;
    NextTold(cfg, site, cmds, c);
  }

  /** TYPE and REST take effect, and on nothing else; the commands that only answer change nothing. */
  lemma PlainCommands(cfg: Config, site: Site, cmds: seq<Command>, c: Command)
    ensures var v := At(cfg, site, cmds);
            match c
            case Type(kind) =>
              if kind.TypeOther? then Says(cfg, site, cmds, c, 500) && Leaves(cfg, site, cmds, c, v)
              else Says(cfg, site, cmds, c, 200) && Leaves(cfg, site, cmds, c, v.(ascii := kind.TypeA?))
            case Rest(position) =>
              Says(cfg, site, cmds, c, 350)
              && Leaves(cfg, site, cmds, c, v.(restart := if position > 0 then position else 0))
            case Quit => Ends(cfg, site, cmds, c, 221)
            case Empty => Goes(cfg, site, cmds, c, Silent, None) && Leaves(cfg, site, cmds, c, v)
            case Unlisted => Says(cfg, site, cmds, c, 550) && Leaves(cfg, site, cmds, c, v)
            case Unknown => Says(cfg, site, cmds, c, 500) && Leaves(cfg, site, cmds, c, v)
            case Answer(code) => Says(cfg, site, cmds, c, code) && Leaves(cfg, site, cmds, c, v)
            case Text(code) => Goes(cfg, site, cmds, c, Single(1, code), None) && Leaves(cfg, site, cmds, c, v)
            case Cwd(allowed, ok, banner) =>
              Leaves(cfg, site, cmds, c, v)
              && if allowed && ok then Goes(cfg, site, cmds, c, Single(banner, 250), None) else Says(cfg, site, cmds, c, 550)
            case StatFile(allowed) =>
              Leaves(cfg, site, cmds, c, v)
              && if cfg.dirlistEnable && allowed then Goes(cfg, site, cmds, c, Single(1, 213), None)
                 else Says(cfg, site, cmds, c, 550)
            case _ => true
  {
    hide Goes, Leaves, Ends, RespondSetup, RespondMove;
    NextTold(cfg, site, cmds, c);
  }

  /** A name from RNFR is held until an RNTO that is allowed uses it, and then renames if the system does. */
  lemma RenameCommands(cfg: Config, site: Site, cmds: seq<Command>, c: Command)
    requires MayWrite(cfg, cfg.anonOther)
    ensures var v := At(cfg, site, cmds);
            match c
            case Rnfr(name, allowed, there) =>
              if allowed && there then Says(cfg, site, cmds, c, 350) && Leaves(cfg, site, cmds, c, v.(rnfr := name))
              else Goes(cfg, site, cmds, c, Single(0, 550), Some(LogLine(Rename, false)))
                   && Leaves(cfg, site, cmds, c, v.(rnfr := ""))
            case Rnto(allowed, ok) =>
              if v.rnfr == "" then Says(cfg, site, cmds, c, 503) && Leaves(cfg, site, cmds, c, v)
              else if allowed then
                Goes(cfg, site, cmds, c, Single(0, if ok then 250 else 550), Some(LogLine(Rename, ok)))
                && Leaves(cfg, site, cmds, c, v.(rnfr := ""))
              else Goes(cfg, site, cmds, c, Single(0, 550), Some(LogLine(Rename, false))) && Leaves(cfg, site, cmds, c, v)
            case _ => true
  {
    hide Goes, Leaves, Ends, RespondSetup, RespondMove;
    NextTold(cfg, site, cmds, c);
  }

  /** So RNFR and RNTO in a row rename, and are logged as one rename. */
  lemma RenameInTwo(cfg: Config, site: Site, cmds: seq<Command>, name: string)
    requires MayWrite(cfg, cfg.anonOther) && name != "" && Tell(cfg, site, cmds).ended.None?
    ensures var s, t := Tell(cfg, site, cmds), Tell(cfg, site, cmds + [Rnfr(name, true, true)] + [Rnto(true, true)]);
            && t.exchanges == s.exchanges + [Single(0, 350)] + [Single(0, 250)]
            && t.logs == s.logs + [LogLine(Rename, true)]
  {
    hide Tell;
    RenameCommands(cfg, site, cmds, Rnfr(name, true, true));
    RenameCommands(cfg, site, cmds + [Rnfr(name, true, true)], Rnto(true, true));
    var s := Tell(cfg, site, cmds);
    assert s.logs + [] + [LogLine(Rename, true)] == s.logs + [LogLine(Rename, true)];
  }

  // ---------------------------------------------------------------- setting up data connections

  /** PASV and EPSV: a port, unless no try gets one. */
  lemma PassiveCommands(cfg: Config, site: Site, cmds: seq<Command>, c: Command)
    requires cfg.pasvEnable && (c.Pasv? || c.Epsv?)
    ensures var v := At(cfg, site, cmds);
            if c.Pasv? && v.epsvAll then Says(cfg, site, cmds, c, 550) && Leaves(cfg, site, cmds, c, v)
            else if c.Epsv? && c.arg.EpsvAll? then
              Says(cfg, site, cmds, c, 200) && Leaves(cfg, site, cmds, c, v.(epsvAll := true))
            else if c.Epsv? && c.arg.EpsvBad? then Says(cfg, site, cmds, c, 522) && Leaves(cfg, site, cmds, c, v)
            else if ListensInNine(c.answers.tries) then
              && Says(cfg, site, cmds, c, if c.Pasv? then 227 else 229)
              && Leaves(cfg, site, cmds, c, v.(port := None, priv := v.priv.(listen := Some(c.answers.sock))))
            else Ends(cfg, site, cmds, c, 500)
  {
    hide Goes, Leaves, Ends, RespondLocal, RespondMove, ListensInNine, Attempt;
    NextTold(cfg, site, cmds, c);
    ListenDies(Cleaned(At(cfg, site, cmds)).priv, site, c.answers);
  }

  /** The address the client may name: any with port_promiscuous, else its own, on a port from 1024. */
  predicate MayName(cfg: Config, site: Site, a: Addr, port: Port) {
    cfg.portPromiscuous || (AddrEqual(site.remote, a) && port >= 1024)
  }

  /** PORT and EPRT: the address is kept if it is one the client may name, and nothing listens in any case. */
  lemma ActiveCommands(cfg: Config, site: Site, cmds: seq<Command>, c: Command)
    requires cfg.portEnable && (c.Port? || c.Eprt?)
    ensures var v := At(cfg, site, cmds);
            var a := if c.host.None? then None else Named(site.local, c.host.value.0);
            if c.Port? && v.epsvAll then Says(cfg, site, cmds, c, 550) && Leaves(cfg, site, cmds, c, v)
            else if a.Some? && MayName(cfg, site, a.value, c.host.value.1) then
              && Says(cfg, site, cmds, c, 200)
              && Leaves(cfg, site, cmds, c, v.(port := Some(Endpoint(a.value, c.host.value.1)), priv := v.priv.(listen := None)))
            else Says(cfg, site, cmds, c, 500) && Leaves(cfg, site, cmds, c, v.(port := None, priv := v.priv.(listen := None)))
  {
    hide Goes, Leaves, Ends, RespondLocal, RespondMove, AddrEqual, Named;
    NextTold(cfg, site, cmds, c);
  }

  /** A client may always name its own address, in the form its connection has, IPv4 over IPv6 included. */
  lemma OwnAddress(cfg: Config, site: Site, own: Bytes4, own6: Bytes16, scope: nat, port: Port)
    requires port >= 1024
    ensures site.local.V4? && site.remote == V4(own) ==>
              var a := Named(site.local, V4(own)); a.Some? && MayName(cfg, site, a.value, port)
    ensures site.local.V6? && site.remote == V6(own6, scope) ==>
              var a := Named(site.local, V6(own6, scope)); a.Some? && MayName(cfg, site, a.value, port)
    ensures site.local.V6? && site.remote.V6? && site.remote.v6 == MAPPED + own ==>
              var a := Named(site.local, V4(own)); a.Some? && MayName(cfg, site, a.value, port)
  {
  }

  // ---------------------------------------------------------------- transfers

  /** The data connection comes about: somebody the server may talk to connects, or the address answers. */
  predicate Connects(v: View, site: Site, a: Answers)
    requires Active(v)
  {
    if v.priv.listen.Some? then
      a.accepted.Some? && (site.pasvPromiscuous || AddrEqual(site.remote, a.accepted.value.1))
    else a.connects(v.port.value)
  }

  /** It kills the session: no listening socket, and a reserved port or no bind. */
  predicate Deadly(v: View, a: Answers)
    requires Active(v)
  {
    v.priv.listen.None? && (v.port.value.port < 1024 || !BindsInTwo(a.binds))
  }

  /** The settings once a data connection has been tried. */
  function UsedUp(v: View): View {
    v.(port := None, priv := v.priv.(listen := None))
  }

  /** A transfer command that has got as far as the data connection. */
  ghost predicate Transfers(cfg: Config, site: Site, cmds: seq<Command>, c: Command, v: View, d: Data, code: int,
                            entry: Option<LogEntry>)
    requires Active(v)
  {
    var failed := if entry.Some? then Some(LogLine(entry.value, false)) else None;
    var done := if entry.Some? then Some(LogLine(entry.value, d.ending.Complete?)) else None;
    if Deadly(v, d.answers) then Ends(cfg, site, cmds, c, 500)
    else
      && Leaves(cfg, site, cmds, c, UsedUp(v))
      && if Connects(v, site, d.answers) then Goes(cfg, site, cmds, c, Transfer(d.early + d.late, code), done)
         else Goes(cfg, site, cmds, c, Single(0, 425), failed)
  }

  lemma ConnectMeans(v: View, site: Site, a: Answers)
    requires Active(v)
    ensures Connect(v, site, a) == if Deadly(v, a) then Died else if Connects(v, site, a) then Linked else FtpSpec.Refused
  {
  }

  /** The data connection of a transfer command, once its outcome is Transferred. */
  lemma TransferGoes(cfg: Config, site: Site, cmds: seq<Command>, c: Command, v: View, d: Data, code: int, entry: Option<LogEntry>)
    requires Active(v) && Respond(At(cfg, site, cmds), cfg, site, c) == Transferred(v, site, d, code, entry)
    ensures Transfers(cfg, site, cmds, c, v, d, code, entry)
  {
    hide Goes, Leaves, Ends, Respond, Connect, Connects, Deadly;
    NextTold(cfg, site, cmds, c);
    ConnectMeans(v, site, d.answers);
  }

  /** What bars every transfer: no setup, or a data connection that is not encrypted though it must be. */
  lemma BarredTransfers(cfg: Config, site: Site, cmds: seq<Command>, c: Command)
    requires (c.Retr? && cfg.downloadEnable) || (c.List? && cfg.dirlistEnable)
             || (c.Store? && MayWrite(cfg, if c.append then cfg.anonOther else cfg.anonUpload))
    ensures var v := At(cfg, site, cmds);
            var w := if c.List? then v else v.(restart := 0);
            && (!Active(v) ==> Says(cfg, site, cmds, c, 425) && Leaves(cfg, site, cmds, c, w))
            && (Active(v) && cfg.needEncrypt ==> Says(cfg, site, cmds, c, 522) && Leaves(cfg, site, cmds, c, w))
  {
    hide Goes, Leaves, Ends, RespondSetup, RespondLocal, Transferred, Uploaded;
    NextTold(cfg, site, cmds, c);
  }

  /** RETR, with downloads on and a data connection set up. */
  lemma Downloads(cfg: Config, site: Site, cmds: seq<Command>, f: Target, d: Data)
    requires cfg.downloadEnable && !cfg.needEncrypt && Active(At(cfg, site, cmds))
    ensures var c, v := Retr(f, d), At(cfg, site, cmds);
            var w, failed := v.(restart := 0), Some(LogLine(Download, false));
            if v.ascii && v.restart != 0 then Says(cfg, site, cmds, c, 550) && Leaves(cfg, site, cmds, c, w)
            else if f.allowed && f.opens && !f.regular && f.directory then
              Says(cfg, site, cmds, c, 550) && Leaves(cfg, site, cmds, c, w)
            else if f.allowed && f.opens && f.regular && (f.readable || !cfg.anonymous || !cfg.worldReadableOnly) then
              var code := if d.ending.Complete? then 226 else if d.ending.FileFailed? then 451 else 426;
              Transfers(cfg, site, cmds, c, w, d, code, Some(Download))
            else Goes(cfg, site, cmds, c, Single(0, 550), failed) && Leaves(cfg, site, cmds, c, w)
  {
    hide Goes, Leaves, Ends, Transferred, Transfers, RespondSetup, RespondLocal;
    var c, v := Retr(f, d), At(cfg, site, cmds);
    NextTold(cfg, site, cmds, c);
    if Respond(v, cfg, site, c) == Transferred(v.(restart := 0), site, d, RetrCode(d), Some(Download)) {
      TransferGoes(cfg, site, cmds, c, v.(restart := 0), d, RetrCode(d), Some(Download));
    }
  }

  /** The owner of an anonymous upload may be changed, or is right, or nothing of the kind is configured. */
  predicate OwnerOk(cfg: Config, site: Site, a: Answers) {
    !cfg.anonymous || !site.chownUploads || MayChown(site, a)
  }

  /** Files whose owner is changed: those of anonymous uploads that do not have the wanted one. */
  function Owned(cfg: Config, site: Site, p: Priv, fd: File, a: Answers): Priv {
    if cfg.anonymous && site.chownUploads && a.uid != site.chownUid then p.(chowned := p.chowned + [fd]) else p
  }

  /** STOR, APPE and STOU, when they are allowed and a data connection is set up. */
  lemma Uploads(cfg: Config, site: Site, cmds: seq<Command>, append: bool, f: Target, fd: File, d: Data)
    requires MayWrite(cfg, if append then cfg.anonOther else cfg.anonUpload)
    requires !cfg.needEncrypt && Active(At(cfg, site, cmds))
    ensures var c, v := Store(append, f, fd, d), At(cfg, site, cmds);
            var w, failed := v.(restart := 0), Some(LogLine(Upload, false));
            if f.allowed && f.opens then
              if OwnerOk(cfg, site, d.answers) then
                var code := if d.ending.FileFailed? then 451
                            else if d.ending.NetFailed? || Abort in d.early + d.late then 426 else 226;
                Transfers(cfg, site, cmds, c, w.(priv := Owned(cfg, site, w.priv, fd, d.answers)), d, code, Some(Upload))
              else Ends(cfg, site, cmds, c, 500)
            else Goes(cfg, site, cmds, c, Single(0, if f.allowed then 553 else 550), failed) && Leaves(cfg, site, cmds, c, w)
  {
    hide Goes, Leaves, Ends, Transferred, Transfers, RespondSetup, RespondLocal;
    var c, v := Store(append, f, fd, d), At(cfg, site, cmds);
    var w := v.(restart := 0);
    var x := w.(priv := Owned(cfg, site, w.priv, fd, d.answers));
    NextTold(cfg, site, cmds, c);
    if f.allowed && f.opens && OwnerOk(cfg, site, d.answers) {
      TransferGoes(cfg, site, cmds, c, x, d, StoreCode(d), Some(Upload));
    }
  }

  /** LIST and NLST: nothing is logged, and an unreadable directory is sent as an empty one. */
  lemma Listings(cfg: Config, site: Site, cmds: seq<Command>, allowed: bool, opens: bool, readable: bool, d: Data)
    requires cfg.dirlistEnable && !cfg.needEncrypt && Active(At(cfg, site, cmds))
    ensures var c, v := List(allowed, opens, readable, d), At(cfg, site, cmds);
            if allowed then
              var shown := opens && (readable || !cfg.anonymous || !cfg.worldReadableOnly);
              Transfers(cfg, site, cmds, c, v, d, if d.ending.Complete? || !shown then 226 else 426, None)
            else Says(cfg, site, cmds, c, 550) && Leaves(cfg, site, cmds, c, v)
  {
    hide Goes, Leaves, Ends, Transferred, Transfers, RespondSetup, RespondLocal;
    var c, v := List(allowed, opens, readable, d), At(cfg, site, cmds);
    NextTold(cfg, site, cmds, c);
    if allowed {
      var shown := opens && (readable || !cfg.anonymous || !cfg.worldReadableOnly);
      TransferGoes(cfg, site, cmds, c, v, d, if shown && !d.ending.Complete? then 426 else 226, None);
    }
  }
}
