/**
 What a logged-in client sees of vsftpd's command loop (postlogin.c): for each command the replies,
 the log line and the settings that later commands depend on.  Data descriptors, handlers, the abort
 flag and the half-open log entry do not exist at this level.
 */
module FtpSpec {
  import Ascii
  import opened Basics
  import opened Privops

  // ---------------------------------------------------------------- replies

  /** A status line; `more` marks the continuation lines of a multi-line reply. */
  datatype Reply = Reply(code: int, more: bool)

  /** An out-of-band command that arrives while a data connection is open. */
  datatype Oob = Abort | Junk

  /** Everything one command makes the server say. */
  datatype Exchange = Silent | Single(lines: nat, code: int) | Transfer(oob: seq<Oob>, code: int)

  function Lines(n: nat, code: int): seq<Reply> {
    if n == 0 then [] else [Reply(code, true)] + Lines(n - 1, code)
  }

  /** Only ABOR is understood out of band; anything else is answered with 500 on the spot. */
  function Complaints(oob: seq<Oob>): seq<Reply> {
    if oob == [] then [] else (if oob[0].Junk? then [Reply(500, false)] else []) + Complaints(oob[1..])
  }

  /** A transfer is announced with 150, closed with one final reply, and an abort is then acknowledged with 226. */
  function Replies(e: Exchange): seq<Reply> {
    match e
    case Silent => []
    case Single(lines, code) => Lines(lines, code) + [Reply(code, false)]
    case Transfer(oob, code) =>
      [Reply(150, false)] + Complaints(oob) + [Reply(code, false)] + if Abort in oob then [Reply(226, false)] else []
  }

  datatype LogEntry = Download | Upload | Mkdir | Rmdir | Delete | Rename | Chmod

  datatype LogLine = LogLine(entry: LogEntry, ok: bool)

  // ---------------------------------------------------------------- commands

  datatype Config = Config(anonymous: bool, pasvEnable: bool, portEnable: bool, downloadEnable: bool, dirlistEnable: bool,
                           writeEnable: bool, anonUpload: bool, anonMkdir: bool, anonOther: bool, chmodEnable: bool,
                           portPromiscuous: bool, worldReadableOnly: bool, needEncrypt: bool)

  /** How a transfer ends: all sent, the local file failed, or the network did. */
  type Ending = Ascii.Ret

  /** What the system and the peer do during a data connection. */
  datatype Data = Data(answers: Answers, early: seq<Oob>, late: seq<Oob>, ending: Ending)

  /** What the system says about the file a command names. */
  datatype Target = Target(allowed: bool, opens: bool, regular: bool, directory: bool, readable: bool)

  datatype EpsvArg = EpsvPlain | EpsvAll | EpsvBad

  datatype TypeArg = TypeI | TypeA | TypeOther

  /** A reply code that completes a command. */
  type FinalCode = c: int | 200 <= c < 600 witness 200

  /** Commands as the dispatcher tells them apart, each with the answers it will get from its surroundings. */
  datatype Command =
    | Quit
    | Empty
    | Unlisted
    | Unknown
    | Answer(code: FinalCode)
    | Text(code: FinalCode)
    | Cwd(allowed: bool, ok: bool, banner: nat)
    | Pasv(answers: Answers)
    | Epsv(arg: EpsvArg, answers: Answers)
    | Port(host: Option<(Addr, Port)>)
    | Eprt(host: Option<(Addr, Port)>)
    | Type(kind: TypeArg)
    | Rest(position: int)
    | Rnfr(name: string, allowed: bool, there: bool)
    | Rnto(allowed: bool, ok: bool)
    | Mkd(allowed: bool, ok: bool)
    | Rmd(allowed: bool, ok: bool)
    | Dele(allowed: bool, ok: bool)
    | SiteChmod(args: bool, allowed: bool, ok: bool)
    | Retr(target: Target, data: Data)
    | Store(append: bool, target: Target, fd: File, data: Data)
    | List(allowed: bool, opens: bool, readable: bool, data: Data)
    | StatFile(allowed: bool)

  /** The settings commands leave for later ones. */
  datatype View = View(port: Option<Endpoint>, priv: Priv, restart: nat, ascii: bool, rnfr: string, epsvAll: bool)

  datatype Outcome = Next(view: View, exchange: Exchange, log: Option<LogLine>) | Over(replies: seq<Reply>)

  /** die(): the reason goes to the client before the process ends (utility.c). */
  const DEATH: Outcome := Over([Reply(500, false)])

  function Say(v: View, code: int): Outcome {
    Next(v, Single(0, code), None)
  }

  function SayLog(v: View, code: int, entry: LogEntry, ok: bool): Outcome {
    Next(v, Single(0, code), Some(LogLine(entry, ok)))
  }

  /** A data connection can be made: PORT or PASV has set one up. */
  predicate Active(v: View) {
    v.port.Some? || v.priv.listen.Some?
  }

  /** At most one of them at a time. */
  predicate Exclusive(v: View) {
    v.port.None? || v.priv.listen.None?
  }

  /** port_cleanup and pasv_cleanup */
  function Cleaned(v: View): View {
    v.(port := None, priv := v.priv.(listen := None))
  }

  datatype Link = Linked | Refused | Died

  /** get_remote_transfer_fd: passive if listening, otherwise active. */
  function Connect(v: View, site: Site, a: Answers): Link
    requires Active(v)
  {
    if v.priv.listen.Some? then
      if Accept(v.priv, site, a).value.Fd? then Linked else Refused
    else
      var r := PortSock(v.priv, v.port.value, a);
      if r.Dead? then Died else if r.value.Fd? then Linked else Refused
  }

  /** The common end of the transfer commands: the data connection is used up whether or not it came about. */
  function Transferred(v: View, site: Site, d: Data, code: int, entry: Option<LogEntry>): Outcome
    requires Active(v)
  {
    match Connect(v, site, d.answers)
    case Died => DEATH
    case Refused => Next(Cleaned(v), Single(0, 425), if entry.Some? then Some(LogLine(entry.value, false)) else None)
    case Linked =>
      Next(Cleaned(v), Transfer(d.early + d.late, code),
           if entry.Some? then Some(LogLine(entry.value, d.ending.Complete?)) else None)
  }

  /** data_transfer_checks_ok: the code of the refusal. */
  function Barred(v: View, cfg: Config): Option<int> {
    if !Active(v) then Some(425) else if cfg.needEncrypt then Some(522) else None
  }

  function RetrCode(d: Data): int {
    match d.ending
    case Complete => 226
    case FileFailed => 451
    case NetFailed => 426
  }

  /** What every transfer command leaves alone, and what it may answer. */
  predicate MoveLaw(v: View, o: Outcome) {
    match o
    case Over(_) => o == DEATH
    case Next(w, e, _) =>
      && w.epsvAll == v.epsvAll && w.rnfr == v.rnfr && (w.port == v.port || w.port.None?)
      && !e.Silent? && e.code in {226, 425, 426, 451, 522, 550, 553}
  }

  /** handle_retr */
  function RespondRetr(v: View, cfg: Config, site: Site, f: Target, d: Data): (o: Outcome)
    ensures MoveLaw(v, o) && (o.Next? ==> o.view.restart == 0)
    ensures o.Next? && o.log.Some? ==> o.log.value.entry == Download
  {
    hide Connect;
    var w := v.(restart := 0);
    if Barred(v, cfg).Some? then Say(w, Barred(v, cfg).value) else
    if v.ascii && v.restart != 0 then Say(w, 550) else
    if !f.allowed || !f.opens then SayLog(w, 550, Download, false) else
    if !f.regular then if f.directory then Say(w, 550) else SayLog(w, 550, Download, false) else
    if cfg.anonymous && cfg.worldReadableOnly && !f.readable then SayLog(w, 550, Download, false) else
    Transferred(w, site, d, RetrCode(d), Some(Download))
  }

  /** An upload that the client aborts is reported as failed even if every byte arrived. */
  function StoreCode(d: Data): int {
    if d.ending.FileFailed? then 451 else if d.ending.NetFailed? || Abort in d.early + d.late then 426 else 226
  }

  /** The upload once its file is open; an anonymous one may have to change the owner first. */
  function Uploaded(v: View, cfg: Config, site: Site, fd: File, d: Data): Outcome
    requires Active(v)
  {
    if cfg.anonymous && site.chownUploads then
      match Chown(v.priv, site, fd, d.answers)
      case Dead => DEATH
      case Done(p, _) => Transferred(v.(priv := p), site, d, StoreCode(d), Some(Upload))
    else Transferred(v, site, d, StoreCode(d), Some(Upload))
  }

  /** handle_upload_common */
  function RespondStore(v: View, cfg: Config, site: Site, f: Target, fd: File, d: Data): (o: Outcome)
    ensures MoveLaw(v, o) && (o.Next? ==> o.view.restart == 0)
    ensures o.Next? && o.log.Some? ==> o.log.value.entry == Upload
  {
    hide Connect;
    var w := v.(restart := 0);
    if Barred(v, cfg).Some? then Say(w, Barred(v, cfg).value) else
    if !f.allowed then SayLog(w, 550, Upload, false) else
    if !f.opens then SayLog(w, 553, Upload, false) else
    Uploaded(w, cfg, site, fd, d)
  }

  /** handle_dir_common for LIST and NLST */
  function RespondList(v: View, cfg: Config, site: Site, allowed: bool, opens: bool, readable: bool, d: Data): (o: Outcome)
    ensures MoveLaw(v, o) && (o.Next? ==> o.view.restart == v.restart && o.log.None?)
  {
    hide Connect;
    if Barred(v, cfg).Some? then Say(v, Barred(v, cfg).value) else
    if !allowed then Say(v, 550) else
    var shown := opens && (readable || !cfg.anonymous || !cfg.worldReadableOnly);
    Transferred(v, site, d, if shown && !d.ending.Complete? then 426 else 226, None)
  }

  /** handle_pasv */
  function RespondPasv(v: View, site: Site, code: int, a: Answers): Outcome {
    match Listen(Cleaned(v).priv, site, a)
    case Dead => DEATH
    case Done(p, _) => Say(Cleaned(v).(priv := p), code)
  }

  /** handle_port and the end of handle_eprt */
  function RespondPort(v: View, cfg: Config, site: Site, host: Option<(Addr, Port)>): Outcome {
    var t := if host.None? then None
             else PortTarget(site.local, site.remote, host.value.0, host.value.1, cfg.portPromiscuous);
    Say(Cleaned(v).(port := t), if t.None? then 500 else 200)
  }

  /** MKD, RMD, DELE and SITE CHMOD. */
  function RespondFile(v: View, entry: LogEntry, allowed: bool, ok: bool, code: int): Outcome {
    if allowed && ok then SayLog(v, code, entry, true) else SayLog(v, 550, entry, false)
  }

  function RespondRnfr(v: View, name: string, allowed: bool, there: bool): Outcome {
    if !allowed || !there then SayLog(v.(rnfr := ""), 550, Rename, false) else Say(v.(rnfr := name), 350)
  }

  function RespondRnto(v: View, allowed: bool, ok: bool): Outcome {
    if v.rnfr == "" then Say(v, 503) else
    if !allowed then SayLog(v, 550, Rename, false) else
    SayLog(v.(rnfr := ""), if ok then 250 else 550, Rename, ok)
  }

  /** The tests the dispatcher makes before it calls a handler. */
  predicate Enabled(v: View, cfg: Config, c: Command) {
    match c
    case Pasv(_) => cfg.pasvEnable && !v.epsvAll
    case Epsv(_, _) => cfg.pasvEnable
    case Port(_) => cfg.portEnable && !v.epsvAll
    case Eprt(_) => cfg.portEnable
    case Retr(_, _) => cfg.downloadEnable
    case List(_, _, _, _) => cfg.dirlistEnable
    case StatFile(_) => cfg.dirlistEnable
    case SiteChmod(_, _, _) => !cfg.anonymous
    case Store(append, _, _, _) => cfg.writeEnable && ((if append then cfg.anonOther else cfg.anonUpload) || !cfg.anonymous)
    case Mkd(_, _) => cfg.writeEnable && (cfg.anonMkdir || !cfg.anonymous)
    case Rmd(_, _) => cfg.writeEnable && (cfg.anonOther || !cfg.anonymous)
    case Dele(_, _) => cfg.writeEnable && (cfg.anonOther || !cfg.anonymous)
    case Rnfr(_, _, _) => cfg.writeEnable && (cfg.anonOther || !cfg.anonymous)
    case Rnto(_, _) => cfg.writeEnable && (cfg.anonOther || !cfg.anonymous)
    case _ => true
  }

  function RespondEpsv(v: View, site: Site, arg: EpsvArg, a: Answers): Outcome {
    if arg.EpsvAll? then Say(v.(epsvAll := true), 200) else
    if arg.EpsvBad? then Say(v, 522) else RespondPasv(v, site, 229, a)
  }

  function RespondType(v: View, kind: TypeArg): Outcome {
    match kind
    case TypeI => Say(v.(ascii := false), 200)
    case TypeA => Say(v.(ascii := true), 200)
    case TypeOther => Say(v, 500)
  }

  function RespondRest(v: View, position: int): Outcome {
    Say(v.(restart := if position < 0 then 0 else position), 350)
  }

  /** Commands that only answer. */
  predicate Simple(c: Command) {
    c.Quit? || c.Empty? || c.Unlisted? || c.Unknown? || c.Answer? || c.Text? || c.Cwd? || c.StatFile?
  }

  function RespondSimple(v: View, c: Command): Outcome
    requires Simple(c)
  {
    match c
    case Quit => Over([Reply(221, false)])
    case Empty => Next(v, Silent, None)
    case Unlisted => Say(v, 550)
    case Unknown => Say(v, 500)
    case Answer(code) => Say(v, code)
    case Text(code) => Next(v, Single(1, code), None)
    case Cwd(allowed, ok, banner) => if !allowed || !ok then Say(v, 550) else Next(v, Single(banner, 250), None)
    case StatFile(allowed) => if allowed then Next(v, Single(1, 213), None) else Say(v, 550)
  }

  predicate SetsUp(c: Command) {
    c.Pasv? || c.Epsv? || c.Port? || c.Eprt?
  }

  predicate Moves(c: Command) {
    c.Retr? || c.Store? || c.List?
  }

  /** The commands that make a data connection possible. */
  function RespondSetup(v: View, cfg: Config, site: Site, c: Command): (o: Outcome)
    requires SetsUp(c)
    ensures o.Next? ==> o.log.None? && o.exchange.Single? && o.exchange.code in {200, 227, 229, 500, 522}
    ensures o.Next? ==> (o.view.epsvAll == v.epsvAll || c.Epsv?)
    ensures o.Next? ==> o.view.restart == v.restart && o.view.rnfr == v.rnfr
    ensures o.Over? ==> o == DEATH
  {
    match c
    case Pasv(a) => RespondPasv(v, site, 227, a)
    case Epsv(arg, a) => RespondEpsv(v, site, arg, a)
    case Port(host) => RespondPort(v, cfg, site, host)
    case Eprt(host) => RespondPort(v, cfg, site, host)
  }

  /** The commands that use one: the setup stays, or is gone altogether. */
  function RespondMove(v: View, cfg: Config, site: Site, c: Command): (o: Outcome)
    requires Moves(c)
    ensures MoveLaw(v, o) && (o.Next? ==> o.view.restart == if c.List? then v.restart else 0)
    ensures o.Next? && o.log.Some? ==> o.log.value.entry == if c.Retr? then Download else Upload
  {
    hide RespondRetr, RespondStore, RespondList;
    match c
    case Retr(target, d) => RespondRetr(v, cfg, site, target, d)
    case Store(_, target, fd, d) => RespondStore(v, cfg, site, target, fd, d)
    case List(allowed, opens, readable, d) => RespondList(v, cfg, site, allowed, opens, readable, d)
  }

  /** All others: no data connection is touched. */
  function RespondLocal(v: View, cfg: Config, c: Command): (o: Outcome)
    requires !SetsUp(c) && !Moves(c)
    ensures o.Next? ==> o.view.port == v.port && o.view.priv == v.priv && o.view.epsvAll == v.epsvAll
    ensures o.Next? ==> o.exchange.Silent? || (o.exchange.Single? && o.exchange.code >= 200)
    ensures o.Over? <==> c.Quit?
    ensures o.Over? ==> o.replies == [Reply(221, false)]
  {
    if Simple(c) then RespondSimple(v, c) else
    match c
    case Type(kind) => RespondType(v, kind)
    case Rest(position) => RespondRest(v, position)
    case Rnfr(name, allowed, there) => RespondRnfr(v, name, allowed, there)
    case Rnto(allowed, ok) => RespondRnto(v, allowed, ok)
    case Mkd(allowed, ok) => RespondFile(v, Mkdir, allowed, ok, 257)
    case Rmd(allowed, ok) => RespondFile(v, Rmdir, allowed, ok, 250)
    case Dele(allowed, ok) => RespondFile(v, Delete, allowed, ok, 250)
    case SiteChmod(args, allowed, ok) =>
      if cfg.writeEnable && cfg.chmodEnable && args then RespondFile(v, Chmod, allowed, ok, 200) else Say(v, 500)
  }

  /** One turn of the command loop. */
  function Respond(v: View, cfg: Config, site: Site, c: Command): Outcome {
    if !Enabled(v, cfg, c) then Say(v, 550) else
    if SetsUp(c) then RespondSetup(v, cfg, site, c) else
    if Moves(c) then RespondMove(v, cfg, site, c) else RespondLocal(v, cfg, c)
  }

  // ---------------------------------------------------------------- whole sessions

  /** A session so far: the settings, one exchange per command, the log, and the last words if it is over. */
  datatype Story = Story(view: View, exchanges: seq<Exchange>, logs: seq<LogLine>, ended: Option<seq<Reply>>)

  const FRESH: View := View(None, Priv(None, []), 0, false, "", false)

  /** The command loop over a list of commands; once the session is over the rest is never read. */
  function Tell(cfg: Config, site: Site, cmds: seq<Command>): Story {
    if cmds == [] then Story(FRESH, [], [], None) else
    var s := Tell(cfg, site, cmds[..|cmds| - 1]);
    if s.ended.Some? then s else
    match Respond(s.view, cfg, site, cmds[|cmds| - 1])
    case Over(rs) => s.(ended := Some(rs))
    case Next(v, e, log) =>
      Story(v, s.exchanges + [e], s.logs + (if log.Some? then [log.value] else []), None)
  }

  function AllReplies(es: seq<Exchange>): seq<Reply> {
    if es == [] then [] else AllReplies(es[..|es| - 1]) + Replies(es[|es| - 1])
  }

  /** Everything the client receives. */
  function Heard(s: Story): seq<Reply> {
    AllReplies(s.exchanges) + if s.ended.Some? then s.ended.value else []
  }

  lemma TellNext(cfg: Config, site: Site, cmds: seq<Command>, n: nat)
    requires n < |cmds|
    ensures cmds[..n + 1][..n] == cmds[..n]
  {
  }

  lemma AllRepliesSnoc(es: seq<Exchange>, e: Exchange)
    ensures AllReplies(es + [e]) == AllReplies(es) + Replies(e)
  {
    assert (es + [e])[..|es|] == es;
  }

  // ---------------------------------------------------------------- laws of single commands

  /** PORT and PASV exclude each other: each handler takes down the other's state first. */
  lemma StaysExclusive(v: View, cfg: Config, site: Site, c: Command)
    requires Exclusive(v)
    ensures var o := Respond(v, cfg, site, c); o.Next? ==> Exclusive(o.view)
  {
    hide RespondLocal, Connect, PortTarget, Enabled;
  }

  /** A data connection is made only after PORT or PASV, and every attempt uses that setup up. */
  lemma SetupIsUsedUp(v: View, cfg: Config, site: Site, c: Command)
    ensures var o := Respond(v, cfg, site, c);
            && (o.Next? && o.exchange.Transfer? ==> Moves(c) && Active(v) && !Active(o.view))
            && (o.Next? && o.exchange == Single(0, 425) && Moves(c) && Active(v) ==> !Active(o.view))
            && (o.Next? && Active(o.view) && !Active(v) ==> SetsUp(c))
            && (!Active(v) && Moves(c) && Enabled(v, cfg, c) ==> o.Next? && o.exchange == Single(0, 425))
  {
    hide RespondLocal, RespondSetup, Connect, Chown, Enabled;
  }

  function Junks(oob: seq<Oob>): nat {
    if oob == [] then 0 else (if oob[0].Junk? then 1 else 0) + Junks(oob[1..])
  }

  function Aborts(oob: seq<Oob>): nat {
    if oob == [] then 0 else (if oob[0].Abort? then 1 else 0) + Aborts(oob[1..])
  }

  /** Replies that complete a command: neither continuation lines nor 1yz preliminary replies. */
  function Completions(rs: seq<Reply>): nat {
    if rs == [] then 0 else (if !rs[0].more && rs[0].code >= 200 then 1 else 0) + Completions(rs[1..])
  }

  lemma {:induction false} CompletionsConcat(a: seq<Reply>, b: seq<Reply>)
    ensures Completions(a + b) == Completions(a) + Completions(b)
  {
    if a == [] {
      assert a + b == b;
    } else {
      assert (a + b)[1..] == a[1..] + b;
      CompletionsConcat(a[1..], b);
    }
  }

  lemma {:induction false} LinesComplete(n: nat, code: int)
    ensures Completions(Lines(n, code)) == 0
  {
    if n == 0 {
    } else {
      LinesComplete(n - 1, code);
      CompletionsConcat([Reply(code, true)], Lines(n - 1, code));
    }
  }

  lemma {:induction false} ComplaintsComplete(oob: seq<Oob>)
    ensures Completions(Complaints(oob)) == Junks(oob)
    ensures Junks(oob) + Aborts(oob) == |oob|
    ensures Aborts(oob) == 0 <==> Abort !in oob
  {
    if oob == [] {
    } else {
      ComplaintsComplete(oob[1..]);
      CompletionsConcat(if oob[0].Junk? then [Reply(500, false)] else [], Complaints(oob[1..]));
    }
  }

  /** The commands an exchange has to complete: an empty line asks for nothing, an out-of-band command for a reply too. */
  function Asked(e: Exchange): nat {
    match e
    case Silent => 0
    case Single(_, _) => 1
    case Transfer(oob, _) => 1 + |oob|
  }

  function AllAsked(es: seq<Exchange>): nat {
    if es == [] then 0 else AllAsked(es[..|es| - 1]) + Asked(es[|es| - 1])
  }

  predicate AbortedTwice(e: Exchange) {
    e.Transfer? && Aborts(e.oob) > 1
  }

  /** Each exchange completes every command it answers once, except for the second and later aborts. */
  lemma ExchangeCompletes(e: Exchange)
    requires e.Silent? || e.code >= 200
    ensures Completions(Replies(e)) == Asked(e) - if AbortedTwice(e) then Aborts(e.oob) - 1 else 0
  {
    match e
    case Silent =>
    case Single(n, code) =>
      LinesComplete(n, code);
      CompletionsConcat(Lines(n, code), [Reply(code, false)]);
    case Transfer(oob, code) =>
      var tail := if Abort in oob then [Reply(226, false)] else [];
      ComplaintsComplete(oob);
      CompletionsConcat([Reply(150, false)] + Complaints(oob) + [Reply(code, false)], tail);
      CompletionsConcat([Reply(150, false)] + Complaints(oob), [Reply(code, false)]);
      CompletionsConcat([Reply(150, false)], Complaints(oob));
  }

  /** The client is told 226 for a transfer exactly when the log says it succeeded, except for an upload it aborted. */
  lemma ReplyMatchesLog(v: View, cfg: Config, site: Site, c: Command)
    requires c.Retr? || c.Store?
    ensures var o := Respond(v, cfg, site, c);
            o.Next? && o.exchange.Transfer? ==>
              && o.log.Some?
              && (o.exchange.code == 226 <==> o.log.value.ok && !(c.Store? && Abort in o.exchange.oob))
  {
  }

  /** RNTO has renamed something. */
  predicate Renames(c: Command, e: Exchange) {
    c.Rnto? && e == Single(0, 250)
  }

  /** The law of OneShots for one outcome. */
  predicate OneShotLaw(v: View, c: Command, o: Outcome) {
    o.Next? ==>
      && (o.view.restart > 0 && o.view.restart != v.restart ==> c.Rest?)
      && (o.view.rnfr != "" && o.view.rnfr != v.rnfr ==> c.Rnfr? && o.view.rnfr == c.name)
      && (Renames(c, o.exchange) ==> v.rnfr != "" && o.view.rnfr == "")
      && (o.log == Some(LogLine(Rename, true)) <==> Renames(c, o.exchange))
  }

  lemma LocalOneShot(v: View, cfg: Config, c: Command)
    requires !SetsUp(c) && !Moves(c)
    ensures OneShotLaw(v, c, RespondLocal(v, cfg, c))
  {
  }

  /**
   A restart position comes only from REST and the next download or upload uses it up; a name to rename
   comes only from RNFR, and no rename succeeds without one or leaves it behind.
   */
  lemma OneShots(v: View, cfg: Config, site: Site, c: Command)
    ensures var o := Respond(v, cfg, site, c);
            OneShotLaw(v, c, o) && (o.Next? && (c.Retr? || c.Store?) && Enabled(v, cfg, c) ==> o.view.restart == 0)
  {
    hide RespondMove, RespondSetup, RespondLocal, Enabled;
    if !SetsUp(c) && !Moves(c) {
      LocalOneShot(v, cfg, c);
    }
  }

  /** EPSV ALL is for good: PASV and PORT are refused from then on.  EPRT is not. */
  lemma EpsvAllStays(v: View, cfg: Config, site: Site, c: Command)
    requires v.epsvAll
    ensures var o := Respond(v, cfg, site, c);
            && (o.Next? ==> o.view.epsvAll)
            && (c.Pasv? || c.Port? ==> o == Say(v, 550))
            && (c.Eprt? && cfg.portEnable ==> o == RespondPort(v, cfg, site, c.host))
  {
  }

  /** Whatever a command is answered with completes it. */
  lemma FinalAnswers(v: View, cfg: Config, site: Site, c: Command)
    ensures match Respond(v, cfg, site, c)
            case Next(_, e, _) => e.Silent? || e.code >= 200
            case Over(rs) => rs == [Reply(221, false)] || rs == [Reply(500, false)]
  {
    hide RespondMove, RespondSetup, RespondLocal;
  }

  // ---------------------------------------------------------------- commands that end the session

  /** The active connect gets its bind: at once, or at the second try when the address was in use. */
  predicate BindsInTwo(binds: seq<Bind>) {
    |binds| >= 2 && (binds[0].Bound? || (binds[0].InUse? && binds[1].Bound?))
  }

  /** One of the first nine tries gets the port, and all before it found theirs in use. */
  predicate ListensInNine(tries: seq<Try>) {
    exists i :: 0 <= i < 9 && i < |tries| && tries[i].outcome.Bound? && forall j | 0 <= j < i :: tries[j].outcome.InUse?
  }

  /** The file is the new owner's already, or a regular file of the anonymous or the guest user. */
  predicate MayChown(site: Site, a: Answers) {
    a.uid == site.chownUid
    || (site.chownUid != -1 && a.regular && (a.uid == site.anonUid || a.uid == site.guestUid))
  }

  /** A transfer command that passes the checks made before the data connection. */
  predicate Reaches(v: View, cfg: Config, c: Command) {
    Active(v) && !cfg.needEncrypt &&
    match c
    case Retr(f, _) =>
      && !(v.ascii && v.restart != 0) && f.allowed && f.opens && f.regular
      && !(cfg.anonymous && cfg.worldReadableOnly && !f.readable)
    case Store(_, f, _, _) => f.allowed && f.opens
    case List(allowed, _, _, _) => allowed
    case _ => false
  }

  predicate Chowns(cfg: Config, site: Site, c: Command) {
    c.Store? && cfg.anonymous && site.chownUploads
  }

  /** The conditions on which a command ends the session in die(). */
  predicate Kills(v: View, cfg: Config, site: Site, c: Command) {
    Enabled(v, cfg, c) &&
    if c.Pasv? || (c.Epsv? && c.arg.EpsvPlain?) then !ListensInNine(c.answers.tries)
    else
      Reaches(v, cfg, c)
      && ((Chowns(cfg, site, c) && !MayChown(site, c.data.answers))
          || (v.priv.listen.None? && (v.port.value.port < RESERVED || !BindsInTwo(c.data.answers.binds))))
  }

  lemma ListenDies(p: Priv, site: Site, a: Answers)
    ensures Listen(p, site, a).Dead? <==> !ListensInNine(a.tries)
  {
    var r := PasvRange(site.pasvMin, site.pasvMax);
    var port := Attempt(a.tries, r, TRIES);
    if port.Some? {
      AttemptMeans(a.tries, r, TRIES, port.value);
    }
    if i :| 0 <= i < TRIES && i < |a.tries| && a.tries[i].outcome.Bound? && forall j | 0 <= j < i :: a.tries[j].outcome.InUse? {
      AttemptMeans(a.tries, r, TRIES, Scaled(r, a.tries[i].hi, a.tries[i].lo));
    }
  }

  lemma ConnectDies(v: View, site: Site, a: Answers)
    requires Active(v)
    ensures Connect(v, site, a).Died? <==> v.priv.listen.None? && (v.port.value.port < RESERVED || !BindsInTwo(a.binds))
  {
  }

  /** A command ends the session in die() exactly on these conditions, and only QUIT ends it otherwise. */
  lemma DeathsExact(v: View, cfg: Config, site: Site, c: Command)
    ensures var o := Respond(v, cfg, site, c);
            && (o == DEATH <==> Kills(v, cfg, site, c))
            && (o.Over? <==> c.Quit? || Kills(v, cfg, site, c))
  {
    hide RespondLocal, RespondMove, Connect, Listen, Attempt, PortTarget, ListensInNine, BindsInTwo;
    if c.Pasv? || c.Epsv? {
      ListenDies(Cleaned(v).priv, site, c.answers);
    }
    if Moves(c) && Enabled(v, cfg, c) {
      TransferDies(v, cfg, site, c);
    }
  }

  lemma TransferDies(v: View, cfg: Config, site: Site, c: Command)
    requires Moves(c) && Enabled(v, cfg, c)
    ensures Respond(v, cfg, site, c) == DEATH <==> Kills(v, cfg, site, c)
    ensures Respond(v, cfg, site, c).Over? ==> Respond(v, cfg, site, c) == DEATH
  {
    hide Connect, Listen, PortTarget, BindsInTwo, Enabled, PortSock, Accept;
    if Active(v) {
      forall w: View | w.port == v.port && w.priv.listen == v.priv.listen
        ensures Connect(w, site, c.data.answers).Died? <==>
                v.priv.listen.None? && (v.port.value.port < RESERVED || !BindsInTwo(c.data.answers.binds))
      {
        ConnectDies(w, site, c.data.answers);
      }
    }
  }

  // ---------------------------------------------------------------- laws of whole sessions

  /** What Tell knows of its n-th exchange: the session up to there, and the command that made it. */
  lemma {:induction false} TellAt(cfg: Config, site: Site, cmds: seq<Command>, n: nat)
    requires n < |Tell(cfg, site, cmds).exchanges|
    ensures n < |cmds|
    ensures var t := Tell(cfg, site, cmds[..n]);
            var o := Respond(t.view, cfg, site, cmds[n]);
            && t.ended.None? && t.exchanges == Tell(cfg, site, cmds).exchanges[..n]
            && o.Next? && o.exchange == Tell(cfg, site, cmds).exchanges[n]
  {
    hide Respond;
    var before := cmds[..|cmds| - 1];
    var s, t := Tell(cfg, site, before), Tell(cfg, site, cmds);
    TellLength(cfg, site, before);
    if n < |s.exchanges| {
      TellAt(cfg, site, before, n);
      assert before[..n] == cmds[..n] && t.exchanges[..n] == s.exchanges[..n];
    } else {
      assert cmds[..n] == before && t.exchanges[..n] == s.exchanges;
    }
  }

  lemma {:induction false} TellLength(cfg: Config, site: Site, cmds: seq<Command>)
    ensures var s := Tell(cfg, site, cmds);
            |s.exchanges| <= |cmds| && (s.ended.None? ==> |s.exchanges| == |cmds|)
  {
    hide Respond;
    if cmds == [] {
    } else {
      TellLength(cfg, site, cmds[..|cmds| - 1]);
    }
  }

  /**
   In every session the completing replies are as many as the commands, out-of-band ones and the one that
   ends the session included, if and only if no transfer was aborted twice; they are never more.
   */
  lemma OneCompletionEach(cfg: Config, site: Site, cmds: seq<Command>)
    ensures var s := Tell(cfg, site, cmds);
            var last := if s.ended.Some? then 1 else 0;
            && Completions(Heard(s)) <= AllAsked(s.exchanges) + last
            && (Completions(Heard(s)) == AllAsked(s.exchanges) + last <==>
                  forall n | 0 <= n < |s.exchanges| :: !AbortedTwice(s.exchanges[n]))
  {
    hide Respond, Replies, Asked, AbortedTwice;
    var t := Tell(cfg, site, cmds);
    Completed(cfg, site, cmds);
    var last := if t.ended.Some? then t.ended.value else [];
    CompletionsConcat(AllReplies(t.exchanges), last);
    assert last != [] ==> |last| == 1 && last[0].code >= 200 && !last[0].more && last[1..] == [];
  }

  lemma {:induction false} Completed(cfg: Config, site: Site, cmds: seq<Command>)
    ensures var s := Tell(cfg, site, cmds);
            && (s.ended.Some? ==> s.ended.value == [Reply(221, false)] || s.ended.value == [Reply(500, false)])
            && Completions(AllReplies(s.exchanges)) <= AllAsked(s.exchanges)
            && (Completions(AllReplies(s.exchanges)) == AllAsked(s.exchanges) <==>
                  forall n | 0 <= n < |s.exchanges| :: !AbortedTwice(s.exchanges[n]))
  {
    hide Respond, Replies, Asked, AbortedTwice, AllReplies, AllAsked;
    if cmds == [] {
      NothingAsked();
    } else {
      var before, c := cmds[..|cmds| - 1], cmds[|cmds| - 1];
      var s := Tell(cfg, site, before);
      Completed(cfg, site, before);
      FinalAnswers(s.view, cfg, site, c);
      var o := Respond(s.view, cfg, site, c);
      if s.ended.None? && o.Next? {
        OneMoreExchange(s.exchanges, o.exchange);
      }
    }
  }

  lemma NothingAsked()
    ensures AllReplies([]) == [] && AllAsked([]) == 0 && Completions([]) == 0
  {
  }

  lemma OneMoreExchange(es: seq<Exchange>, e: Exchange)
    requires e.Silent? || e.code >= 200
    ensures AllAsked(es + [e]) == AllAsked(es) + Asked(e)
    ensures Completions(AllReplies(es + [e])) == Completions(AllReplies(es)) + Completions(Replies(e))
    ensures Completions(Replies(e)) <= Asked(e) && (Completions(Replies(e)) == Asked(e) <==> !AbortedTwice(e))
    ensures (forall n | 0 <= n < |es + [e]| :: !AbortedTwice((es + [e])[n])) <==>
            (forall n | 0 <= n < |es| :: !AbortedTwice(es[n])) && !AbortedTwice(e)
  {
    hide Replies, Asked, Completions;
    ExchangeCompletes(e);
    AllRepliesSnoc(es, e);
    CompletionsConcat(AllReplies(es), Replies(e));
    assert (es + [e])[..|es|] == es && (es + [e])[|es|] == e;
    if forall n | 0 <= n < |es + [e]| :: !AbortedTwice((es + [e])[n]) {
      forall n | 0 <= n < |es| ensures !AbortedTwice(es[n]) {
        assert (es + [e])[n] == es[n];
      }
    }
  }

  lemma {:induction false} AlwaysExclusive(cfg: Config, site: Site, cmds: seq<Command>)
    ensures Exclusive(Tell(cfg, site, cmds).view)
  {
    if cmds == [] {
    } else {
      AlwaysExclusive(cfg, site, cmds[..|cmds| - 1]);
      StaysExclusive(Tell(cfg, site, cmds[..|cmds| - 1]).view, cfg, site, cmds[|cmds| - 1]);
    }
  }

  /** The command was granted and sets up a data connection. */
  predicate Grants(c: Command, e: Exchange) {
    || ((c.Port? || c.Eprt?) && e == Single(0, 200))
    || (c.Pasv? && e == Single(0, 227))
    || (c.Epsv? && e == Single(0, 229))
  }

  /** What takes a setup down: a transfer, a failed attempt at one, or an address that is refused. */
  predicate TakesDown(c: Command, e: Exchange) {
    e.Transfer? || (Moves(c) && e == Single(0, 425)) || ((c.Port? || c.Eprt?) && e == Single(0, 500))
  }

  /** The law of a step, for whatever makes a data connection possible. */
  predicate SetupLaw(v: View, c: Command, o: Outcome) {
    o.Next? ==> (Active(o.view) <==> Grants(c, o.exchange) || (Active(v) && !TakesDown(c, o.exchange)))
  }

  lemma SetupRetr(v: View, cfg: Config, site: Site, c: Command)
    requires c.Retr?
    ensures SetupLaw(v, c, RespondRetr(v, cfg, site, c.target, c.data))
  {
    hide Connect;
  }

  lemma SetupStore(v: View, cfg: Config, site: Site, c: Command)
    requires c.Store?
    ensures SetupLaw(v, c, RespondStore(v, cfg, site, c.target, c.fd, c.data))
  {
    hide Connect;
  }

  lemma SetupList(v: View, cfg: Config, site: Site, c: Command)
    requires c.List?
    ensures SetupLaw(v, c, RespondList(v, cfg, site, c.allowed, c.opens, c.readable, c.data))
  {
    hide Connect;
  }

  lemma SetupMoves(v: View, cfg: Config, site: Site, c: Command)
    requires Moves(c)
    ensures SetupLaw(v, c, RespondMove(v, cfg, site, c))
  {
    hide RespondRetr, RespondStore, RespondList, SetupLaw;
    match c
    case Retr(_, _) => SetupRetr(v, cfg, site, c);
    case Store(_, _, _, _) => SetupStore(v, cfg, site, c);
    case List(_, _, _, _) => SetupList(v, cfg, site, c);
  }

  lemma SetupSets(v: View, cfg: Config, site: Site, c: Command)
    requires SetsUp(c)
    ensures SetupLaw(v, c, RespondSetup(v, cfg, site, c))
  {
    hide PortTarget, Attempt;
  }

  lemma SetupStep(v: View, cfg: Config, site: Site, c: Command)
    ensures SetupLaw(v, c, Respond(v, cfg, site, c))
  {
    hide RespondMove, RespondSetup, RespondLocal, Enabled;
    if Moves(c) {
      SetupMoves(v, cfg, site, c);
    } else if SetsUp(c) {
      SetupSets(v, cfg, site, c);
    }
  }

  /** The last of these commands that granted a setup has not had it taken down since. */
  predicate SetUpSince(cmds: seq<Command>, es: seq<Exchange>)
    requires |cmds| >= |es|
  {
    es != [] &&
    var n := |es| - 1;
    Grants(cmds[n], es[n]) || (!TakesDown(cmds[n], es[n]) && SetUpSince(cmds, es[..n]))
  }

  /** At every point of a session a data connection can be made exactly when the replies so far say so. */
  lemma {:induction false} ActiveExactly(cfg: Config, site: Site, cmds: seq<Command>)
    ensures var s := Tell(cfg, site, cmds);
            |s.exchanges| <= |cmds| && (Active(s.view) <==> SetUpSince(cmds, s.exchanges))
  {
    hide Respond, Active, Grants, TakesDown;
    TellLength(cfg, site, cmds);
    if cmds == [] {
      assert !Active(FRESH) by { NotActiveYet(); }
    } else {
      var before, c := cmds[..|cmds| - 1], cmds[|cmds| - 1];
      var s, t := Tell(cfg, site, before), Tell(cfg, site, cmds);
      ActiveExactly(cfg, site, before);
      TellLength(cfg, site, before);
      SetUpSincePrefix(before, cmds, s.exchanges);
      SetupStep(s.view, cfg, site, c);
      if s.ended.None? && t.ended.None? {
        assert t.exchanges[..|s.exchanges|] == s.exchanges;
      }
    }
  }

  lemma NotActiveYet()
    ensures !Active(FRESH)
  {
  }

  /** In every session each data connection has its own granted PORT or PASV, not taken down since. */
  lemma EveryTransferIsSetUp(cfg: Config, site: Site, cmds: seq<Command>)
    ensures var s := Tell(cfg, site, cmds);
            |s.exchanges| <= |cmds|
            && forall n | 0 <= n < |s.exchanges| :: s.exchanges[n].Transfer? ==> SetUpSince(cmds, s.exchanges[..n])
  {
    hide Respond, Active, SetUpSince;
    var s := Tell(cfg, site, cmds);
    TellLength(cfg, site, cmds);
    forall n | 0 <= n < |s.exchanges| && s.exchanges[n].Transfer? ensures SetUpSince(cmds, s.exchanges[..n]) {
      TellAt(cfg, site, cmds, n);
      ActiveExactly(cfg, site, cmds[..n]);
      SetupIsUsedUp(Tell(cfg, site, cmds[..n]).view, cfg, site, cmds[n]);
      SetUpSincePrefix(cmds[..n], cmds, s.exchanges[..n]);
    }
  }

  lemma {:induction false} SetUpSincePrefix(a: seq<Command>, b: seq<Command>, es: seq<Exchange>)
    requires |es| <= |a| <= |b| && b[..|a|] == a
    ensures SetUpSince(a, es) == SetUpSince(b, es)
  {
    if es == [] {
    } else {
      assert a[|es| - 1] == b[|es| - 1];
      SetUpSincePrefix(a, b, es[..|es| - 1]);
    }
  }

  // ---------------------------------------------------------------- where PORT can lead

  /** No active connection goes anywhere but to a non-reserved port of the peer. */
  predicate OnlyPeer(site: Site, port: Option<Endpoint>) {
    port.Some? ==>
      && AddrEqual(site.remote, port.value.addr) && port.value.port >= RESERVED
      && (SameLink(site.local, site.remote) ==> port.value.addr == site.remote)
  }

  lemma TargetIsPeer(site: Site, host: Addr, port: Port)
    ensures OnlyPeer(site, PortTarget(site.local, site.remote, host, port, false))
  {
    if PortTarget(site.local, site.remote, host, port, false).Some? {
      PortIsPeer(site.local, site.remote, host, port);
    }
  }

  lemma PortStep(v: View, cfg: Config, site: Site, c: Command)
    requires !cfg.portPromiscuous && OnlyPeer(site, v.port)
    ensures var o := Respond(v, cfg, site, c); o.Next? ==> OnlyPeer(site, o.view.port)
  {
    hide RespondLocal, RespondMove, PortTarget, Enabled, OnlyPeer, Listen;
    assert OnlyPeer(site, None) by { NoPort(site); }
    if (c.Port? || c.Eprt?) && c.host.Some? {
      TargetIsPeer(site, c.host.value.0, c.host.value.1);
    }
  }

  lemma NoPort(site: Site)
    ensures OnlyPeer(site, None)
  {
  }

  /** Unless port_promiscuous is set, in no session can the server be made to connect anywhere else. */
  lemma {:induction false} PortsAreSafe(cfg: Config, site: Site, cmds: seq<Command>)
    requires !cfg.portPromiscuous
    ensures OnlyPeer(site, Tell(cfg, site, cmds).view.port)
  {
    hide Respond, OnlyPeer;
    if cmds == [] {
      NoPort(site);
    } else {
      PortsAreSafe(cfg, site, cmds[..|cmds| - 1]);
      PortStep(Tell(cfg, site, cmds[..|cmds| - 1]).view, cfg, site, cmds[|cmds| - 1]);
    }
  }

  /** So the check for reserved ports never ends a session then: an active connect dies only for want of a bind. */
  lemma DeathsWhenSafe(cfg: Config, site: Site, cmds: seq<Command>, c: Command)
    requires !cfg.portPromiscuous && Moves(c)
    ensures var v := Tell(cfg, site, cmds).view;
            Respond(v, cfg, site, c) == DEATH <==>
              && Enabled(v, cfg, c) && Reaches(v, cfg, c)
              && ((Chowns(cfg, site, c) && !MayChown(site, c.data.answers))
                  || (v.priv.listen.None? && !BindsInTwo(c.data.answers.binds)))
  {
    hide Respond, Enabled, MayChown, BindsInTwo;
    PortsAreSafe(cfg, site, cmds);
    DeathsExact(Tell(cfg, site, cmds).view, cfg, site, c);
  }

  /** With port_promiscuous it can: a reserved port is granted, and the next listing ends the session. */
  lemma ReservedPortKills(cfg: Config, site: Site, host: Addr, port: Port, list: Command)
    requires cfg.portPromiscuous && cfg.portEnable && cfg.dirlistEnable && !cfg.needEncrypt
    requires Named(site.local, host).Some? && port < RESERVED && list.List? && list.allowed
    ensures var s := Tell(cfg, site, [Port(Some((host, port))), list]);
            s.exchanges == [Single(0, 200)] && s.ended == Some([Reply(500, false)])
  {
    hide Kills, Respond;
    var first := Port(Some((host, port)));
    assert [first, list][..1] == [first] && [first][..0] == [];
    assert Tell(cfg, site, []) == Story(FRESH, [], [], None);
    PortGranted(cfg, site, host, port);
    var t := Tell(cfg, site, [first]);
    assert t == Story(t.view, [Single(0, 200)], [], None) && t.view.port.Some?;
    DeathsExact(t.view, cfg, site, list);
    assert Kills(t.view, cfg, site, list) by { ReservedKills(t.view, cfg, site, list); }
  }

  lemma PortGranted(cfg: Config, site: Site, host: Addr, port: Port)
    requires cfg.portPromiscuous && cfg.portEnable && Named(site.local, host).Some?
    ensures Respond(FRESH, cfg, site, Port(Some((host, port))))
            == Say(FRESH.(port := Some(Endpoint(Named(site.local, host).value, port))), 200)
  {
  }

  lemma ReservedKills(v: View, cfg: Config, site: Site, list: Command)
    requires cfg.dirlistEnable && !cfg.needEncrypt && list.List? && list.allowed
    requires v.priv.listen.None? && v.port.Some? && v.port.value.port < RESERVED
    ensures Kills(v, cfg, site, list)
  {
  }

  // ---------------------------------------------------------------- EPSV ALL and renames over sessions

  /** EPSV ALL has been granted. */
  predicate AllSeen(cmds: seq<Command>, es: seq<Exchange>)
    requires |cmds| >= |es|
  {
    exists n :: 0 <= n < |es| && GrantsAll(cmds[n], es[n])
  }

  predicate GrantsAll(c: Command, e: Exchange) {
    c.Epsv? && c.arg.EpsvAll? && e == Single(0, 200)
  }

  lemma AllStep(v: View, cfg: Config, site: Site, c: Command)
    ensures var o := Respond(v, cfg, site, c);
            o.Next? ==> (o.view.epsvAll <==> v.epsvAll || GrantsAll(c, o.exchange))
  {
    hide RespondLocal, RespondMove, PortTarget, Listen;
  }

  lemma {:induction false} AllExactly(cfg: Config, site: Site, cmds: seq<Command>)
    ensures var s := Tell(cfg, site, cmds);
            |s.exchanges| <= |cmds| && (s.view.epsvAll <==> AllSeen(cmds, s.exchanges))
  {
    hide Respond, GrantsAll;
    TellLength(cfg, site, cmds);
    if cmds == [] {
    } else {
      var before, c := cmds[..|cmds| - 1], cmds[|cmds| - 1];
      var s, t := Tell(cfg, site, before), Tell(cfg, site, cmds);
      AllExactly(cfg, site, before);
      TellLength(cfg, site, before);
      AllStep(s.view, cfg, site, c);
      AllSeenMore(before, cmds, s.exchanges, t.exchanges);
    }
  }

  lemma AllSeenMore(a: seq<Command>, b: seq<Command>, es: seq<Exchange>, fs: seq<Exchange>)
    requires |es| <= |a| && |fs| <= |b| && a <= b && es <= fs && |fs| <= |es| + 1
    ensures AllSeen(b, fs) <==> AllSeen(a, es) || (|fs| > |es| && GrantsAll(b[|es|], fs[|es|]))
  {
    hide GrantsAll;
    if n :| 0 <= n < |es| && GrantsAll(a[n], es[n]) {
      assert GrantsAll(b[n], fs[n]);
    }
    if n :| 0 <= n < |fs| && GrantsAll(b[n], fs[n]) {
      assert n < |es| ==> GrantsAll(a[n], es[n]);
    }
  }

  /** Once EPSV ALL has been granted, every later PASV and PORT of the session is refused with 550. */
  lemma EpsvAllForGood(cfg: Config, site: Site, cmds: seq<Command>, n: nat)
    requires n < |Tell(cfg, site, cmds).exchanges| <= |cmds|
    requires AllSeen(cmds, Tell(cfg, site, cmds).exchanges[..n]) && (cmds[n].Pasv? || cmds[n].Port?)
    ensures Tell(cfg, site, cmds).exchanges[n] == Single(0, 550)
  {
    hide Respond, GrantsAll;
    var es := Tell(cfg, site, cmds).exchanges;
    TellAt(cfg, site, cmds, n);
    AllExactly(cfg, site, cmds[..n]);
    AllSeenMore(cmds[..n], cmds, es[..n], es[..n]);
    EpsvAllStays(Tell(cfg, site, cmds[..n]).view, cfg, site, cmds[n]);
  }

  /** The last RNFR was granted, and nothing has been renamed since. */
  predicate NamedSince(cmds: seq<Command>, es: seq<Exchange>)
    requires |cmds| >= |es|
  {
    es != [] &&
    var n := |es| - 1;
    if cmds[n].Rnfr? then es[n] == Single(0, 350) else !Renames(cmds[n], es[n]) && NamedSince(cmds, es[..n])
  }

  predicate RenamesOn(cfg: Config) {
    cfg.writeEnable && (cfg.anonOther || !cfg.anonymous)
  }

  lemma NameStep(v: View, cfg: Config, site: Site, c: Command)
    requires RenamesOn(cfg) || v.rnfr == ""
    ensures var o := Respond(v, cfg, site, c);
            o.Next? ==>
              && (RenamesOn(cfg) || o.view.rnfr == "")
              && (o.view.rnfr != "" ==>
                    if c.Rnfr? then o.exchange == Single(0, 350) else v.rnfr != "" && !Renames(c, o.exchange))
  {
    hide RespondSetup, RespondMove;
  }

  lemma {:induction false} NameIsGranted(cfg: Config, site: Site, cmds: seq<Command>)
    ensures var s := Tell(cfg, site, cmds);
            && (RenamesOn(cfg) || s.view.rnfr == "")
            && |s.exchanges| <= |cmds| && (s.view.rnfr != "" ==> NamedSince(cmds, s.exchanges))
  {
    hide Respond, Renames, RenamesOn;
    TellLength(cfg, site, cmds);
    if cmds == [] {
    } else {
      var before, c := cmds[..|cmds| - 1], cmds[|cmds| - 1];
      var s, t := Tell(cfg, site, before), Tell(cfg, site, cmds);
      NameIsGranted(cfg, site, before);
      TellLength(cfg, site, before);
      NamedSincePrefix(before, cmds, s.exchanges);
      NameStep(s.view, cfg, site, c);
      if s.ended.None? && t.ended.None? {
        assert t.exchanges[..|s.exchanges|] == s.exchanges;
      }
    }
  }

  lemma {:induction false} NamedSincePrefix(a: seq<Command>, b: seq<Command>, es: seq<Exchange>)
    requires |es| <= |a| <= |b| && b[..|a|] == a
    ensures NamedSince(a, es) == NamedSince(b, es)
  {
    if es == [] {
    } else {
      assert a[|es| - 1] == b[|es| - 1];
      NamedSincePrefix(a, b, es[..|es| - 1]);
    }
  }

  /** In every session each rename has its own granted RNFR, the last one before it. */
  lemma EveryRenameIsNamed(cfg: Config, site: Site, cmds: seq<Command>, n: nat)
    requires n < |Tell(cfg, site, cmds).exchanges| <= |cmds|
    requires Renames(cmds[n], Tell(cfg, site, cmds).exchanges[n])
    ensures NamedSince(cmds, Tell(cfg, site, cmds).exchanges[..n])
  {
    hide Respond, Renames, NamedSince;
    var es := Tell(cfg, site, cmds).exchanges;
    TellAt(cfg, site, cmds, n);
    NameIsGranted(cfg, site, cmds[..n]);
    NamedSincePrefix(cmds[..n], cmds, es[..n]);
    OneShots(Tell(cfg, site, cmds[..n]).view, cfg, site, cmds[n]);
  }

  function RenamesIn(cmds: seq<Command>, es: seq<Exchange>): nat
    requires |cmds| >= |es|
  {
    if es == [] then 0 else
    RenamesIn(cmds, es[..|es| - 1]) + if Renames(cmds[|es| - 1], es[|es| - 1]) then 1 else 0
  }

  function RenamesLogged(logs: seq<LogLine>): nat {
    if logs == [] then 0 else
    RenamesLogged(logs[..|logs| - 1]) + if logs[|logs| - 1] == LogLine(Rename, true) then 1 else 0
  }

  /** The log records as many renames as there were. */
  lemma {:induction false} EveryRenameIsLogged(cfg: Config, site: Site, cmds: seq<Command>)
    ensures var s := Tell(cfg, site, cmds);
            |s.exchanges| <= |cmds| && RenamesLogged(s.logs) == RenamesIn(cmds, s.exchanges)
  {
    hide Respond, Renames;
    TellLength(cfg, site, cmds);
    if cmds == [] {
    } else {
      var before, c := cmds[..|cmds| - 1], cmds[|cmds| - 1];
      var s, t := Tell(cfg, site, before), Tell(cfg, site, cmds);
      EveryRenameIsLogged(cfg, site, before);
      TellLength(cfg, site, before);
      RenamesInPrefix(before, cmds, s.exchanges);
      OneShots(s.view, cfg, site, c);
      if s.ended.None? && t.ended.None? {
        assert t.exchanges[..|s.exchanges|] == s.exchanges;
        LogsNext(s.logs, Respond(s.view, cfg, site, c).log);
      }
    }
  }

  lemma LogsNext(logs: seq<LogLine>, log: Option<LogLine>)
    ensures RenamesLogged(logs + (if log.Some? then [log.value] else []))
            == RenamesLogged(logs) + if log == Some(LogLine(Rename, true)) then 1 else 0
  {
    if log.Some? {
      assert (logs + [log.value])[..|logs|] == logs;
    } else {
      assert logs + [] == logs;
    }
  }

  lemma {:induction false} RenamesInPrefix(a: seq<Command>, b: seq<Command>, es: seq<Exchange>)
    requires |es| <= |a| <= |b| && b[..|a|] == a
    ensures RenamesIn(a, es) == RenamesIn(b, es)
  {
    if es == [] {
    } else {
      assert a[|es| - 1] == b[|es| - 1];
      RenamesInPrefix(a, b, es[..|es| - 1]);
    }
  }
}
