/**
 What mk_flush_frame and mk_close_cluster do to the file and the open cluster, as a function of
 the frame, and why the result still stands for exactly the frames recorded.
 */
module MatroskaMux {
  import opened Basics
  import opened Ebml
  import opened Matroska
  import opened MatroskaContext

  /** A new cluster is started once the open one holds more than this many bytes. */
  const CLSIZE: int := 1048576

  function Quotient(a: nat, b: nat): (q: nat)
    requires b > 0
    ensures q <= a
    decreases a
  {
    if a < b then 0 else 1 + Quotient(a - b, b)
  }

  /** Quotient is division: the remainder lies between zero and the divisor. */
  lemma {:induction false} QuotientIsDivision(a: nat, b: nat)
    requires b > 0
    ensures Quotient(a, b) * b <= a < Quotient(a, b) * b + b
    decreases a
  {
    if a < b {
    } else {
      var q := Quotient(a - b, b);
      QuotientIsDivision(a - b, b);
      assert (1 + q) * b == b + q * b;
    }
  }

  /** C integer division by a positive divisor: truncation toward zero. */
  function TruncDiv(a: int, b: int): (q: int)
    requires b > 0
    ensures (0 <= a ==> 0 <= q <= a) && (a <= 0 ==> a <= q <= 0)
  {
    if a >= 0 then Quotient(a, b) else -(Quotient(-a, b) as int)
  }

  /** The timescale a caller may set: the muxer divides by it. */
  type Scale = x: Int64 | x > 0 witness 1

  /** A frame as the caller hands it over. */
  datatype Frame = Frame(timestamp: Int64, key: bool, discardable: bool, data: seq<Byte>)

  function Ticks(f: Frame, timescale: Scale): Int64 {
    TruncDiv(f.timestamp, timescale)
  }

  /** What a reader should see of the frames: timestamps in timescale units. */
  function TimedAll(fs: seq<Frame>, timescale: Scale): (r: seq<TimedFrame>)
    ensures |r| == |fs|
  {
    if fs == [] then []
    else TimedAll(Init(fs), timescale)
         + [TimedFrame(Ticks(Last(fs), timescale), Last(fs).key, Last(fs).discardable, Last(fs).data)]
  }

  /** Frame by frame: its own flags and data, and its timestamp divided by the scale, toward zero. */
  lemma {:induction false} TimedAt(fs: seq<Frame>, timescale: Scale, i: nat)
    requires i < |fs|
    ensures var t, f := TimedAll(fs, timescale)[i], fs[i];
            && t.key == f.key && t.discardable == f.discardable && t.data == f.data
            && (f.timestamp >= 0 ==> t.time * timescale <= f.timestamp < t.time * timescale + timescale)
            && (f.timestamp <= 0 ==> t.time * timescale - timescale < f.timestamp <= t.time * timescale)
  {
    if i == |fs| - 1 {
      var x: int := fs[i].timestamp;
      var n: nat := if x >= 0 then x else -x;
      QuotientIsDivision(n, timescale);
      Negated(Quotient(n, timescale), timescale);
      assert Quotient(0, timescale) == 0;
    } else {
      TimedAt(Init(fs), timescale, i);
    }
  }

  lemma Negated(q: int, b: int)
    ensures (-q) * b == -(q * b)
  {
  }

  /** The part of the writer that frames change: what is in the file, the open cluster's bytes, its timecode. */
  datatype Mux = Mux(file: seq<Byte>, cluster: Option<seq<Byte>>, tc: Int64)

  function CloseMux(m: Mux): Mux {
    match m.cluster
    case None => m
    case Some(b) => Mux(m.file + if |b| < WORD then Tag(CLUSTER_ID, |b|) + b else b, None, m.tc)
  }

  function OpenMux(m: Mux, now: Int64): Mux {
    Mux(m.file, Some(Serialize([Uint(0xe7, now)])), now)
  }

  function BlockMux(m: Mux, delta: Int16, f: Frame): Mux
    requires m.cluster.Some? && |f.data| + 4 <= MAX_BUFFER
  {
    m.(cluster := Some(m.cluster.value + BlockLead(delta, f.key, f.discardable, |f.data|) + f.data))
  }

  function LimitMux(m: Mux): Mux {
    if m.cluster.Some? && |m.cluster.value| > CLSIZE then CloseMux(m) else m
  }

  function NearMux(m: Mux, now: Int64): Mux {
    if Delta16(now - m.tc) then m else CloseMux(m)
  }

  /** An open cluster whose timecode is close enough for a 16-bit delta. */
  function ReadyMux(m: Mux, now: Int64): (r: Mux)
    ensures r.cluster.Some? && Delta16(now - r.tc)
  {
    if NearMux(m, now).cluster.Some? then NearMux(m, now) else OpenMux(NearMux(m, now), now)
  }

  /** A frame at this time goes to a new cluster, either because none is open or because the open one is too far. */
  predicate Opens(m: Mux, now: Int64) {
    NearMux(m, now).cluster.None?
  }

  /** mk_flush_frame on a pending frame. */
  function FlushMux(m: Mux, f: Frame, timescale: Scale): Mux
    requires |f.data| + 4 <= MAX_BUFFER
  {
    var r := ReadyMux(m, Ticks(f, timescale));
    LimitMux(BlockMux(r, Ticks(f, timescale) - r.tc, f))
  }

  predicate Fits(size: nat) { size + CLSIZE + 64 <= MAX_BUFFER }

  predicate AllFit(fs: seq<Frame>) {
    fs == [] || (AllFit(Init(fs)) && Fits(|Last(fs).data|))
  }

  /**
   Clusters are split only where they must be: a frame joins the open cluster if its time is within 16 bits
   of that cluster's; the cluster is closed after it only when it has outgrown the limit.
   */
  lemma SplitOnlyWhenNeeded(m: Mux, f: Frame, timescale: Scale)
    requires |f.data| + 4 <= MAX_BUFFER
    ensures var now, r := Ticks(f, timescale), FlushMux(m, f, timescale);
            var joins := m.cluster.Some? && -0x8000 <= now - m.tc <= 0x7fff;
            && r.tc == (if joins then m.tc else now)
            && (joins && r.cluster.Some? ==> r.file == m.file)
            && (r.cluster.None? ==> |r.file| > |m.file| + 1048576)
            && (r.cluster.Some? ==> |r.cluster.value| <= 1048576)
  {
  }

  /** The state after a header and these frames. */
  function RunMux(head: seq<Byte>, fs: seq<Frame>, timescale: Scale): Mux
    requires AllFit(fs)
  {
    if fs == [] then Mux(head, None, 0) else FlushMux(RunMux(head, Init(fs), timescale), Last(fs), timescale)
  }

  /** A frame at this time does not start a cluster before zero. */
  predicate TurnsUp(m: Mux, now: Int64) {
    Opens(m, now) ==> now >= 0
  }

  /** No frame that goes to a new cluster has a negative time. */
  predicate Upright(fs: seq<Frame>, timescale: Scale)
    requires AllFit(fs)
  {
    fs == [] ||
    (Upright(Init(fs), timescale) && TurnsUp(RunMux([], Init(fs), timescale), Ticks(Last(fs), timescale)))
  }

  /** Which cluster a frame goes to does not depend on what is in the file. */
  lemma {:induction false} HeadApart(head: seq<Byte>, fs: seq<Frame>, timescale: Scale)
    requires AllFit(fs)
    ensures RunMux(head, fs, timescale).cluster == RunMux([], fs, timescale).cluster
    ensures RunMux(head, fs, timescale).tc == RunMux([], fs, timescale).tc
  {
    if fs == [] {
    } else {
      HeadApart(head, Init(fs), timescale);
      FlushApart(RunMux(head, Init(fs), timescale), RunMux([], Init(fs), timescale), Last(fs), timescale);
    }
  }

  lemma OpensApart(m: Mux, n: Mux, now: Int64)
    requires m.cluster == n.cluster && m.tc == n.tc
    ensures TurnsUp(m, now) == TurnsUp(n, now)
  {
  }

  lemma FlushApart(m: Mux, n: Mux, f: Frame, timescale: Scale)
    requires m.cluster == n.cluster && m.tc == n.tc && |f.data| + 4 <= MAX_BUFFER
    ensures FlushMux(m, f, timescale).cluster == FlushMux(n, f, timescale).cluster
    ensures FlushMux(m, f, timescale).tc == FlushMux(n, f, timescale).tc
  {
  }

  /** A sufficient condition on the timestamps alone. */
  lemma {:induction false} NotNegativeUpright(fs: seq<Frame>, timescale: Scale)
    requires AllFit(fs) && NotNegative(fs)
    ensures Upright(fs, timescale)
  {
    if fs == [] {
    } else {
      NotNegativeUpright(Init(fs), timescale);
    }
  }

  /** It is not necessary: a negative time in a cluster that starts at zero reads back as it should. */
  lemma NegativeInside()
    ensures var fs := [Frame(0, true, false, []), Frame(-1, false, false, [])];
            AllFit(fs) && !NotNegative(fs) && Upright(fs, 1)
  {
    var first, second := Frame(0, true, false, []), Frame(-1, false, false, []);
    assert [first, second] == [first] + [second];
    assert [first] == [] + [first];
    var m := RunMux([], [], 1);
    RunOneMore([], [], first, 1);
    RunOneMore([], [first], second, 1);
    OpenedEmpty(0);
    var r := ReadyMux(m, 0);
    assert |BlockMux(r, 0, first).cluster.value| <= CLSIZE;
    assert Init([first, second]) == [first] && Init([first]) == [];
    assert !Opens(RunMux([], [first], 1), -1);
  }

  /** Where the condition fails: one frame, before zero. */
  lemma NegativeFirst()
    ensures AllFit([Frame(-1, true, false, [])]) && !Upright([Frame(-1, true, false, [])], 1)
  {
    var fs := [Frame(-1, true, false, [])];
    assert Init(fs) == [] && AllFit(Init(fs));
    assert Quotient(1, 1) == 1 by { assert Quotient(0, 1) == 0; }
  }

  lemma RunOneMore(head: seq<Byte>, fs: seq<Frame>, f: Frame, timescale: Scale)
    requires AllFit(fs) && Fits(|f.data|)
    ensures AllFit(fs + [f])
    ensures RunMux(head, fs + [f], timescale) == FlushMux(RunMux(head, fs, timescale), f, timescale)
  {
    assert Init(fs + [f]) == fs && Last(fs + [f]) == f;
  }

  // ---------------------------------------------------------------- what a state stands for

  function Joined(closed: seq<Cluster>, current: Option<Cluster>): seq<Cluster> {
    if current.Some? then closed + [current.value] else closed
  }

  predicate NotNegative(fs: seq<Frame>) {
    fs == [] || (NotNegative(Init(fs)) && Last(fs).timestamp >= 0)
  }

  /** The clusters mean exactly the frames, and upright says whether they all start at zero or later. */
  ghost predicate Represents(cs: seq<Cluster>, fs: seq<Frame>, timescale: Scale, upright: bool) {
    && MeantFrames(cs) == TimedAll(fs, timescale)
    && NoneEmpty(cs)
    && (NoneStartsNegative(cs) <==> upright)
  }

  /** The open cluster's bytes are c, element by element. */
  ghost predicate Opened(bytes: seq<Byte>, tc: Int64, c: Cluster) {
    bytes == Serialize(ClusterKids(c)) && c.tc == tc
  }

  /**
   What has been recorded: clusters in the file, the open one, the frames they came from, and
   whether no cluster starts before zero.
   */
  datatype Log = Log(closed: seq<Cluster>, current: Option<Cluster>, frames: seq<Frame>, upright: bool)

  /** The state is the header `head`, the closed clusters and the open one, and they mean the frames. */
  ghost predicate Tracks(m: Mux, head: seq<Byte>, log: Log, timescale: Scale) {
    && m.file == head + Serialize(ClusterNodes(log.closed))
    && ClustersOk(log.closed)
    && (if m.cluster.Some? then log.current.Some? && Opened(m.cluster.value, m.tc, log.current.value) else log.current.None?)
    && Represents(Joined(log.closed, log.current), log.frames, timescale, log.upright)
  }

  lemma NothingTracked(head: seq<Byte>, tc: Int64, timescale: Scale)
    ensures Tracks(Mux(head, None, tc), head, Log([], None, [], true), timescale)
  {
    assert head + Serialize(ClusterNodes([])) == head;
  }

  ghost function ClosedLog(log: Log): Log {
    if log.current.Some? then Log(log.closed + [log.current.value], None, log.frames, log.upright) else log
  }

  /** Closing the open cluster extends the file by exactly its element and changes no frame. */
  lemma CloseTracks(m: Mux, head: seq<Byte>, log: Log, timescale: Scale)
    requires Tracks(m, head, log, timescale) && (m.cluster.Some? ==> |m.cluster.value| <= MAX_BUFFER)
    ensures Tracks(CloseMux(m), head, ClosedLog(log), timescale)
  {
    if m.cluster.Some? {
      var c, all := log.current.value, log.closed + [log.current.value];
      assert Init(all) == log.closed && Last(all) == c;
      SerializeConcat(ClusterNodes(log.closed), [ClusterNode(c)]);
      SerializeOne(ClusterNode(c));
      Regroup(head, Serialize(ClusterNodes(log.closed)), Element(ClusterNode(c)));
    }
  }

  lemma RegroupTimes(a: seq<TimedFrame>, b: seq<TimedFrame>, c: seq<TimedFrame>)
    ensures a + (b + c) == a + b + c && (b == [] ==> a + b == a)
  {
  }

  /** A block on a cluster, new or not, stands for one more frame. */
  lemma BlockRepresents(closed: seq<Cluster>, current: Option<Cluster>, c: Cluster, b: Block,
                        fs: seq<Frame>, f: Frame, timescale: Scale, upright: bool)
    requires Represents(Joined(closed, current), fs, timescale, upright)
    requires current == if c.blocks == [] then None else Some(c)
    requires c.tc + b.delta == Ticks(f, timescale) && (c.blocks == [] ==> b.delta == 0)
    requires b.key == f.key && b.discardable == f.discardable && b.data == f.data
    ensures Represents(closed + [c.(blocks := c.blocks + [b])], fs + [f], timescale,
                       upright && (c.blocks == [] ==> c.tc >= 0))
  {
    hide MeantFrames, BlockTimes, TimedAll, NoneEmpty, NoneStartsNegative;
    MeantSnoc(closed, c, b);
    MeantJoined(closed, current, c);
    TimedOneMore(fs, f, timescale);
    SplitLast(closed, c.(blocks := c.blocks + [b]));
    SplitLast(closed, c);
  }

  lemma TimedOneMore(fs: seq<Frame>, f: Frame, timescale: Scale)
    ensures TimedAll(fs + [f], timescale) ==
            TimedAll(fs, timescale) + [TimedFrame(Ticks(f, timescale), f.key, f.discardable, f.data)]
  {
    assert Init(fs + [f]) == fs && Last(fs + [f]) == f;
  }

  lemma SplitLast(closed: seq<Cluster>, c: Cluster)
    ensures NoneEmpty(closed + [c]) <==> NoneEmpty(closed) && c.blocks != []
    ensures NoneStartsNegative(closed + [c]) <==> NoneStartsNegative(closed) && c.tc >= 0
  {
    assert Init(closed + [c]) == closed && Last(closed + [c]) == c;
  }

  lemma MeantSnoc(closed: seq<Cluster>, c: Cluster, b: Block)
    ensures MeantFrames(closed + [c.(blocks := c.blocks + [b])]) ==
            MeantFrames(closed) + BlockTimes(c.tc, c.blocks) + [BlockTime(c.tc, b)]
  {
    var c' := c.(blocks := c.blocks + [b]);
    var all := closed + [c'];
    assert Init(c'.blocks) == c.blocks && Last(c'.blocks) == b;
    assert Init(all) == closed && Last(all) == c';
    RegroupTimes(MeantFrames(closed), BlockTimes(c.tc, c.blocks), [BlockTime(c.tc, b)]);
  }

  lemma MeantJoined(closed: seq<Cluster>, current: Option<Cluster>, c: Cluster)
    requires current == if c.blocks == [] then None else Some(c)
    ensures MeantFrames(Joined(closed, current)) == MeantFrames(closed) + BlockTimes(c.tc, c.blocks)
  {
    var cs := Joined(closed, current);
    if current.Some? {
      assert Init(cs) == closed && Last(cs) == c;
    } else {
      assert MeantFrames(closed) + [] == MeantFrames(closed);
    }
  }

  lemma OpenedBlock(bytes: seq<Byte>, tc: Int64, c: Cluster, b: Block)
    requires Opened(bytes, tc, c) && |b.data| + 4 <= MAX_BUFFER
    ensures Opened(bytes + BlockLead(b.delta, b.key, b.discardable, |b.data|) + b.data, tc, c.(blocks := c.blocks + [b]))
  {
    AddBlock(c, b);
  }

  lemma OpenedEmpty(now: Int64)
    ensures Opened(Serialize([Uint(0xe7, now)]), now, Cluster(now, []))
    ensures |Serialize([Uint(0xe7, now)])| <= 10
  {
    assert ClusterKids(Cluster(now, [])) == [Uint(0xe7, now)];
    SerializeOne(Uint(0xe7, now));
  }

  /** The state is ready for a block on c, the open cluster or one that has no block yet. */
  ghost predicate ReadyFor(m: Mux, head: seq<Byte>, log: Log, c: Cluster, timescale: Scale) {
    && m.cluster.Some? && Opened(m.cluster.value, m.tc, c)
    && log.current == (if c.blocks == [] then None else Some(c))
    && m.file == head + Serialize(ClusterNodes(log.closed)) && ClustersOk(log.closed)
    && Represents(Joined(log.closed, log.current), log.frames, timescale, log.upright)
  }

  /** A block on the open cluster: the state keeps its meaning, with that frame added at the end. */
  lemma BlockTracks(m: Mux, head: seq<Byte>, log: Log, c: Cluster, delta: Int16, f: Frame, timescale: Scale)
    returns (log': Log)
    requires ReadyFor(m, head, log, c, timescale) && (c.blocks == [] ==> delta == 0)
    requires m.tc + delta == Ticks(f, timescale) && |f.data| + 4 <= MAX_BUFFER
    ensures Tracks(BlockMux(m, delta, f), head, log', timescale)
    ensures log'.frames == log.frames + [f]
    ensures log'.upright == (log.upright && (c.blocks == [] ==> m.tc >= 0))
    ensures |BlockMux(m, delta, f).cluster.value| <= |m.cluster.value| + 13 + |f.data|
  {
    var b := Block(delta, f.key, f.discardable, f.data);
    var c' := c.(blocks := c.blocks + [b]);
    log' := Log(log.closed, Some(c'), log.frames + [f], log.upright && (c.blocks == [] ==> m.tc >= 0));
    OpenedBlock(m.cluster.value, m.tc, c, b);
    BlockRepresents(log.closed, log.current, c, b, log.frames, f, timescale, log.upright);
  }

  lemma LimitTracks(m: Mux, head: seq<Byte>, log: Log, timescale: Scale) returns (log': Log)
    requires Tracks(m, head, log, timescale) && (m.cluster.Some? ==> |m.cluster.value| <= MAX_BUFFER)
    ensures Tracks(LimitMux(m), head, log', timescale) && log'.frames == log.frames && log'.upright == log.upright
    ensures LimitMux(m).cluster.Some? ==> |LimitMux(m).cluster.value| <= CLSIZE
  {
    hide Tracks;
    log' := log;
    if m.cluster.Some? && |m.cluster.value| > CLSIZE {
      CloseTracks(m, head, log, timescale);
      log' := ClosedLog(log);
    }
  }

  lemma NearTracks(m: Mux, head: seq<Byte>, log: Log, now: Int64, timescale: Scale) returns (log': Log)
    requires Tracks(m, head, log, timescale) && (m.cluster.Some? ==> |m.cluster.value| <= CLSIZE)
    ensures Tracks(NearMux(m, now), head, log', timescale) && log'.frames == log.frames && log'.upright == log.upright
  {
    hide Tracks, CloseMux;
    log' := log;
    if !Delta16(now - m.tc) {
      CloseTracks(m, head, log, timescale);
      log' := ClosedLog(log);
    }
  }

  lemma ReadyTracks(m: Mux, head: seq<Byte>, log: Log, now: Int64, timescale: Scale) returns (log': Log, c: Cluster)
    requires Tracks(m, head, log, timescale) && (m.cluster.Some? ==> |m.cluster.value| <= CLSIZE)
    ensures ReadyFor(ReadyMux(m, now), head, log', c, timescale) && log'.frames == log.frames && log'.upright == log.upright
    ensures (c.blocks == [] <==> Opens(m, now)) && (Opens(m, now) ==> ReadyMux(m, now).tc == now)
    ensures |ReadyMux(m, now).cluster.value| <= CLSIZE
  {
    log' := NearTracks(m, head, log, now, timescale);
    OpenedEmpty(now);
    c := Cluster(now, []);
    if log'.current.Some? {
      c := log'.current.value;
      assert Last(Joined(log'.closed, log'.current)) == c;
    }
  }

  /** Up to the size limit, one more frame. */
  lemma BlockedTracks(m: Mux, head: seq<Byte>, log: Log, f: Frame, timescale: Scale) returns (log': Log)
    requires Tracks(m, head, log, timescale)
    requires m.cluster.Some? ==> |m.cluster.value| <= CLSIZE
    requires Fits(|f.data|)
    ensures var r := ReadyMux(m, Ticks(f, timescale));
            var b := BlockMux(r, Ticks(f, timescale) - r.tc, f);
            Tracks(b, head, log', timescale) && |b.cluster.value| <= MAX_BUFFER
    ensures log'.frames == log.frames + [f]
    ensures log'.upright == (log.upright && TurnsUp(m, Ticks(f, timescale)))
  {
    hide Tracks, ReadyFor, ReadyMux;
    var now := Ticks(f, timescale);
    var r := ReadyMux(m, now);
    var rlog, c := ReadyTracks(m, head, log, now, timescale);
    log' := BlockTracks(r, head, rlog, c, now - r.tc, f, timescale);
  }

  /** One flushed frame: the state keeps its meaning, with that frame added at the end. */
  lemma FlushTracks(m: Mux, head: seq<Byte>, log: Log, f: Frame, timescale: Scale) returns (log': Log)
    requires Tracks(m, head, log, timescale)
    requires m.cluster.Some? ==> |m.cluster.value| <= CLSIZE
    requires Fits(|f.data|)
    ensures Tracks(FlushMux(m, f, timescale), head, log', timescale)
    ensures log'.frames == log.frames + [f]
    ensures log'.upright == (log.upright && TurnsUp(m, Ticks(f, timescale)))
    ensures var m' := FlushMux(m, f, timescale); m'.cluster.Some? ==> |m'.cluster.value| <= CLSIZE
  {
    hide Tracks, BlockMux, ReadyMux, LimitMux, TurnsUp;
    var blog := BlockedTracks(m, head, log, f, timescale);
    var r := ReadyMux(m, Ticks(f, timescale));
    log' := LimitTracks(BlockMux(r, Ticks(f, timescale) - r.tc, f), head, blog, timescale);
  }

  /** Every run's state means exactly the frames of the run, and keeps its open cluster within the limit. */
  lemma {:induction false} RunTracks(head: seq<Byte>, fs: seq<Frame>, timescale: Scale) returns (log: Log)
    requires AllFit(fs)
    ensures Tracks(RunMux(head, fs, timescale), head, log, timescale) && log.frames == fs
    ensures log.upright == Upright(fs, timescale)
    ensures var m := RunMux(head, fs, timescale); m.cluster.Some? ==> |m.cluster.value| <= CLSIZE
  {
    hide Tracks, FlushMux, NearMux;
    if fs == [] {
      NothingTracked(head, 0, timescale);
      log := Log([], None, [], true);
    } else {
      var before := RunTracks(head, Init(fs), timescale);
      log := FlushTracks(RunMux(head, Init(fs), timescale), head, before, Last(fs), timescale);
      assert Init(fs) + [Last(fs)] == fs;
      HeadApart(head, Init(fs), timescale);
      OpensApart(RunMux(head, Init(fs), timescale), RunMux([], Init(fs), timescale), Ticks(Last(fs), timescale));
    }
  }

  /**
   A state with no open cluster is a readable file: the frames come back as recorded, in order,
   and at their own times exactly when no cluster starts before zero.
   */
  lemma TrackedReadsBack(m: Mux, h: Header, duration: Bits4, log: Log, timescale: Scale)
    requires HeaderFits(h) && log.current.None?
    requires Tracks(m, HeaderBytes(h, duration), log, timescale)
    ensures ReadFile(m.file) ==
            Some(Recording(EbmlNode(h.fixed), InfoNode(h, duration), TracksNode(h), StoredFrames(log.closed)))
    ensures Untimed(StoredFrames(log.closed)) == Untimed(TimedAll(log.frames, timescale))
    ensures StoredFrames(log.closed) == TimedAll(log.frames, timescale) <==> log.upright
  {
    ReadBack(h, duration, log.closed);
    TimesExact(log.closed);
    UntimedStored(log.closed);
  }
}
