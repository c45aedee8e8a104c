/**
 The Matroska file the muxer is meant to produce: its header tree, its clusters and
 SimpleBlocks (RFC 9559, sections 5.1 and 10.2), and a reader that recovers the frames from
 the bytes.  `ReadBack` is the round trip for whole files.
 */
module Matroska {
  import opened Basics
  import opened Ebml

  // ---------------------------------------------------------------- header

  type Bits4 = s: seq<Byte> | |s| == 4 witness [0, 0, 0, 0]

  /** The values mk_write_header writes whatever its arguments. */
  datatype Fixed = Fixed(ebmlVersion: Int64, ebmlReadVersion: Int64, maxIdLength: Int64, maxSizeLength: Int64,
                         docType: seq<Byte>, docTypeVersion: Int64, docTypeReadVersion: Int64,
                         muxingApp: seq<Byte>, trackNumber: Int64, trackUid: Int64, trackType: Int64, lacing: Int64)

  const FIXED: Fixed := Fixed(1, 1, 4, 8, Ascii("matroska"), 2, 2, Ascii("Haali Matroska Writer b0"), 1, 1, 1, 0)

  /** The arguments of mk_write_header next to those values; strings are the bytes before the NUL. */
  datatype Header = Header(fixed: Fixed, writingApp: seq<Byte>, codecId: seq<Byte>, codecPrivate: seq<Byte>,
                           defDuration: Int64, timescale: Int64,
                           width: Word, height: Word, dWidth: Word, dHeight: Word, displayUnits: Int64)

  function Ascii(s: string): (r: seq<Byte>)
    ensures |r| == |s|
  {
    seq(|s|, i requires 0 <= i < |s| => s[i] as int % 0x100)
  }

  function Uint(id: Word, v: Int64): Node {
    Leaf(id, EncodeUint(v))
  }

  function EbmlKids(f: Fixed): (r: seq<Node>)
    ensures |r| == 7
  {
    [Uint(0x4286, f.ebmlVersion), Uint(0x42f7, f.ebmlReadVersion), Uint(0x42f2, f.maxIdLength),
     Uint(0x42f3, f.maxSizeLength), Leaf(0x4282, f.docType),
     Uint(0x4287, f.docTypeVersion), Uint(0x4285, f.docTypeReadVersion)]
  }

  function InfoLeaves(h: Header): (r: seq<Node>)
    ensures |r| == 3
  {
    [Leaf(0x4d80, h.fixed.muxingApp), Leaf(0x5741, h.writingApp), Uint(0x2ad7b1, h.timescale)]
  }

  function InfoKids(h: Header, duration: Bits4): (r: seq<Node>)
    ensures |r| == 4
  {
    InfoLeaves(h) + [Leaf(0x4489, duration)]
  }

  function VideoKids(h: Header): (r: seq<Node>)
    ensures |r| == 5
  {
    [Uint(0xb0, h.width), Uint(0xba, h.height), Uint(0x54b2, h.displayUnits),
     Uint(0x54b0, h.dWidth), Uint(0x54ba, h.dHeight)]
  }

  /** The leaves of the track entry; CodecPrivate and DefaultDuration only when present. */
  function TrackLeaves(h: Header): (r: seq<Node>)
    ensures 5 <= |r| <= 7
  {
    [Uint(0xd7, h.fixed.trackNumber), Uint(0x73c5, h.fixed.trackUid), Uint(0x83, h.fixed.trackType),
     Uint(0x9c, h.fixed.lacing), Leaf(0x86, h.codecId)]
    + (if h.codecPrivate != [] then [Leaf(0x63a2, h.codecPrivate)] else [])
    + (if h.defDuration != 0 then [Uint(0x23e383, h.defDuration)] else [])
  }

  function TrackKids(h: Header): seq<Node> {
    TrackLeaves(h) + [Master(VIDEO_ID, VideoKids(h))]
  }

  function EbmlNode(f: Fixed): Node { Master(EBML_ID, EbmlKids(f)) }

  function InfoNode(h: Header, duration: Bits4): Node { Master(INFO_ID, InfoKids(h, duration)) }

  function TracksNode(h: Header): Node { Master(TRACKS_ID, [Master(TRACK_ENTRY_ID, TrackKids(h))]) }

  const SEGMENT_TAG: seq<Byte> := EncodeId(SEGMENT_ID) + UNKNOWN_SIZE

  function HeaderBytes(h: Header, duration: Bits4): seq<Byte> {
    Element(EbmlNode(h.fixed)) + SEGMENT_TAG + Element(InfoNode(h, duration)) + Element(TracksNode(h))
  }

  /** The largest buffer mk_append_context_data can grow to: beyond it the doubling wraps to zero. */
  const MAX_BUFFER: int := 0x8000_0000

  /** The caller's strings leave room for the rest of the header, which takes less than a thousand bytes. */
  predicate HeaderFits(h: Header) {
    |h.fixed.docType| + |h.fixed.muxingApp| + |h.writingApp| + |h.codecId| + |h.codecPrivate| + 1000 <= MAX_BUFFER
  }

  const ZERO_DURATION: Bits4 := [0, 0, 0, 0]

  /** File offset of the Duration payload. */
  function DurationOffset(h: Header): nat {
    var info := Element(InfoNode(h, ZERO_DURATION));
    if |info| < 4 then 0 else |Element(EbmlNode(h.fixed))| + |SEGMENT_TAG| + |info| - 4
  }

  // ---------------------------------------------------------------- clusters and blocks

  predicate Delta16(delta: int) { -0x8000 <= delta < 0x8000 }

  type Int16 = d: int | Delta16(d)

  /** A SimpleBlock on track 1 with a signed 16-bit timecode relative to its cluster. */
  datatype Block = Block(delta: Int16, key: bool, discardable: bool, data: seq<Byte>)

  datatype Cluster = Cluster(tc: Int64, blocks: seq<Block>)

  function Unsigned16(delta: Int16): nat {
    var d: int := delta;
    assert Delta16(d);
    if d < 0 then d + 0x1_0000 else d
  }

  /** Timecode as 16-bit two's complement, then flags without lacing (RFC 9559, section 10.2). */
  function BlockHead(delta: Int16, key: bool, discardable: bool): (r: seq<Byte>)
    ensures |r| == 3
  {
    Octets(Unsigned16(delta), 2)
    + [(if key then 0x80 else 0) + (if discardable then 1 else 0)]
  }

  function BlockBody(b: Block): seq<Byte> {
    EncodeSize(1) + BlockHead(b.delta, b.key, b.discardable) + b.data
  }

  function BlockNode(b: Block): Node { Leaf(0xa3, BlockBody(b)) }

  function Last<T>(s: seq<T>): T
    requires s != []
  {
    s[|s| - 1]
  }

  function Init<T>(s: seq<T>): seq<T>
    requires s != []
  {
    s[..|s| - 1]
  }

  function BlockNodes(bs: seq<Block>): (r: seq<Node>)
    ensures |r| == |bs|
  {
    if bs == [] then [] else BlockNodes(Init(bs)) + [BlockNode(Last(bs))]
  }

  function ClusterKids(c: Cluster): seq<Node> { [Uint(0xe7, c.tc)] + BlockNodes(c.blocks) }

  function ClusterNode(c: Cluster): Node { Master(CLUSTER_ID, ClusterKids(c)) }

  function ClusterNodes(cs: seq<Cluster>): (r: seq<Node>)
    ensures |r| == |cs|
  {
    if cs == [] then [] else ClusterNodes(Init(cs)) + [ClusterNode(Last(cs))]
  }

  ghost predicate ClusterOk(c: Cluster) {
    |Serialize(ClusterKids(c))| <= MAX_BUFFER
  }

  predicate NoneEmpty(cs: seq<Cluster>) {
    cs == [] || (NoneEmpty(Init(cs)) && Last(cs).blocks != [])
  }

  predicate NoneStartsNegative(cs: seq<Cluster>) {
    cs == [] || (NoneStartsNegative(Init(cs)) && Last(cs).tc >= 0)
  }

  ghost predicate ClustersOk(cs: seq<Cluster>) {
    cs == [] || (ClustersOk(Init(cs)) && ClusterOk(Last(cs)))
  }

  function FileBytes(h: Header, duration: Bits4, cs: seq<Cluster>): seq<Byte> {
    HeaderBytes(h, duration) + Serialize(ClusterNodes(cs))
  }

  // ---------------------------------------------------------------- reading frames back

  /** A frame as a player sees it: time in timescale units, flags and payload. */
  datatype TimedFrame = TimedFrame(time: int, key: bool, discardable: bool, data: seq<Byte>)

  /** SimpleBlock payload (RFC 9559, section 10.2): track number, signed timecode, flags without lacing. */
  function ReadBlock(s: seq<Byte>): Option<Block> {
    var track :- ReadSize(s);
    if track.value != Known(1) || |s| < track.used + 3 then None else
    var t := s[track.used..];
    var raw: int := BigEndian(t[..2]);
    var flags := t[2];
    if raw >= 0x1_0000 then None else
    if flags % 0x80 > 1 then None else
    Some(Block(if raw >= 0x8000 then raw - 0x1_0000 else raw, flags >= 0x80, flags % 2 == 1, t[3..]))
  }

  function ReadTimed(tc: int, n: Node): Option<TimedFrame> {
    if n.Master? || n.id != 0xa3 then None else
    var b :- ReadBlock(n.data);
    Some(TimedFrame(tc + b.delta, b.key, b.discardable, b.data))
  }

  function ReadBlocks(tc: int, ns: seq<Node>): Option<seq<TimedFrame>> {
    if ns == [] then Some([]) else
    var before :- ReadBlocks(tc, Init(ns));
    var b :- ReadTimed(tc, Last(ns));
    Some(before + [b])
  }

  function ReadCluster(n: Node): Option<seq<TimedFrame>> {
    if n.Leaf? || n.id != CLUSTER_ID || n.kids == [] then None else
    var t := n.kids[0];
    if t.Master? || t.id != 0xe7 || |t.data| > 8 then None else
    ReadBlocks(BigEndian(t.data), n.kids[1..])
  }

  function ReadClusters(ns: seq<Node>): Option<seq<TimedFrame>> {
    if ns == [] then Some([]) else
    var before :- ReadClusters(Init(ns));
    var f :- ReadCluster(Last(ns));
    Some(before + f)
  }

  /** What a reader gets out of a file. */
  datatype Recording = Recording(ebml: Node, info: Node, tracks: Node, frames: seq<TimedFrame>)

  function ReadFile(s: seq<Byte>): Option<Recording> {
    var top :- Parse(s);
    if |top| != 2 || top[0].id != EBML_ID || top[1].id != SEGMENT_ID || top[1].Leaf? then None else
    var kids := top[1].kids;
    if |kids| < 2 || kids[0].id != INFO_ID || kids[1].id != TRACKS_ID then None else
    var frames :- ReadClusters(kids[2..]);
    Some(Recording(top[0], kids[0], kids[1], frames))
  }

  // ---------------------------------------------------------------- the frames a cluster list stands for

  function BlockTime(tc: int, b: Block): TimedFrame {
    TimedFrame(tc + b.delta, b.key, b.discardable, b.data)
  }

  function BlockTimes(tc: int, bs: seq<Block>): seq<TimedFrame> {
    if bs == [] then [] else BlockTimes(tc, Init(bs)) + [BlockTime(tc, Last(bs))]
  }

  /** All frames of a cluster list, timecodes read as the unsigned numbers they are stored as. */
  function StoredFrames(cs: seq<Cluster>): seq<TimedFrame> {
    if cs == [] then [] else StoredFrames(Init(cs)) + BlockTimes(Unsigned64(Last(cs).tc), Last(cs).blocks)
  }

  /** The same with timecodes taken at face value: what the encoder meant. */
  function MeantFrames(cs: seq<Cluster>): seq<TimedFrame> {
    if cs == [] then [] else MeantFrames(Init(cs)) + BlockTimes(Last(cs).tc, Last(cs).blocks)
  }

  // ---------------------------------------------------------------- round trips

  /** The head's three octets, read as ReadBlock reads them. */
  lemma HeadRoundTrip(b: Block)
    ensures var head := BlockHead(b.delta, b.key, b.discardable);
            && BigEndian(head[..2]) == Unsigned16(b.delta) < 0x1_0000
            && (BigEndian(head[..2]) >= 0x8000 <==> b.delta < 0)
            && head[2] % 0x80 <= 1 && (head[2] >= 0x80 <==> b.key) && (head[2] % 2 == 1 <==> b.discardable)
  {
    hide BigEndian, Octets;
    Pow256Values();
    assert Delta16(b.delta);
    OctetsBigEndian(Unsigned16(b.delta), 2);
    assert BlockHead(b.delta, b.key, b.discardable)[..2] == Octets(Unsigned16(b.delta), 2);
  }

  lemma BlockRoundTrip(b: Block)
    ensures ReadBlock(BlockBody(b)) == Some(b)
  {
    hide BigEndian, BlockHead, EncodeSize, ReadSize;
    var head := BlockHead(b.delta, b.key, b.discardable);
    var t := head + b.data;
    assert BlockBody(b) == EncodeSize(1) + t;
    SizeRoundTrip(1, t);
    assert BlockBody(b)[|EncodeSize(1)|..] == t;
    assert t[..2] == head[..2] && t[2] == head[2] && t[3..] == b.data;
    HeadRoundTrip(b);
  }

  lemma {:induction false} BlocksRoundTrip(tc: int, bs: seq<Block>)
    ensures ReadBlocks(tc, BlockNodes(bs)) == Some(BlockTimes(tc, bs))
  {
    if bs == [] {
    } else {
      BlocksRoundTrip(tc, Init(bs));
      BlockRoundTrip(Last(bs));
      assert Init(BlockNodes(bs)) == BlockNodes(Init(bs));
    }
  }

  lemma ClusterRoundTrip(c: Cluster)
    requires ClusterOk(c)
    ensures ReadCluster(ClusterNode(c)) == Some(BlockTimes(Unsigned64(c.tc), c.blocks))
  {
    UintRoundTrip(c.tc);
    assert ClusterKids(c)[1..] == BlockNodes(c.blocks);
    BlocksRoundTrip(Unsigned64(c.tc), c.blocks);
  }

  lemma {:induction false} ClustersRoundTrip(cs: seq<Cluster>)
    requires ClustersOk(cs)
    ensures ReadClusters(ClusterNodes(cs)) == Some(StoredFrames(cs))
  {
    if cs == [] {
    } else {
      ClustersRoundTrip(Init(cs));
      ClusterRoundTrip(Last(cs));
      assert Init(ClusterNodes(cs)) == ClusterNodes(Init(cs));
    }
  }

  lemma BlockTimesTell(s: int, t: int, bs: seq<Block>)
    requires bs != []
    ensures |BlockTimes(s, bs)| == |bs|
    ensures BlockTimes(s, bs) == BlockTimes(t, bs) <==> s == t
  {
    assert Last(BlockTimes(s, bs)).time == s + Last(bs).delta;
    assert Last(BlockTimes(t, bs)).time == t + Last(bs).delta;
    BlockTimesLength(s, bs);
  }

  lemma {:induction false} BlockTimesLength(s: int, bs: seq<Block>)
    ensures |BlockTimes(s, bs)| == |bs|
  {
    if bs == [] {
    } else {
      BlockTimesLength(s, Init(bs));
    }
  }

  /**
   Cluster timecodes are stored unsigned.  Readers see the times the encoder meant exactly when
   no cluster starts before zero.
   */
  lemma {:induction false} TimesExact(cs: seq<Cluster>)
    requires NoneEmpty(cs)
    ensures |StoredFrames(cs)| == |MeantFrames(cs)|
    ensures StoredFrames(cs) == MeantFrames(cs) <==> NoneStartsNegative(cs)
  {
    if cs == [] {
    } else {
      var c, a, b := Last(cs), StoredFrames(Init(cs)), MeantFrames(Init(cs));
      TimesExact(Init(cs));
      BlockTimesTell(Unsigned64(c.tc), c.tc, c.blocks);
      BlockTimesLength(c.tc, c.blocks);
      assert StoredFrames(cs)[..|a|] == a && MeantFrames(cs)[..|a|] == b;
      assert StoredFrames(cs)[|a|..] == BlockTimes(Unsigned64(c.tc), c.blocks);
      assert MeantFrames(cs)[|a|..] == BlockTimes(c.tc, c.blocks);
    }
  }

  /** Flags and payloads without the times. */
  function Untimed(fs: seq<TimedFrame>): seq<TimedFrame> {
    if fs == [] then [] else Untimed(Init(fs)) + [Last(fs).(time := 0)]
  }

  lemma {:induction false} UntimedConcat(a: seq<TimedFrame>, b: seq<TimedFrame>)
    ensures Untimed(a + b) == Untimed(a) + Untimed(b)
  {
    if b == [] {
      assert a + b == a;
    } else {
      assert Init(a + b) == a + Init(b) && Last(a + b) == Last(b);
      UntimedConcat(a, Init(b));
    }
  }

  lemma {:induction false} UntimedBlocks(s: int, t: int, bs: seq<Block>)
    ensures Untimed(BlockTimes(s, bs)) == Untimed(BlockTimes(t, bs))
  {
    if bs == [] {
    } else {
      UntimedBlocks(s, t, Init(bs));
      UntimedConcat(BlockTimes(s, Init(bs)), [BlockTime(s, Last(bs))]);
      UntimedConcat(BlockTimes(t, Init(bs)), [BlockTime(t, Last(bs))]);
      assert Untimed([BlockTime(s, Last(bs))]) == Untimed([BlockTime(t, Last(bs))]);
    }
  }

  /** Whatever the timecodes, order, flags and payloads are as meant. */
  lemma {:induction false} UntimedStored(cs: seq<Cluster>)
    ensures Untimed(StoredFrames(cs)) == Untimed(MeantFrames(cs))
  {
    if cs == [] {
    } else {
      var c := Last(cs);
      UntimedStored(Init(cs));
      UntimedBlocks(Unsigned64(c.tc), c.tc, c.blocks);
      UntimedConcat(StoredFrames(Init(cs)), BlockTimes(Unsigned64(c.tc), c.blocks));
      UntimedConcat(MeantFrames(Init(cs)), BlockTimes(c.tc, c.blocks));
    }
  }

  // ---------------------------------------------------------------- well-formedness

  lemma {:induction false} SerializeBounds(ns: seq<Node>, n: Node)
    requires n in ns
    ensures |Element(n)| <= |Serialize(ns)|
    ensures |Body(n)| <= |Element(n)|
  {
    if n == ns[0] {
    } else {
      SerializeBounds(ns[1..], n);
    }
  }

  predicate PlainLeaf(n: Node) { n.Leaf? && ValidId(n.id) && !IsMasterId(n.id) }

  lemma LeavesWf(ns: seq<Node>)
    requires forall n | n in ns :: PlainLeaf(n)
    requires |Serialize(ns)| <= MAX_BUFFER
    ensures forall n | n in ns :: Wf(n)
  {
    forall n | n in ns ensures Wf(n) {
      SerializeBounds(ns, n);
    }
  }

  lemma ClusterWf(c: Cluster)
    requires ClusterOk(c)
    ensures Wf(ClusterNode(c))
  {
    BlockNodesAreLeaves(c.blocks);
    LeavesWf(ClusterKids(c));
  }

  /** The body bytes of a list of elements. */
  function DataSize(ns: seq<Node>): nat {
    if ns == [] then 0 else |Body(ns[0])| + DataSize(ns[1..])
  }

  /** A tag takes at most nine bytes. */
  lemma {:induction false} SerializeSize(ns: seq<Node>)
    ensures |Serialize(ns)| <= 9 * |ns| + DataSize(ns)
  {
    if ns == [] {
    } else {
      SerializeSize(ns[1..]);
    }
  }

  lemma {:induction false} DataConcat(a: seq<Node>, b: seq<Node>)
    ensures DataSize(a + b) == DataSize(a) + DataSize(b)
  {
    if a == [] {
      assert a + b == b;
    } else {
      assert (a + b)[1..] == a[1..] + b;
      DataConcat(a[1..], b);
    }
  }

  lemma {:induction false} SmallData(ns: seq<Node>)
    requires forall n | n in ns :: |Body(n)| <= 8
    ensures DataSize(ns) <= 8 * |ns|
  {
    if ns == [] {
    } else {
      SmallData(ns[1..]);
    }
  }

  /** A long element among short ones. */
  lemma OneLong(a: seq<Node>, n: Node, b: seq<Node>)
    requires forall k | k in a + b :: |Body(k)| <= 8
    ensures DataSize(a + [n] + b) <= 8 * |a| + |Body(n)| + DataSize(b)
    ensures DataSize(a + [n] + b) <= 8 * |a| + |Body(n)| + 8 * |b|
  {
    assert (forall k | k in a :: k in a + b) && (forall k | k in b :: k in a + b);
    DataConcat(a + [n], b);
    DataConcat(a, [n]);
    assert DataSize([n]) == |Body(n)| + DataSize([]);
    SmallData(a);
    SmallData(b);
  }

  lemma EbmlSize(f: Fixed)
    ensures |Element(EbmlNode(f))| <= 120 + |f.docType|
  {
    var k := EbmlKids(f);
    assert k == k[..4] + [k[4]] + k[5..];
    OneLong(k[..4], k[4], k[5..]);
    SerializeSize(k);
  }

  lemma InfoSize(h: Header)
    ensures |Element(InfoNode(h, ZERO_DURATION))| <= 61 + |h.fixed.muxingApp| + |h.writingApp|
  {
    var k := InfoKids(h, ZERO_DURATION);
    assert k == [k[0]] + ([] + [k[1]] + k[2..]);
    OneLong([], k[1], k[2..]);
    DataConcat([k[0]], [] + [k[1]] + k[2..]);
    assert DataSize([k[0]]) == |Body(k[0])| + DataSize([]);
    SerializeSize(k);
  }

  lemma TrackLeavesSize(h: Header)
    ensures DataSize(TrackLeaves(h)) <= 40 + |h.codecId| + |h.codecPrivate|
  {
    var k := TrackLeaves(h);
    var x := k[5..];
    assert k == k[..4] + [k[4]] + x;
    DataConcat(k[..4] + [k[4]], x);
    OneLong(k[..4], k[4], []);
    assert k[..4] + [k[4]] + [] == k[..4] + [k[4]];
    var p := if h.codecPrivate != [] then [Leaf(0x63a2, h.codecPrivate)] else [];
    var d := if h.defDuration != 0 then [Uint(0x23e383, h.defDuration)] else [];
    assert x == p + d;
    DataConcat(p, d);
    assert p != [] ==> DataSize(p) == |h.codecPrivate| + DataSize(p[1..]);
    SmallData(d);
  }

  lemma TracksSize(h: Header)
    ensures |Element(TracksNode(h))| <= 300 + |h.codecId| + |h.codecPrivate|
  {
    var v, e := Master(VIDEO_ID, VideoKids(h)), Master(TRACK_ENTRY_ID, TrackKids(h));
    SmallData(VideoKids(h));
    SerializeSize(VideoKids(h));
    TrackLeavesSize(h);
    DataConcat(TrackLeaves(h), [v]);
    assert DataSize([v]) == |Body(v)| + DataSize([]);
    SerializeSize(TrackKids(h));
    SerializeOne(e);
  }

  lemma HeaderSize(h: Header)
    requires HeaderFits(h)
    ensures |HeaderBytes(h, ZERO_DURATION)| <= MAX_BUFFER
  {
    EbmlSize(h.fixed);
    InfoSize(h);
    TracksSize(h);
  }

  lemma HeaderBytesLength(h: Header, duration: Bits4)
    ensures |HeaderBytes(h, duration)| == |HeaderBytes(h, ZERO_DURATION)|
  {
    InfoLength(h, duration);
    InfoLength(h, ZERO_DURATION);
    SameLength(InfoNode(h, duration), InfoNode(h, ZERO_DURATION));
  }

  lemma SameLength(m: Node, n: Node)
    requires m.id == n.id && |Body(m)| == |Body(n)|
    ensures |Element(m)| == |Element(n)|
  {
  }

  /** Everything in the Info element up to the Duration payload. */
  function InfoLead(h: Header): seq<Byte> {
    Serialize(InfoKids(h, ZERO_DURATION)[..3]) + Tag(0x4489, 4)
  }

  lemma InfoLength(h: Header, duration: Bits4)
    ensures Serialize(InfoKids(h, duration)) == InfoLead(h) + duration
  {
    var k := InfoKids(h, duration);
    assert k == k[..3] + [k[3]] && k[..3] == InfoKids(h, ZERO_DURATION)[..3];
    SerializeConcat(k[..3], [k[3]]);
    SerializeOne(k[3]);
    assert Serialize(k[..3]) + (Tag(0x4489, 4) + duration) == InfoLead(h) + duration;
  }

  lemma MasterWf(n: Node)
    requires n.Master? && ValidId(n.id) && IsMasterId(n.id)
    requires |Element(n)| <= MAX_BUFFER
    requires forall k | k in n.kids :: Wf(k)
    ensures Wf(n)
  {
    SerializeBounds([n], n);
  }

  lemma LeafMasterWf(n: Node)
    requires n.Master? && ValidId(n.id) && IsMasterId(n.id)
    requires |Element(n)| <= MAX_BUFFER
    requires forall k | k in n.kids :: PlainLeaf(k)
    ensures Wf(n)
  {
    SerializeBounds([n], n);
    LeavesWf(n.kids);
  }

  lemma {:induction false} ClustersWf(cs: seq<Cluster>)
    requires ClustersOk(cs)
    ensures forall n | n in ClusterNodes(cs) :: Wf(n)
  {
    if cs == [] {
    } else {
      ClustersWf(Init(cs));
      ClusterWf(Last(cs));
    }
  }

  lemma {:induction false} BlockNodesAreLeaves(bs: seq<Block>)
    ensures forall n | n in BlockNodes(bs) :: n.Leaf? && n.id == 0xa3
  {
    if bs == [] {
    } else {
      BlockNodesAreLeaves(Init(bs));
    }
  }

  /** Size bounds make the nested track entry well formed. */
  lemma NestedWf(leaves: seq<Node>, video: Node, entry: Node, tracks: Node)
    requires video.Master? && video.id == VIDEO_ID
    requires forall k | k in video.kids :: PlainLeaf(k)
    requires forall k | k in leaves :: PlainLeaf(k)
    requires entry == Master(TRACK_ENTRY_ID, leaves + [video]) && tracks == Master(TRACKS_ID, [entry])
    requires |Element(tracks)| <= MAX_BUFFER
    ensures Wf(tracks)
  {
    SerializeBounds([tracks], tracks);
    SerializeBounds([entry], entry);
    forall k | k in entry.kids ensures Wf(k) {
      SerializeBounds(entry.kids, k);
      if k == video {
        LeafMasterWf(video);
      }
    }
    MasterWf(entry);
    MasterWf(tracks);
  }

  lemma EbmlKidsPlain(f: Fixed)
    ensures forall k | k in EbmlKids(f) :: PlainLeaf(k)
  {
  }

  lemma TrackLeavesPlain(h: Header)
    ensures forall k | k in TrackLeaves(h) :: PlainLeaf(k)
  {
  }

  lemma VideoKidsPlain(h: Header)
    ensures forall k | k in VideoKids(h) :: PlainLeaf(k)
  {
  }

  lemma EbmlWf(f: Fixed, n: Node)
    requires n == EbmlNode(f) && |Element(n)| <= MAX_BUFFER
    ensures Wf(n)
  {
    EbmlKidsPlain(f);
    LeafMasterWf(n);
  }

  lemma InfoWf(h: Header, duration: Bits4)
    requires |Element(InfoNode(h, duration))| <= MAX_BUFFER
    ensures Wf(InfoNode(h, duration))
  {
    LeafMasterWf(InfoNode(h, duration));
  }

  lemma TracksWf(h: Header, n: Node)
    requires n == TracksNode(h) && |Element(n)| <= MAX_BUFFER
    ensures Wf(n)
  {
    TrackLeavesPlain(h);
    VideoKidsPlain(h);
    var video := Master(VIDEO_ID, VideoKids(h));
    NestedWf(TrackLeaves(h), video, Master(TRACK_ENTRY_ID, TrackKids(h)), n);
  }

  lemma HeaderWf(h: Header, duration: Bits4)
    requires HeaderFits(h)
    ensures Wf(EbmlNode(h.fixed)) && Wf(InfoNode(h, duration)) && Wf(TracksNode(h))
  {
    HeaderSize(h);
    HeaderBytesLength(h, duration);
    EbmlWf(h.fixed, EbmlNode(h.fixed));
    InfoWf(h, duration);
    TracksWf(h, TracksNode(h));
  }

  lemma ParseShape(ebml: Node, kids: seq<Node>)
    requires Wf(ebml) && IsMasterId(ebml.id) && forall k | k in kids :: Wf(k)
    ensures Parse(Element(ebml) + (SEGMENT_TAG + Serialize(kids))) == Some([ebml, Master(SEGMENT_ID, kids)])
  {
    var seg := SEGMENT_TAG + Serialize(kids);
    ParseSerialized(ebml.kids);
    ParseElementThen(ebml, seg);
    ParseSerialized(kids);
    ParseUnknown(SEGMENT_ID, Serialize(kids));
    assert [ebml] + [Master(SEGMENT_ID, kids)] == [ebml, Master(SEGMENT_ID, kids)];
  }

  /** The round trip for any file of this shape, whatever its header elements hold. */
  lemma ReadBackShape(ebml: Node, info: Node, tracks: Node, cs: seq<Cluster>)
    requires ebml.id == EBML_ID && info.id == INFO_ID && tracks.id == TRACKS_ID
    requires Wf(ebml) && Wf(info) && Wf(tracks)
    requires ClustersOk(cs)
    ensures ReadFile(Element(ebml) + SEGMENT_TAG + Element(info) + Element(tracks) + Serialize(ClusterNodes(cs)))
            == Some(Recording(ebml, info, tracks, StoredFrames(cs)))
  {
    var cl := ClusterNodes(cs);
    var kids := [info, tracks] + cl;
    ClustersWf(cs);
    ParseShape(ebml, kids);
    SegmentBytes(info, tracks, cl);
    RegroupFile(Element(ebml), SEGMENT_TAG, Element(info), Element(tracks), Serialize(cl));
    assert kids[2..] == cl;
    ClustersRoundTrip(cs);
  }

  lemma RegroupFile(a: seq<Byte>, b: seq<Byte>, c: seq<Byte>, d: seq<Byte>, e: seq<Byte>)
    ensures a + b + c + d + e == a + (b + (c + (d + e)))
  {
  }

  lemma SegmentBytes(info: Node, tracks: Node, ns: seq<Node>)
    ensures Serialize([info, tracks] + ns) == Element(info) + (Element(tracks) + Serialize(ns))
  {
    SerializeConcat([info, tracks], ns);
    SerializeConcat([info], [tracks]);
    SerializeOne(info);
    SerializeOne(tracks);
    assert [info] + [tracks] == [info, tracks];
  }

  /**
   Whole-file round trip: the bytes of a header and any list of clusters read back as exactly
   that header tree and exactly the frames of the clusters, in order.
   */
  lemma ReadBack(h: Header, duration: Bits4, cs: seq<Cluster>)
    requires HeaderFits(h)
    requires ClustersOk(cs)
    ensures ReadFile(FileBytes(h, duration, cs)) ==
            Some(Recording(EbmlNode(h.fixed), InfoNode(h, duration), TracksNode(h), StoredFrames(cs)))
  {
    HeaderWf(h, duration);
    ReadBackShape(EbmlNode(h.fixed), InfoNode(h, duration), TracksNode(h), cs);
  }
}
