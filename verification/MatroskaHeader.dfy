/**
 What a reader finds in the header of a recording, element by element, under the IDs of RFC 9559: told by
 search through the tree that was read, with no regard to how the writer builds it.
 */
module MatroskaHeader {
  import opened Basics
  import opened Ebml
  import opened Matroska

  /** The first child with this ID. */
  function Child(n: Node, id: Word): Option<Node> {
    if n.Leaf? then None else First(n.kids, id)
  }

  function First(kids: seq<Node>, id: Word): Option<Node> {
    if kids == [] then None else if kids[0].id == id then Some(kids[0]) else First(kids[1..], id)
  }

  /** The bytes a child element holds. */
  function Bytes(n: Node, id: Word): Option<seq<Byte>> {
    var c :- Child(n, id);
    if c.Leaf? then Some(c.data) else None
  }

  /** The unsigned number a child element holds. */
  function Number(n: Node, id: Word): Option<nat> {
    var b :- Bytes(n, id);
    Some(BigEndian(b))
  }

  /** A signed number as the format stores it. */
  function Stored(v: Int64): nat { v % 0x1_0000_0000_0000_0000 }

  /** The EBML header (section 11.2 of RFC 8794) of a Matroska file of version 2. */
  predicate EbmlSays(ebml: Node) {
    && Number(ebml, 0x4286) == Some(1)
    && Number(ebml, 0x42f7) == Some(1)
    && Number(ebml, 0x42f2) == Some(4)
    && Number(ebml, 0x42f3) == Some(8)
    && Bytes(ebml, 0x4282) == Some([0x6d, 0x61, 0x74, 0x72, 0x6f, 0x73, 0x6b, 0x61])
    && Number(ebml, 0x4287) == Some(2)
    && Number(ebml, 0x4285) == Some(2)
  }

  /** Info (section 5.1.2 of RFC 9559): writing application, timestamp scale, duration. */
  predicate InfoSays(info: Node, h: Header, duration: Bits4) {
    && Bytes(info, 0x4d80) == Some(Ascii("Haali Matroska Writer b0"))
    && Bytes(info, 0x5741) == Some(h.writingApp)
    && Number(info, 0x2ad7b1) == Some(Stored(h.timescale))
    && Bytes(info, 0x4489) == Some(duration)
  }

  /** The track entry (section 5.1.4): track 1 of type video, not laced, with its codec. */
  predicate TrackSays(track: Node, h: Header) {
    && Number(track, 0xd7) == Some(1)
    && Number(track, 0x73c5) == Some(1)
    && Number(track, 0x83) == Some(1)
    && Number(track, 0x9c) == Some(0)
    && Bytes(track, 0x86) == Some(h.codecId)
    && Bytes(track, 0x63a2) == (if h.codecPrivate == [] then None else Some(h.codecPrivate))
    && Number(track, 0x23e383) == (if h.defDuration == 0 then None else Some(Stored(h.defDuration)))
  }

  /** Video (section 5.1.4.1.28): pixel sizes and display sizes. */
  predicate VideoSays(video: Node, h: Header) {
    && Number(video, 0xb0) == Some(h.width)
    && Number(video, 0xba) == Some(h.height)
    && Number(video, 0x54b0) == Some(h.dWidth)
    && Number(video, 0x54ba) == Some(h.dHeight)
    && Number(video, 0x54b2) == Some(Stored(h.displayUnits))
  }

  /** The file is readable, and its header says what it should. */
  predicate FileSays(file: seq<Byte>, h: Header, duration: Bits4) {
    var r := ReadFile(file);
    r.Some? && HeaderSays(r.value, h, duration)
  }

  /** All of the header. */
  predicate HeaderSays(r: Recording, h: Header, duration: Bits4) {
    && r.ebml.id == 0x1a45dfa3 && r.info.id == 0x1549a966 && r.tracks.id == 0x1654ae6b
    && EbmlSays(r.ebml) && InfoSays(r.info, h, duration)
    && var track := Child(r.tracks, 0xae);
       && track.Some? && TrackSays(track.value, h)
       && var video := Child(track.value, 0xe0);
          video.Some? && VideoSays(video.value, h)
  }

  lemma {:induction false} FirstIs(kids: seq<Node>, i: nat)
    requires i < |kids| && forall j | 0 <= j < i :: kids[j].id != kids[i].id
    ensures First(kids, kids[i].id) == Some(kids[i])
  {
    if i == 0 {
    } else {
      FirstIs(kids[1..], i - 1);
    }
  }

  lemma {:induction false} NoneIs(kids: seq<Node>, id: Word)
    requires forall j | 0 <= j < |kids| :: kids[j].id != id
    ensures First(kids, id) == None
  {
    if kids == [] {
    } else {
      NoneIs(kids[1..], id);
    }
  }

  /** Children with different IDs are found by them. */
  predicate Distinct(kids: seq<Node>) {
    forall i, j | 0 <= i < j < |kids| :: kids[i].id != kids[j].id
  }

  lemma Found(id: Word, kids: seq<Node>)
    requires Distinct(kids)
    ensures forall i | 0 <= i < |kids| ::
              && Child(Master(id, kids), kids[i].id) == Some(kids[i])
              && (kids[i].Leaf? ==> Bytes(Master(id, kids), kids[i].id) == Some(kids[i].data)
                                    && Number(Master(id, kids), kids[i].id) == Some(BigEndian(kids[i].data)))
    ensures forall x: Word | (forall j | 0 <= j < |kids| :: kids[j].id != x) :: Child(Master(id, kids), x) == None
  {
    forall i | 0 <= i < |kids| ensures First(kids, kids[i].id) == Some(kids[i]) {
      FirstIs(kids, i);
    }
    forall x: Word | forall j | 0 <= j < |kids| :: kids[j].id != x ensures First(kids, x) == None {
      NoneIs(kids, x);
    }
  }

  lemma UintReads(id: Word, v: Int64)
    ensures BigEndian(Uint(id, v).data) == Stored(v)
    ensures 0 <= v ==> Stored(v) == v
  {
    UintRoundTrip(v);
  }

  lemma EbmlRight()
    ensures EbmlSays(EbmlNode(FIXED))
  {
    hide Child, EncodeUint, BigEndian;
    var kids := EbmlKids(FIXED);
    Found(EBML_ID, kids);
    UintReads(0x4286, 1);
    UintReads(0x42f2, 4);
    UintReads(0x42f3, 8);
    UintReads(0x4287, 2);
    assert kids[0] == Uint(0x4286, 1) && kids[1] == Uint(0x42f7, 1) && kids[2] == Uint(0x42f2, 4);
    assert kids[3] == Uint(0x42f3, 8) && kids[5] == Uint(0x4287, 2) && kids[6] == Uint(0x4285, 2);
    assert kids[4] == Leaf(0x4282, Ascii("matroska"));
    assert Ascii("matroska") == [0x6d, 0x61, 0x74, 0x72, 0x6f, 0x73, 0x6b, 0x61];
  }

  lemma InfoRight(h: Header, duration: Bits4)
    requires h.fixed == FIXED
    ensures InfoSays(InfoNode(h, duration), h, duration)
  {
    hide Child, EncodeUint, BigEndian;
    var kids := InfoKids(h, duration);
    Found(INFO_ID, kids);
    UintReads(0x2ad7b1, h.timescale);
    assert kids[0] == Leaf(0x4d80, h.fixed.muxingApp) && kids[1] == Leaf(0x5741, h.writingApp);
    assert kids[2] == Uint(0x2ad7b1, h.timescale) && kids[3] == Leaf(0x4489, duration);
  }

  lemma VideoRight(h: Header)
    ensures VideoSays(Master(VIDEO_ID, VideoKids(h)), h)
  {
    hide Child, EncodeUint, BigEndian;
    var kids := VideoKids(h);
    Found(VIDEO_ID, kids);
    UintReads(0xb0, h.width);
    UintReads(0xba, h.height);
    UintReads(0x54b2, h.displayUnits);
    UintReads(0x54b0, h.dWidth);
    UintReads(0x54ba, h.dHeight);
    assert kids[0] == Uint(0xb0, h.width) && kids[1] == Uint(0xba, h.height) && kids[2] == Uint(0x54b2, h.displayUnits);
    assert kids[3] == Uint(0x54b0, h.dWidth) && kids[4] == Uint(0x54ba, h.dHeight);
  }

  lemma TrackRight(h: Header)
    requires h.fixed == FIXED
    ensures var track := Master(TRACK_ENTRY_ID, TrackKids(h));
            TrackSays(track, h) && Child(track, 0xe0) == Some(Master(VIDEO_ID, VideoKids(h)))
  {
    hide Child, EncodeUint, BigEndian, VideoKids;
    var kids := TrackKids(h);
    Found(TRACK_ENTRY_ID, kids);
    UintReads(0xd7, 1);
    UintReads(0x9c, 0);
    UintReads(0x23e383, h.defDuration);
    assert kids[0] == Uint(0xd7, 1) && kids[1] == Uint(0x73c5, 1) && kids[2] == Uint(0x83, 1) && kids[3] == Uint(0x9c, 0);
    assert kids[4] == Leaf(0x86, h.codecId);
    assert h.codecPrivate != [] ==> kids[5] == Leaf(0x63a2, h.codecPrivate);
    assert h.defDuration != 0 ==> kids[|kids| - 2] == Uint(0x23e383, h.defDuration);
    assert kids[|kids| - 1] == Master(VIDEO_ID, VideoKids(h));
  }

  /** The writer's header, read back, says all that. */
  lemma HeaderRight(h: Header, duration: Bits4, r: Recording)
    requires h.fixed == FIXED
    requires r.ebml == EbmlNode(h.fixed) && r.info == InfoNode(h, duration) && r.tracks == TracksNode(h)
    ensures HeaderSays(r, h, duration)
  {
    hide EbmlSays, InfoSays, TrackSays, VideoSays;
    var track := Master(TRACK_ENTRY_ID, TrackKids(h));
    EbmlRight();
    InfoRight(h, duration);
    TrackRight(h);
    VideoRight(h);
    FirstIs([track], 0);
  }
}
