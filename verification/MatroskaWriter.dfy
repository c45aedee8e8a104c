/** struct mk_writer: the context lists and the public mk_* calls, proved against the file model of `Matroska`. */
module MatroskaWriter {
  import opened Basics
  import opened Ebml
  import opened Matroska
  import opened MatroskaContext
  import opened MatroskaMux

  /** fwrite at a file position: overwrite what is there, extend past the end. */
  function Overwrite(file: seq<Byte>, pos: nat, bytes: seq<Byte>): seq<Byte>
    requires pos <= |file|
  {
    file[..pos] + bytes + if pos + |bytes| <= |file| then file[pos + |bytes|..] else []
  }

  class MkWriter {
    var file: seq<Byte>
    var pos: nat
    var durationPtr: nat
    var root: MkContext?
    var cluster: MkContext?
    var frame: MkContext?
    /** Contexts in use; the C list's order is never looked at. */
    var actlist: set<MkContext>
    /** Contexts to recycle; they are interchangeable, so the C list's order is not kept. */
    var freelist: set<MkContext>
    var defDuration: Int64
    var timescale: Scale
    var clusterTc: Int64
    var frameTc: Int64
    var maxFrameTc: Int64
    var wroteHeader: bool
    var inFrame: bool
    var keyframe: bool
    var skippable: bool
    /** The float conversion at close, left uninterpreted: duration and timescale to four bytes. */
    const floatBits: (int, Int64) -> Bits4
    /** Whether the system grants every malloc, realloc and fwrite; if not, it may refuse any of them. */
    const healthy: bool

    /** What has been recorded so far: for the contracts only. */
    ghost var head: seq<Byte>
    ghost var frames: seq<Frame>

    // -------------------------------------------------------------- the context lists

    /** No context is on both lists or on one of them twice, and recycled buffers are empty. */
    ghost predicate Lists()
      reads this`actlist, this`freelist, freelist`buf
    {
      && actlist !! freelist
      && (forall x | x in freelist :: x.buf.dCur == 0)
    }

    /** Contexts come from malloc or from the free list, never from anywhere else. */
    twostate predicate Grown()
      reads this`actlist, this`freelist
    {
      old(actlist) <= actlist && fresh(actlist - old(actlist) - old(freelist)) && fresh(freelist - old(freelist))
    }

    /** The same when contexts in use may be recycled on the way. */
    twostate predicate Reused()
      reads this`actlist, this`freelist
    {
      fresh(actlist + freelist - old(actlist) - old(freelist))
    }

    /** mk_create_context; null when malloc fails. */
    method CreateContext(parent: MkContext?, theId: Word) returns (c: MkContext?)
      requires Lists()
      modifies this`freelist, this`actlist, freelist`id, freelist`parent
      ensures healthy || old(freelist) != {} ==> c != null
      ensures Lists() && freelist == old(freelist) - {c}
      ensures c == null ==> actlist == old(actlist)
      ensures c != null ==> actlist == old(actlist) + {c} && c !in old(actlist)
      ensures c != null ==> c.parent == parent && c.id == theId && c.buf.dCur == 0
      ensures c != null ==> if old(freelist) != {} then c in old(freelist) else fresh(c)
    {
      if freelist != {} {
        c :| c in freelist;
        freelist := freelist - {c};
      } else {
        var ok := Outcome(healthy);
        if !ok {
          return null;
        }
        c := new MkContext();
      }
      c.parent, c.id := parent, theId;
      actlist := actlist + {c};
    }

    // -------------------------------------------------------------- flushing and closing

    method Fwrite(bytes: seq<Byte>) returns (ok: bool)
      requires pos <= |file|
      modifies this`file, this`pos
      ensures healthy ==> ok
      ensures pos <= |file|
      ensures ok ==> file == Overwrite(old(file), old(pos), bytes) && pos == old(pos) + |bytes|
    {
      ok := Outcome(healthy);
      file := Overwrite(file, pos, bytes);
      pos := pos + |bytes|;
    }

    /** mk_flush_context_data on the root, whose parent is null. */
    method FlushRoot() returns (ok: bool)
      requires root != null && pos <= |file|
      modifies this`file, this`pos, root`buf
      ensures healthy ==> ok
      ensures pos <= |file|
      ensures ok ==> root.buf.dCur == 0
      ensures ok ==> file == Overwrite(old(file), old(pos), old(root.Contents())) && pos == old(pos) + old(root.buf.dCur)
    {
      if root.buf.dCur == 0 {
        return true;
      }
      ok := Fwrite(root.buf.data[..root.buf.dCur]);
      if ok {
        root.buf := root.buf.(dCur := 0);
      }
    }

    /** mk_flush_context_data on a context with a parent. */
    method FlushToParent(c: MkContext, p: MkContext) returns (ok: bool)
      requires c != p && p.buf.dCur + c.buf.dCur <= MAX_BUFFER
      modifies c`buf, p`buf
      ensures healthy ==> ok
      ensures ok ==> c.buf.dCur == 0 && p.Contents() == old(p.Contents()) + old(c.Contents())
    {
      if c.buf.dCur == 0 {
        assert old(p.Contents()) + old(c.Contents()) == p.Contents();
        return true;
      }
      ok := p.Append(healthy, c.buf.data[..c.buf.dCur]);
      if ok {
        c.buf := c.buf.(dCur := 0);
      }
    }

    /** mk_flush_context_id: the ID and an unknown size go to the parent, ahead of whatever the context holds. */
    method FlushId(c: MkContext, p: MkContext) returns (ok: bool)
      requires c != p && c.id != 0 && p.buf.dCur + |EncodeId(c.id)| + 1 <= MAX_BUFFER
      modifies c`id, p`buf
      ensures healthy ==> ok
      ensures ok ==> c.id == 0 && p.Contents() == old(p.Contents()) + (EncodeId(old(c.id)) + UNKNOWN_SIZE)
    {
      ok := p.WriteId(healthy, c.id);
      if !ok { return; }
      ok := p.Append(healthy, UNKNOWN_SIZE);
      if !ok { return; }
      c.id := 0;
    }

    /** The bytes that announce a context in its parent. */
    ghost function TagOf(c: MkContext): seq<Byte>
      reads c`id, c`buf
    {
      if c.id != 0 && c.buf.dCur < WORD then Tag(c.id, c.buf.dCur) else []
    }

    /** The tag half of mk_close_context. */
    method WriteTag(c: MkContext, p: MkContext) returns (ok: bool)
      requires c != p && c.buf.dCur < WORD && p.buf.dCur + |TagOf(c)| <= MAX_BUFFER
      modifies p`buf
      ensures healthy ==> ok
      ensures ok ==> p.Contents() == old(p.Contents()) + TagOf(c)
    {
      if c.id == 0 {
        assert old(p.Contents()) + [] == p.Contents();
        return true;
      }
      ok := p.WriteId(healthy, c.id);
      if !ok { return; }
      ok := p.WriteSize(healthy, c.buf.dCur);
      if !ok { return; }
      assert p.Contents() == old(p.Contents()) + TagOf(c);
    }

    /** Tag and data of a context, moved into its parent; `at` is the parent's length between the two. */
    method Drain(c: MkContext, p: MkContext) returns (ok: bool, at: nat)
      requires c != p && p.buf.dCur + |TagOf(c)| + c.buf.dCur <= MAX_BUFFER
      modifies c`buf, p`buf
      ensures healthy ==> ok
      ensures ok ==> c.buf.dCur == 0
      ensures ok ==> p.Contents() == old(p.Contents()) + old(TagOf(c)) + old(c.Contents())
      ensures ok ==> at == old(p.buf.dCur) + |old(TagOf(c))|
    {
      at := 0;
      ok := WriteTag(c, p);
      if !ok { return; }
      at := p.buf.dCur;
      ok := FlushToParent(c, p);
    }

    /**
     mk_close_context.  `at` is the parent's length once the tag is written: what the C code adds
     to *off.
     */
    method CloseContext(c: MkContext, p: MkContext) returns (ok: bool, at: nat)
      requires Lists() && c in actlist && p in actlist && c != p && c.parent == p
      requires p.buf.dCur + |TagOf(c)| + c.buf.dCur <= MAX_BUFFER
      modifies this`freelist, this`actlist
      modifies c`buf, p`buf
      ensures healthy ==> ok
      ensures ok ==> Lists() && actlist == old(actlist) - {c} && freelist == old(freelist) + {c}
      ensures ok ==> p.Contents() == old(p.Contents()) + old(TagOf(c)) + old(c.Contents())
      ensures ok ==> at == old(p.buf.dCur) + |old(TagOf(c))|
    {
      assert p !in freelist && c !in freelist;
      ok, at := Drain(c, p);
      if !ok { return; }
      actlist := actlist - {c};
      freelist := freelist + {c};
    }

    // -------------------------------------------------------------- the writer as a whole

    /** The contexts the writer's fields name, and where they hang. */
    ghost predicate Hung()
      reads this`actlist, this`freelist, this`root, this`cluster, this`frame
      reads actlist`id, actlist`parent, freelist`buf
    {
      && Lists()
      && root != null && root in actlist && root.parent == null && root.id == 0
      && (cluster != null ==> cluster in actlist && cluster.parent == root && cluster != root && cluster.id == CLUSTER_ID)
      && (frame != null ==> frame in actlist && frame != root && frame != cluster)
    }

    /** Between calls nothing waits in the root buffer and writing continues at the end of the file. */
    ghost predicate Shape()
      reads this`actlist, this`freelist, this`root, this`cluster, this`frame
      reads this`file, this`pos, actlist`id, actlist`parent, actlist`buf, freelist`buf
    {
      Hung() && root.buf.dCur == 0 && pos == |file|
    }

    /** The part of the writer that frames change. */
    ghost function State(): Mux
      reads this`file, this`cluster, this`clusterTc, cluster
    {
      Mux(file, if cluster == null then None else Some(cluster.Contents()), clusterTc)
    }

    /** The bytes of the frame under construction. */
    ghost function Payload(): seq<Byte>
      reads this`frame, frame
    {
      if frame != null then frame.Contents() else []
    }

    /** The frame begun and not yet flushed. */
    ghost function Pending(): seq<Frame>
      reads this`inFrame, this`frameTc, this`keyframe, this`skippable, this`frame, frame
    {
      if inFrame then [Frame(frameTc, keyframe, skippable, Payload())] else []
    }

    /** The writer is where a header and the frames recorded so far have brought it. */
    ghost predicate OnTrack()
      reads this`file, this`cluster, this`clusterTc, this`head, this`frames, this`timescale, cluster
    {
      AllFit(frames) && State() == RunMux(head, frames, timescale)
    }

    /** What holds between calls; a call that fails promises nothing about the next one. */
    ghost predicate Valid()
      reads this, actlist, freelist
    {
      Shape() && OnTrack() && (!inFrame ==> Payload() == [])
    }

    lemma Named()
      requires Valid()
      ensures root != null && root in actlist && (frame != null ==> frame in actlist)
    {
    }

    /** The header fields agree with the header recorded; no later call changes any of them. */
    ghost predicate HeaderOk(h: Header)
      reads this`durationPtr, this`defDuration, this`timescale, this`wroteHeader, this`head
    {
      && wroteHeader && HeaderFits(h)
      && timescale == h.timescale && defDuration == h.defDuration
      && durationPtr == DurationOffset(h) && head == HeaderBytes(h, ZERO_DURATION)
    }

    lemma OnHeader(h: Header)
      requires HeaderOk(h)
      ensures wroteHeader && timescale == h.timescale && defDuration == h.defDuration
    {
    }

    /** mk_create_writer, when both allocations and the fopen succeed. */
    constructor (bits: (int, Int64) -> Bits4, healthy: bool)
      ensures Valid() && Pristine()
      ensures this.healthy == healthy && floatBits == bits && maxFrameTc == 0 && frameTc == 0
      ensures forall c | c in actlist :: fresh(c)
      ensures freelist == {}
    {
      this.healthy := healthy;
      floatBits := bits;
      file, pos, durationPtr := [], 0, 0;
      root, cluster, frame := null, null, null;
      freelist, actlist := {}, {};
      defDuration, timescale, clusterTc, frameTc, maxFrameTc := 0, 1000000, 0, 0, 0;
      wroteHeader, inFrame, keyframe, skippable := false, false, false, false;
      head, frames := [], [];
      new;
      var c := new MkContext();
      actlist := {c};
      root := c;
    }

    // -------------------------------------------------------------- header

    /** mk_close_context on a context that holds exactly the body of n. */
    method EndElement(c: MkContext, p: MkContext, ghost n: Node) returns (ok: bool, at: nat)
      requires Lists() && c in actlist && p in actlist && c != p && c.parent == p
      requires n.Master? && c.id == n.id != 0 && c.Contents() == Serialize(n.kids)
      requires p.buf.dCur + |Element(n)| <= MAX_BUFFER
      modifies this`freelist, this`actlist
      modifies c`buf, p`buf
      ensures healthy ==> ok
      ensures ok ==> Lists() && actlist == old(actlist) - {c} && freelist == old(freelist) + {c}
      ensures ok ==> p.Contents() == old(p.Contents()) + Element(n)
      ensures ok ==> at == old(p.buf.dCur) + |Element(n)| - |Serialize(n.kids)|
    {
      assert c.buf.dCur == |Serialize(n.kids)|;
      assert Element(n) == TagOf(c) + c.Contents();
      ok, at := CloseContext(c, p);
      if ok {
        Regroup(old(p.Contents()), old(TagOf(c)), old(c.Contents()));
      }
    }

    /** The EBML element of mk_write_header. */
    method WriteEbml(f: Fixed, r: MkContext) returns (ok: bool)
      requires Lists() && r in actlist
      requires r.buf.dCur + |Element(EbmlNode(f))| <= MAX_BUFFER
      modifies this`freelist, this`actlist
      modifies freelist, r`buf
      ensures healthy ==> ok
      ensures ok ==> Lists() && Grown() && actlist == old(actlist)
      ensures ok ==> r.Contents() == old(r.Contents()) + Element(EbmlNode(f))
    {
      ghost var n := EbmlNode(f);
      var c := CreateContext(r, EBML_ID);
      if c == null { return false; }
      BodyFits(n);
      assert c !in freelist && c != r;
      ok := c.FillEbml(healthy, f, n.kids);
      if !ok { return; }
      var at;
      ok, at := EndElement(c, r, n);
    }

    /** The Segment element: its ID, the unknown size, and nothing else. */
    method WriteSegment(r: MkContext) returns (ok: bool)
      requires Lists() && r in actlist
      requires r.buf.dCur + |SEGMENT_TAG| <= MAX_BUFFER
      modifies this`freelist, this`actlist
      modifies freelist, r`buf
      ensures healthy ==> ok
      ensures ok ==> Lists() && Grown() && actlist == old(actlist)
      ensures ok ==> r.Contents() == old(r.Contents()) + SEGMENT_TAG
    {
      var c := CreateContext(r, SEGMENT_ID);
      if c == null { return false; }
      assert c !in freelist && c != r;
      ok := FlushId(c, r);
      if !ok { return; }
      var at;
      ok, at := CloseContext(c, r);
    }

    /** The SegmentInfo element; durationPtr ends up at the Duration payload. */
    method WriteInfo(h: Header, r: MkContext) returns (ok: bool)
      requires Lists() && r in actlist
      requires r.buf.dCur + |Element(InfoNode(h, ZERO_DURATION))| <= MAX_BUFFER
      modifies this`freelist, this`actlist, this`durationPtr
      modifies freelist, r`buf
      ensures healthy ==> ok
      ensures ok ==> Lists() && Grown() && actlist == old(actlist)
      ensures ok ==> r.Contents() == old(r.Contents()) + Element(InfoNode(h, ZERO_DURATION))
      ensures ok ==> durationPtr == r.buf.dCur - 4
    {
      ghost var n := InfoNode(h, ZERO_DURATION);
      var c := CreateContext(r, INFO_ID);
      if c == null { return false; }
      BodyFits(n);
      assert c !in freelist && c != r;
      ok := c.FillInfo(healthy, h, n.kids);
      if !ok { return; }
      InfoEndsWithDuration(h);
      durationPtr := c.buf.dCur - 4;
      var at;
      ok, at := EndElement(c, r, n);
      if !ok { return; }
      durationPtr := durationPtr + at;
    }

    /** The Video element inside a track entry. */
    method WriteVideo(h: Header, ti: MkContext) returns (ok: bool)
      requires Lists() && ti in actlist
      requires ti.buf.dCur + |Element(Master(VIDEO_ID, VideoKids(h)))| <= MAX_BUFFER
      modifies this`freelist, this`actlist
      modifies freelist, ti`buf
      ensures healthy ==> ok
      ensures ok ==> Lists() && Grown() && actlist == old(actlist)
      ensures ok ==> ti.Contents() == old(ti.Contents()) + Element(Master(VIDEO_ID, VideoKids(h)))
    {
      ghost var n := Master(VIDEO_ID, VideoKids(h));
      var v := CreateContext(ti, VIDEO_ID);
      if v == null { return false; }
      BodyFits(n);
      assert v !in freelist && v != ti;
      ok := v.FillVideo(healthy, h, n.kids);
      if !ok { return; }
      var at;
      ok, at := EndElement(v, ti, n);
    }

    /** The TrackEntry element, video element included. */
    method WriteTrackEntry(h: Header, c: MkContext) returns (ok: bool)
      requires Lists() && c in actlist
      requires c.buf.dCur + |Element(Master(TRACK_ENTRY_ID, TrackKids(h)))| <= MAX_BUFFER
      modifies this`freelist, this`actlist
      modifies freelist, c`buf
      ensures healthy ==> ok
      ensures ok ==> Lists() && Grown() && actlist == old(actlist)
      ensures ok ==> c.Contents() == old(c.Contents()) + Element(Master(TRACK_ENTRY_ID, TrackKids(h)))
    {
      ghost var n, v := Master(TRACK_ENTRY_ID, TrackKids(h)), Master(VIDEO_ID, VideoKids(h));
      var ti := CreateContext(c, TRACK_ENTRY_ID);
      if ti == null { return false; }
      BodyFits(n);
      SerializeConcat(TrackLeaves(h), [v]);
      SerializeOne(v);
      assert ti !in freelist && ti != c;
      ok := ti.FillTrack(healthy, h, TrackLeaves(h));
      if !ok { return; }
      assert TrackLeaves(h)[..|TrackLeaves(h)|] == TrackLeaves(h);
      ok := WriteVideo(h, ti);
      if !ok { return; }
      var at;
      ok, at := EndElement(ti, c, n);
    }

    /** The Tracks element. */
    method WriteTracks(h: Header, r: MkContext) returns (ok: bool)
      requires Lists() && r in actlist
      requires r.buf.dCur + |Element(TracksNode(h))| <= MAX_BUFFER
      modifies this`freelist, this`actlist
      modifies freelist, r`buf
      ensures healthy ==> ok
      ensures ok ==> Lists() && Grown() && actlist == old(actlist)
      ensures ok ==> r.Contents() == old(r.Contents()) + Element(TracksNode(h))
    {
      ghost var n, e := TracksNode(h), Master(TRACK_ENTRY_ID, TrackKids(h));
      var c := CreateContext(r, TRACKS_ID);
      if c == null { return false; }
      BodyFits(n);
      SerializeOne(e);
      assert c !in freelist && c != r;
      assert c.Contents() == [];
      ok := WriteTrackEntry(h, c);
      if !ok { return; }
      assert [] + Element(e) == Element(e);
      var at;
      ok, at := EndElement(c, r, n);
    }

    /** Nothing recorded yet. */
    ghost predicate Pristine()
      reads this
    {
      !wroteHeader && !inFrame && cluster == null && frame == null && file == [] && frames == []
    }

    /** The element-writing part of mk_write_header. */
    method BuildHeader(h: Header, r: MkContext) returns (ok: bool)
      requires Lists() && r in actlist && r.buf.dCur == 0 && HeaderFits(h)
      modifies this`freelist, this`actlist, this`durationPtr, freelist, r`buf
      ensures healthy ==> ok
      ensures ok ==> Lists() && Grown() && actlist == old(actlist)
      ensures ok ==> r.Contents() == HeaderBytes(h, ZERO_DURATION) && durationPtr == DurationOffset(h)
    {
      HeaderSize(h);
      EmptyThen(Element(EbmlNode(h.fixed)));
      assert r.Contents() == [];
      ok := WriteEbml(h.fixed, r);
      if !ok { return; }
      assert r.Contents() == Element(EbmlNode(h.fixed));
      ok := WriteSegment(r);
      if !ok { return; }
      ok := WriteInfo(h, r);
      if !ok { return; }
      ok := WriteTracks(h, r);
    }

    /** The header, written and flushed. */
    method EmitHeader(h: Header) returns (ok: bool)
      requires Shape() && Pristine() && HeaderFits(h)
      modifies this`freelist, this`actlist, this`durationPtr, this`file, this`pos, freelist, root`buf
      ensures healthy ==> ok
      ensures ok ==> Shape() && Grown() && file == HeaderBytes(h, ZERO_DURATION) && durationPtr == DurationOffset(h)
    {
      ok := BuildHeader(h, root);
      if !ok { return; }
      FirstWrite(root.Contents());
      ok := FlushRoot();
    }

    /** mk_write_header; a second call fails. */
    method WriteHeader(h: Header) returns (ok: bool)
      requires Valid() && (wroteHeader || Pristine())
      requires h.timescale > 0 && HeaderFits(h)
      modifies this`freelist, this`actlist, this`durationPtr, this`timescale, this`defDuration, this`wroteHeader
      modifies this`file, this`pos, this`head, freelist, root`buf
      ensures healthy && !old(wroteHeader) ==> ok
      ensures old(wroteHeader) ==> !ok
      ensures ok ==> Valid() && Grown() && HeaderOk(h)
    {
      hide HeaderBytes, DurationOffset, HeaderFits;
      if wroteHeader {
        return false;
      }
      timescale := h.timescale;
      defDuration := h.defDuration;
      ok := EmitHeader(h);
      if !ok { return; }
      wroteHeader := true;
      head := file;
    }

    // -------------------------------------------------------------- frames

    /** The open cluster, moved to the root buffer. */
    method DetachCluster() returns (ok: bool)
      requires Hung() && cluster != null && root.buf.dCur == 0 && cluster.buf.dCur + 9 <= MAX_BUFFER
      modifies this`freelist, this`actlist, this`cluster, root`buf, cluster`buf
      ensures healthy ==> ok
      ensures ok ==> Hung() && cluster == null
      ensures ok ==> root.Contents() == Tag(CLUSTER_ID, old(cluster.buf.dCur)) + old(cluster.Contents())
      ensures ok ==> actlist == old(actlist - {cluster}) && freelist == old(freelist + {cluster})
    {
      EmptyThen(TagOf(cluster));
      assert root.Contents() == [];
      var at;
      ok, at := CloseContext(cluster, root);
      cluster := null;
    }

    /** mk_close_cluster: the open cluster goes to the file; nothing to do when there is none. */
    method CloseCluster() returns (ok: bool)
      requires Shape() && (cluster != null ==> cluster.buf.dCur + 9 <= MAX_BUFFER)
      modifies this`freelist, this`actlist, this`cluster, this`file, this`pos, root, cluster
      ensures healthy ==> ok
      ensures ok ==> Shape() && State() == CloseMux(old(State()))
      ensures ok ==> if old(cluster) != null
                     then actlist == old(actlist - {cluster}) && freelist == old(freelist + {cluster})
                     else actlist == old(actlist) && freelist == old(freelist)
    {
      if cluster == null {
        return true;
      }
      ok := DetachCluster();
      if !ok { return; }
      AppendWrite(file, root.Contents());
      assert root !in freelist;
      ok := FlushRoot();
    }

    /** A context that holds just a Timecode element. */
    method CreateTimed(parent: MkContext, tc: Int64) returns (c: MkContext?)
      requires Lists()
      modifies this`freelist, this`actlist, freelist
      ensures healthy ==> c != null
      ensures c != null ==> Lists() && Grown() && freelist == old(freelist) - {c}
      ensures c != null ==> actlist == old(actlist) + {c} && c !in old(actlist)
      ensures c != null ==> c.parent == parent && c.id == CLUSTER_ID && c.Contents() == Serialize([Uint(0xe7, tc)])
    {
      hide EncodeUint;
      c := CreateContext(parent, CLUSTER_ID);
      if c == null { return; }
      ghost var kids := [Uint(0xe7, tc)];
      OpenedEmpty(tc);
      assert Serialize(kids[..0]) == [];
      var ok := c.WriteUint(healthy, 0xe7, tc, kids, 0);
      assert kids[..1] == kids;
      if !ok { return null; }
    }

    /** The new-cluster branch of mk_flush_frame. */
    method OpenCluster() returns (ok: bool)
      requires Shape() && cluster == null
      modifies this`freelist, this`actlist, this`cluster, this`clusterTc, freelist
      ensures healthy ==> ok
      ensures ok ==> Shape() && Grown() && State() == OpenMux(old(State()), TruncDiv(frameTc, timescale))
    {
      hide EncodeUint, Serialize, RunMux, DurationOffset;
      clusterTc := TruncDiv(frameTc, timescale);
      cluster := CreateTimed(root, clusterTc);
      ok := cluster != null;
    }

    /** The SimpleBlock part of mk_flush_frame. */
    method AppendBlock(delta: Int16) returns (ok: bool)
      requires Shape() && cluster != null && inFrame
      requires cluster.buf.dCur + |Payload()| + 13 <= MAX_BUFFER
      modifies this`inFrame, cluster`buf, frame
      ensures healthy ==> ok
      ensures ok ==> Shape() && !inFrame && Payload() == []
      ensures ok ==> State() == BlockMux(old(State()), delta, old(Pending())[0])
      ensures ok ==> cluster.buf.dCur <= old(cluster.buf.dCur) + old(|Payload()|) + 13
    {
      var fsize := if frame != null then frame.buf.dCur else 0;
      ok := cluster.WriteBlockLead(healthy, delta, keyframe, skippable, fsize);
      if !ok { return; }
      if frame != null {
        ok := cluster.Append(healthy, frame.buf.data[..frame.buf.dCur]);
        if !ok { return; }
        frame.buf := frame.buf.(dCur := 0);
      } else {
        EmptyAfter(cluster.Contents());
      }
      inFrame := false;
    }

    /** mk_flush_frame up to the block: a cluster is open and delta is the frame's distance from its timecode. */
    method ReadyCluster() returns (ok: bool, delta: int)
      requires Shape() && (cluster != null ==> cluster.buf.dCur <= CLSIZE)
      modifies this`freelist, this`actlist, this`cluster, this`clusterTc, this`file, this`pos
      modifies root, cluster, freelist
      ensures healthy ==> ok
      ensures ok ==> Shape() && Reused() && cluster != null && cluster.buf.dCur <= CLSIZE
      ensures ok ==> State() == ReadyMux(old(State()), TruncDiv(frameTc, timescale))
      ensures ok ==> delta == TruncDiv(frameTc, timescale) - clusterTc && Delta16(delta)
    {
      delta := TruncDiv(frameTc, timescale) - clusterTc;
      if delta > 32767 || delta < -32768 {
        ok := CloseCluster();
        if !ok { return; }
      }
      assert State() == NearMux(old(State()), TruncDiv(frameTc, timescale));
      ok := true;
      if cluster == null {
        ok := OpenCluster();
        if !ok { return; }
        OpenedEmpty(clusterTc);
        delta := 0;
      }
    }

    /** mk_flush_frame with a frame pending. */
    method FlushPending() returns (ok: bool)
      requires Shape() && inFrame && |Payload()| + CLSIZE + 64 <= MAX_BUFFER
      requires cluster != null ==> cluster.buf.dCur <= CLSIZE
      modifies this`freelist, this`actlist, this`cluster, this`clusterTc, this`file, this`pos, this`inFrame
      modifies actlist, freelist
      ensures healthy ==> ok
      ensures ok ==> Shape() && Reused() && !inFrame && Payload() == []
      ensures ok ==> State() == FlushMux(old(State()), old(Pending())[0], timescale)
    {
      hide ReadyMux, BlockMux, LimitMux;
      ghost var m, f := State(), Pending()[0];
      var delta;
      ok, delta := ReadyCluster();
      if !ok { return; }
      assert Pending() == [f];
      ghost var r := State();
      ok := AppendBlock(delta);
      if !ok { return; }
      assert State() == BlockMux(r, delta, f);
      ok := LimitCluster();
    }

    /** The size limit on clusters. */
    method LimitCluster() returns (ok: bool)
      requires Shape() && cluster != null && cluster.buf.dCur + 9 <= MAX_BUFFER
      modifies this`freelist, this`actlist, this`cluster, this`file, this`pos, root, cluster
      ensures healthy ==> ok
      ensures ok ==> Shape() && actlist + freelist == old(actlist + freelist) && State() == LimitMux(old(State()))
    {
      ok := true;
      if cluster.buf.dCur > CLSIZE {
        ok := CloseCluster();
      }
    }

    // -------------------------------------------------------------- the public calls

    /** mk_flush_frame: the pending frame, if any, joins the recording. */
    method FlushFrame() returns (ok: bool)
      requires Valid() && Fits(|Payload()|)
      modifies this`freelist, this`actlist, this`cluster, this`clusterTc, this`file, this`pos, this`inFrame
      modifies this`frames, actlist, freelist
      ensures healthy ==> ok
      ensures ok ==> Valid() && Reused() && Pending() == []
      ensures ok ==> frames == old(frames + Pending())
    {
      hide RunMux, FlushMux, AllFit;
      if !inFrame {
        assert frames + [] == frames;
        return true;
      }
      ghost var log := RunTracks(head, frames, timescale);
      RunOneMore(head, frames, Pending()[0], timescale);
      ghost var more := frames + Pending();
      ok := FlushPending();
      frames := more;
    }

    /** mk_start_frame */
    method StartFrame() returns (ok: bool)
      requires Valid() && Fits(|Payload()|)
      modifies this`freelist, this`actlist, this`cluster, this`clusterTc, this`file, this`pos, this`inFrame
      modifies this`frames, this`keyframe, this`skippable, actlist, freelist
      ensures healthy ==> ok
      ensures ok ==> Valid() && Reused()
      ensures ok ==> frames == old(frames + Pending()) && Pending() == [Frame(frameTc, false, false, [])]
    {
      hide RunMux, AllFit;
      ok := FlushFrame();
      if !ok { return; }
      inFrame := true;
      keyframe := false;
      skippable := false;
    }

    /** mk_set_frame_flags; refused outside a frame. */
    method SetFrameFlags(timestamp: Int64, key: bool, skip: bool) returns (ok: bool)
      requires Valid()
      modifies this`frameTc, this`keyframe, this`skippable, this`maxFrameTc
      ensures ok == inFrame && Valid()
      ensures ok ==> Pending() == [old(Pending())[0].(timestamp := timestamp, key := key, discardable := skip)]
      ensures ok ==> maxFrameTc == if old(maxFrameTc) < timestamp then timestamp else old(maxFrameTc)
      ensures !ok ==> frameTc == old(frameTc) && maxFrameTc == old(maxFrameTc) && Pending() == []
    {
      hide RunMux, AllFit;
      if !inFrame {
        return false;
      }
      frameTc := timestamp;
      keyframe := key;
      skippable := skip;
      if maxFrameTc < timestamp {
        maxFrameTc := timestamp;
      }
      ok := true;
    }

    /** mk_add_frame_data; refused outside a frame. */
    method AddFrameData(data: seq<Byte>) returns (ok: bool)
      requires Valid() && (inFrame ==> Fits(|Payload()| + |data|))
      modifies this`freelist, this`actlist, this`frame, freelist, frame
      ensures healthy && old(inFrame) ==> ok
      ensures old(!inFrame) ==> !ok && Valid() && Reused() && Pending() == []
      ensures ok ==> Valid() && Reused()
      ensures ok ==> Pending() == [old(Pending())[0].(data := old(Payload()) + data)]
    {
      hide RunMux, AllFit;
      if !inFrame {
        return false;
      }
      if frame == null {
        frame := CreateContext(null, 0);
        if frame == null {
          return false;
        }
      }
      ok := frame.Append(healthy, data);
    }

    /** mk_close up to the duration: everything recorded is in the file. */
    method CloseFrames() returns (ok: bool)
      requires Valid() && Fits(|Payload()|)
      modifies this`freelist, this`actlist, this`cluster, this`clusterTc, this`file, this`pos, this`inFrame
      modifies this`frames, actlist, freelist
      ensures healthy ==> ok
      ensures ok ==> Shape() && Reused() && frames == old(frames + Pending()) && AllFit(frames)
      ensures ok ==> file == CloseMux(RunMux(head, frames, timescale)).file
    {
      hide RunMux, CloseMux, AllFit, Upright, Tracks;
      ok := FlushFrame();
      if !ok { return; }
      ghost var log := RunTracks(head, frames, timescale);
      ok := CloseCluster();
    }

    /**
     The patch in mk_close: four bytes at the recorded offset, written through the root buffer,
     which is empty before and after.
     */
    method PatchDuration(bits: Bits4) returns (ok: bool)
      requires Shape() && durationPtr <= |file|
      modifies this`file, this`pos, root`buf
      ensures healthy ==> ok
      ensures ok ==> file == Overwrite(old(file), durationPtr, bits)
    {
      pos := durationPtr;
      EmptyThen(bits);
      assert root.Contents() == [];
      ok := root.Append(healthy, bits);
      if !ok { return; }
      assert root.Contents() == bits;
      ok := FlushRoot();
    }

    /** mk_close.  Afterwards the file is a complete recording; the writer itself is gone. */
    method Close(lastDelta: Int64, ghost h: Header) returns (ok: bool)
      requires Valid() && Fits(|Payload()|)
      requires wroteHeader ==> HeaderOk(h)
      modifies this, actlist, freelist
      ensures healthy ==> ok
      ensures ok && old(wroteHeader) ==>
        Finished(file, h, old(floatBits(maxFrameTc + if defDuration != 0 then defDuration else lastDelta, timescale)),
                 old(frames + Pending()))
    {
      hide RunMux, CloseMux, Finished, HeaderBytes, HeaderFits, DurationOffset, AllFit;
      ok := CloseFrames();
      if !ok { return; }
      if wroteHeader {
        var lastFrametime := if defDuration != 0 then defDuration else lastDelta;
        var bits := floatBits(maxFrameTc + lastFrametime, timescale);
        PatchedFile(h, bits, file, frames);
        ok := PatchDuration(bits);
      }
    }
  }

  /**
   The bytes are a complete recording: header tree with this duration, then exactly these frames
   in order, as any reader of the format gets them back; and at their own times if and only if
   no frame that opened a cluster had a negative time.
   */
  ghost predicate Finished(file: seq<Byte>, h: Header, duration: Bits4, frames: seq<Frame>) {
    && h.timescale > 0 && AllFit(frames) && ReadFile(file).Some?
    && var r := ReadFile(file).value;
       && r.ebml == EbmlNode(h.fixed) && r.info == InfoNode(h, duration) && r.tracks == TracksNode(h)
       && Untimed(r.frames) == Untimed(TimedAll(frames, h.timescale))
       && (r.frames == TimedAll(frames, h.timescale) <==> Upright(frames, h.timescale))
  }

  /** The header around the Duration payload. */
  function BeforeDuration(h: Header): seq<Byte> {
    Element(EbmlNode(h.fixed)) + SEGMENT_TAG
    + Tag(INFO_ID, if |InfoLead(h)| + 4 < WORD then |InfoLead(h)| + 4 else 0) + InfoLead(h)
  }

  /** Any header whose Info element ends in its duration. */
  lemma AroundDuration(e: seq<Byte>, info: Node, lead: seq<Byte>, d: seq<Byte>, r: seq<Byte>)
    requires info.Master? && Serialize(info.kids) == lead + d && |lead| + |d| < WORD
    ensures e + SEGMENT_TAG + Element(info) + r == e + SEGMENT_TAG + Tag(info.id, |lead| + |d|) + lead + d + r
  {
    var t := Tag(info.id, |lead| + |d|);
    assert Element(info) == t + (lead + d);
    assert e + SEGMENT_TAG + (t + (lead + d)) == e + SEGMENT_TAG + t + lead + d;
  }

  lemma HeaderAround(h: Header, duration: Bits4)
    requires HeaderFits(h)
    ensures HeaderBytes(h, duration) == BeforeDuration(h) + duration + Element(TracksNode(h))
    ensures |BeforeDuration(h)| == DurationOffset(h)
  {
    HeaderSize(h);
    var z := InfoNode(h, ZERO_DURATION);
    SerializeBounds([z], z);
    InfoLength(h, ZERO_DURATION);
    InfoLength(h, duration);
    AroundDuration(Element(EbmlNode(h.fixed)), InfoNode(h, duration), InfoLead(h), duration, Element(TracksNode(h)));
  }

  lemma OverwriteMiddle(a: seq<Byte>, b: seq<Byte>, b': seq<Byte>, c: seq<Byte>, d: seq<Byte>)
    requires |b| == |b'|
    ensures Overwrite(a + b + c + d, |a|, b') == a + b' + c + d
  {
    assert (a + b + c + d)[..|a|] == a;
    assert (a + b + c + d)[|a| + |b|..] == c + d;
  }

  /** Patching the duration turns the zero-duration file into the finished one and changes nothing else. */
  lemma PatchedFile(h: Header, bits: Bits4, file: seq<Byte>, fs: seq<Frame>)
    requires HeaderFits(h) && h.timescale > 0 && AllFit(fs)
    requires file == CloseMux(RunMux(HeaderBytes(h, ZERO_DURATION), fs, h.timescale)).file
    ensures DurationOffset(h) <= |file|
    ensures Finished(Overwrite(file, DurationOffset(h), bits), h, bits, fs)
  {
    var m := RunMux(HeaderBytes(h, ZERO_DURATION), fs, h.timescale);
    var log := RunTracks(HeaderBytes(h, ZERO_DURATION), fs, h.timescale);
    CloseTracks(m, HeaderBytes(h, ZERO_DURATION), log, h.timescale);
    var all := ClosedLog(log);
    HeaderAround(h, ZERO_DURATION);
    HeaderAround(h, bits);
    OverwriteMiddle(BeforeDuration(h), ZERO_DURATION, bits, Element(TracksNode(h)), Serialize(ClusterNodes(all.closed)));
    TrackedReadsBack(Mux(Overwrite(file, DurationOffset(h), bits), None, 0), h, bits, all, h.timescale);
  }

  lemma FirstWrite(b: seq<Byte>)
    ensures Overwrite([], 0, b) == b
  {
  }

  lemma AppendWrite(file: seq<Byte>, b: seq<Byte>)
    ensures Overwrite(file, |file|, b) == file + b
  {
  }

  lemma EmptyAfter(s: seq<Byte>)
    ensures s + [] == s
  {
  }

  lemma EmptyThen(s: seq<Byte>)
    ensures [] + s == s
  {
  }

  lemma InfoEndsWithDuration(h: Header)
    ensures |Serialize(InfoNode(h, ZERO_DURATION).kids)| >= 4
  {
    InfoLength(h, ZERO_DURATION);
  }

  lemma BodyFits(n: Node)
    requires n.Master? && |Element(n)| <= MAX_BUFFER
    ensures |Serialize(n.kids)| <= MAX_BUFFER
    ensures n.kids[..|n.kids|] == n.kids
  {
    SerializeBounds([n], n);
  }
}
