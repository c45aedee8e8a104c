/** Whole recordings: a header, any sequence of frame calls, and mk_close. */
module MatroskaRecording {
  import opened Basics
  import opened Ebml
  import opened Matroska
  import opened MatroskaHeader
  import opened MatroskaMux
  import opened MatroskaWriter

  /** The calls a client makes between mk_write_header and mk_close. */
  datatype Call = Start | Flags(timestamp: Int64, key: bool, skip: bool) | Data(bytes: seq<Byte>)

  /** What the calls so far amount to; the last timestamp outlives its frame. */
  datatype Take = Take(done: seq<Frame>, open: Option<Frame>, tc: Int64, maxTc: Int64) {
    function Frames(): seq<Frame> {
      done + if open.Some? then [open.value] else []
    }
  }

  /** One call: flags and data outside a frame are refused and change nothing. */
  function Feed(t: Take, c: Call): Take {
    match c
    case Start => Take(t.Frames(), Some(Frame(t.tc, false, false, [])), t.tc, t.maxTc)
    case Flags(ts, key, skip) =>
      if t.open.None? then t else
      t.(open := Some(t.open.value.(timestamp := ts, key := key, discardable := skip)),
         tc := ts, maxTc := if t.maxTc < ts then ts else t.maxTc)
    case Data(bytes) =>
      if t.open.None? then t else t.(open := Some(t.open.value.(data := t.open.value.data + bytes)))
  }

  function Played(calls: seq<Call>): Take {
    if calls == [] then Take([], None, 0, 0) else Feed(Played(Init(calls)), Last(calls))
  }

  /** Every frame stays within what the cluster buffer can take. */
  predicate Affordable(calls: seq<Call>) {
    var t := Played(calls);
    (t.open.Some? ==> Fits(|t.open.value.data|)) && (calls == [] || Affordable(Init(calls)))
  }

  lemma {:induction false} AffordablePrefix(calls: seq<Call>, n: nat)
    requires Affordable(calls) && n <= |calls|
    ensures Affordable(calls[..n])
  {
    if n == |calls| {
      assert calls[..n] == calls;
    } else {
      AffordablePrefix(Init(calls), n);
      assert Init(calls)[..n] == calls[..n];
    }
  }

  /** The writer has heard exactly these calls. */
  ghost predicate Follows(w: MkWriter, t: Take)
    reads w, w.frame
  {
    && w.frames == t.done
    && w.inFrame == t.open.Some?
    && w.Pending() == (if t.open.Some? then [t.open.value] else [])
    && w.frameTc == t.tc && w.maxFrameTc == t.maxTc
  }

  method Step(w: MkWriter, c: Call, ghost t: Take, ghost h: Header) returns (ok: bool)
    requires w.Valid() && w.HeaderOk(h) && Follows(w, t) && Fits(|w.Payload()|)
    requires Feed(t, c).open.Some? ==> Fits(|Feed(t, c).open.value.data|)
    modifies w, w.actlist, w.freelist
    ensures w.healthy ==> ok
    ensures ok ==> w.Valid() && w.HeaderOk(h) && Follows(w, Feed(t, c)) && Fits(|w.Payload()|)
    ensures ok ==> w.Reused()
  {
    hide MkWriter.Shape, MkWriter.OnTrack, MkWriter.HeaderOk;
    var inside := w.inFrame;
    w.Named();
    match c
    case Start =>
      ok := w.StartFrame();
    case Flags(ts, key, skip) =>
      ok := w.SetFrameFlags(ts, key, skip);
      ok := ok || !inside;
      assert w.actlist + w.freelist - old(w.actlist) - old(w.freelist) == {};
    case Data(bytes) =>
      ok := w.AddFrameData(bytes);
      ok := ok || !inside;
  }

  /** The calls of a recording, one after the other. */
  method Play(w: MkWriter, calls: seq<Call>, ghost h: Header) returns (ok: bool)
    requires w.Valid() && w.HeaderOk(h) && Follows(w, Played([])) && Fits(|w.Payload()|) && Affordable(calls)
    modifies w, w.actlist, w.freelist
    ensures w.healthy ==> ok
    ensures ok ==> w.Valid() && w.HeaderOk(h) && Follows(w, Played(calls)) && Fits(|w.Payload()|)
    ensures ok ==> w.Reused()
  {
    hide MkWriter.Valid, MkWriter.Shape, MkWriter.OnTrack, MkWriter.HeaderOk, Feed;
    var n := 0;
    assert calls[..0] == [];
    while n < |calls|
      invariant n <= |calls| && w.Valid() && w.HeaderOk(h) && w.Reused()
      invariant Follows(w, Played(calls[..n])) && Fits(|w.Payload()|)
    {
      AffordablePrefix(calls, n + 1);
      assert Init(calls[..n + 1]) == calls[..n] && Last(calls[..n + 1]) == calls[n];
      ok := Step(w, calls[n], Played(calls[..n]), h);
      if !ok { return; }
      n := n + 1;
    }
    ok := true;
    assert calls[..n] == calls;
  }

  /** The fields mk_write_header fills in by itself. */
  predicate FixedFields(h: Header) {
    h.fixed == FIXED
  }

  lemma FinishedSays(file: seq<Byte>, h: Header, duration: Bits4, frames: seq<Frame>)
    requires FixedFields(h) && Finished(file, h, duration, frames)
    ensures FileSays(file, h, duration)
  {
    hide HeaderSays, ReadFile;
    HeaderRight(h, duration, ReadFile(file).value);
  }

  /** There are as many frames as calls that start one, and together they hold the data given after the first start. */
  lemma {:induction false} FramesAreCalls(calls: seq<Call>)
    ensures |Played(calls).Frames()| == Starts(calls)
    ensures Payload(Played(calls).Frames()) == Given(calls)
  {
    hide Feed, Payload;
    Opened(calls);
    if calls == [] {
      assert Payload([]) == [] by { NoPayload(); }
    } else {
      FramesAreCalls(Init(calls));
      Opened(Init(calls));
      FeedPayload(Played(Init(calls)), Last(calls));
    }
  }

  lemma NoPayload()
    ensures Payload([]) == []
  {
  }

  /** Once there is a frame there is always one open. */
  lemma {:induction false} Opened(calls: seq<Call>)
    ensures Played(calls).open.Some? <==> Starts(calls) > 0
    ensures Played(calls).open.None? ==> Played(calls).done == []
  {
    if calls == [] {
    } else {
      Opened(Init(calls));
    }
  }

  lemma FeedPayload(t: Take, c: Call)
    requires t.open.None? ==> t.done == []
    ensures |Feed(t, c).Frames()| == |t.Frames()| + if c.Start? then 1 else 0
    ensures Payload(Feed(t, c).Frames()) == Payload(t.Frames()) + if c.Data? && t.open.Some? then c.bytes else []
  {
    hide Payload;
    if c.Start? {
      PayloadOneMore(t.Frames(), Frame(t.tc, false, false, []));
    } else if t.open.Some? {
      PayloadOneMore(t.done, t.open.value);
      PayloadOneMore(t.done, Feed(t, c).open.value);
    }
  }

  function Starts(calls: seq<Call>): nat {
    if calls == [] then 0 else Starts(Init(calls)) + if Last(calls).Start? then 1 else 0
  }

  /** The data of the calls, from the first start on. */
  function Given(calls: seq<Call>): seq<Byte> {
    if calls == [] then [] else
    Given(Init(calls)) + if Last(calls).Data? && Starts(Init(calls)) > 0 then Last(calls).bytes else []
  }

  function Payload(fs: seq<Frame>): seq<Byte> {
    if fs == [] then [] else Payload(Init(fs)) + Last(fs).data
  }

  lemma PayloadOneMore(fs: seq<Frame>, f: Frame)
    ensures Payload(fs + [f]) == Payload(fs) + f.data
  {
    assert Init(fs + [f]) == fs && Last(fs + [f]) == f;
  }

  /** The timestamps of the calls inside a frame so far. */
  function Stamps(calls: seq<Call>): seq<Int64> {
    if calls == [] then [] else
    Stamps(Init(calls)) + if Last(calls).Flags? && Played(Init(calls)).open.Some? then [Last(calls).timestamp] else []
  }

  /** The bytes of these data calls. */
  function DataIn(body: seq<Call>): seq<Byte> {
    if body == [] then [] else DataIn(Init(body)) + if Last(body).Data? then Last(body).bytes else []
  }

  /** The last of these calls that set flags. */
  function LastFlags(body: seq<Call>): Option<Call> {
    if body == [] then None else if Last(body).Flags? then Some(Last(body)) else LastFlags(Init(body))
  }

  /**
   A frame from its start on: the frames before it are done; it holds the data given since, with the
   timestamp and flags of the last flags call, and if there was none the timestamp set last and no flags.
   */
  lemma {:induction false} FrameIs(pre: seq<Call>, body: seq<Call>)
    requires Start !in body
    ensures var t, f := Played(pre + [Start] + body), LastFlags(body);
            && t.open.Some? && t.done == Played(pre).Frames() && t.open.value.data == DataIn(body)
            && (if f.None? then
                  t.open.value.(data := []) == Frame(Played(pre).tc, false, false, []) && t.tc == Played(pre).tc
                else
                  f.value.Flags? && t.tc == f.value.timestamp
                  && t.open.value.(data := []) == Frame(f.value.timestamp, f.value.key, f.value.skip, []))
  {
    var all := pre + [Start] + body;
    if body == [] {
      assert Init(all) == pre && Last(all) == Start;
    } else {
      assert Init(all) == pre + [Start] + Init(body) && Last(all) == Last(body) && Last(body) in body;
      FrameIs(pre, Init(body));
    }
  }

  /** The timestamp a new frame starts with: the last one set in any frame. */
  lemma {:induction false} StampIsLast(calls: seq<Call>)
    ensures Played(calls).tc == if Stamps(calls) == [] then 0 else Last(Stamps(calls))
  {
    if calls == [] {
    } else {
      StampIsLast(Init(calls));
    }
  }

  /** What the duration is reckoned from: the largest timestamp set in any frame, but never less than zero. */
  lemma {:induction false} MaxIsLargest(calls: seq<Call>)
    ensures Played(calls).maxTc == 0 || Played(calls).maxTc in Stamps(calls)
    ensures Played(calls).maxTc >= 0 && forall t | t in Stamps(calls) :: t <= Played(calls).maxTc
  {
    if calls == [] {
    } else {
      MaxIsLargest(Init(calls));
    }
  }

  /**
   Every run: when no allocation or write fails, the file reads back as the header the arguments ask for,
   under the IDs of the format, and then exactly the frames the calls describe.
   */
  method Record(h: Header, calls: seq<Call>, lastDelta: Int64, floatBits: (int, Int64) -> Bits4, healthy: bool)
    returns (ok: bool, file: seq<Byte>)
    requires FixedFields(h) && h.timescale > 0 && HeaderFits(h) && Affordable(calls)
    ensures healthy ==> ok
    ensures ok ==>
      var last := if h.defDuration != 0 then h.defDuration else lastDelta;
      var duration := floatBits(Played(calls).maxTc + last, h.timescale);
      Finished(file, h, duration, Played(calls).Frames()) && FileSays(file, h, duration)
  {
    hide FileSays, MkWriter.Valid, MkWriter.Shape, MkWriter.OnTrack, MkWriter.HeaderOk, Finished, HeaderFits, Feed, FixedFields;
    file := [];
    var w := new MkWriter(floatBits, healthy);
    w.Named();
    ok := w.WriteHeader(h);
    if !ok { return; }
    ok := Play(w, calls, h);
    if !ok { return; }
    w.OnHeader(h);
    assert w.frames + w.Pending() == Played(calls).Frames();
    ok := w.Close(lastDelta, h);
    file := w.file;
    if ok {
      var last := if h.defDuration != 0 then h.defDuration else lastDelta;
      FinishedSays(file, h, floatBits(Played(calls).maxTc + last, h.timescale), Played(calls).Frames());
    }
  }
}
