/**
 ASCII mode: ascii.c and the transfer loops of ftpdataio.c that feed it.  Line ends are CR LF on the
 wire (section 3.1.1.1 of RFC 959) and LF in files, and a CR can be the last byte of a chunk.
 */
module Ascii {
  import opened Basics

  const CR: Byte := 13
  const LF: Byte := 10

  // ---------------------------------------------------------------- wire to file

  /** Every CR directly before an LF goes; every other byte stays. */
  function Decode(s: seq<Byte>): (r: seq<Byte>)
    ensures |r| <= |s|
  {
    if s == [] then [] else
    var n := |s| - 1;
    if s[n] == LF && n > 0 && s[n - 1] == CR then Decode(s[..n - 1]) + [LF] else Decode(s[..n]) + [s[n]]
  }

  /** The last byte is a CR whose fate depends on the next one. */
  predicate Held(s: seq<Byte>) {
    s != [] && s[|s| - 1] == CR
  }

  /** What can be written so far: everything but a CR held back. */
  function Settled(s: seq<Byte>): (r: seq<Byte>)
    ensures |r| <= |s| && Decode(s) == r + if Held(s) then [CR] else []
  {
    if Held(s) then Decode(s[..|s| - 1]) else Decode(s) + []
  }

  function Carry(held: bool): seq<Byte> {
    if held then [CR] else []
  }

  lemma SettledSnoc(s: seq<Byte>, b: Byte)
    ensures Settled(s + [b]) == if b == CR then Decode(s) else (if b == LF then Settled(s) else Decode(s)) + [b]
    ensures Held(s + [b]) <==> b == CR
  {
    assert (s + [b])[..|s|] == s;
    if s != [] {
      assert (s + [b])[..|s| - 1] == s[..|s| - 1];
    }
  }

  lemma SettledCarry(held: bool)
    ensures Settled(Carry(held)) == [] && Held(Carry(held)) == held && Decode(Carry(held)) == Carry(held)
  {
  }

  lemma Regroup(a: seq<Byte>, b: seq<Byte>, c: seq<Byte>)
    ensures a + b + c == a + (b + c)
  {
  }

  /** One chunk at a time: a CR at the end of what came before is settled by the first byte of the chunk. */
  lemma {:induction false} SettledChunk(s: seq<Byte>, chunk: seq<Byte>)
    ensures Settled(s + chunk) == Settled(s) + Settled(Carry(Held(s)) + chunk)
    ensures Held(s + chunk) == Held(Carry(Held(s)) + chunk)
  {
    hide Settled, Decode, Held, Carry;
    var k := Carry(Held(s));
    if chunk == [] {
      SettledCarry(Held(s));
      assert s + chunk == s && k + chunk == k;
    } else {
      var t, b := chunk[..|chunk| - 1], chunk[|chunk| - 1];
      assert s + chunk == s + t + [b] && k + chunk == k + t + [b];
      SettledSnoc(s + t, b);
      SettledSnoc(k + t, b);
      SettledChunk(s, t);
      Regroup(Settled(s), Settled(k + t), [CR]);
      Regroup(Settled(s), Settled(k + t), [b]);
      Regroup(Settled(s), Decode(k + t), [b]);
      assert Held(s + t) ==> Decode(s + t) == Settled(s) + Decode(k + t);
    }
  }

  /** One more byte of output. */
  method Put(buf: array<Byte>, start: nat, out: nat, c: Byte) returns (next: nat)
    requires start <= out < buf.Length
    modifies buf
    ensures next == out + 1 && buf[start..next] == old(buf[start..out]) + [c]
    ensures forall j | 0 <= j < buf.Length && j != out :: buf[j] == old(buf[j])
  {
    buf[out] := c;
    next := out + 1;
  }

  /**
   vsf_ascii_ascii_to_bin, in place: the input is buf[1..inLen + 1] and the output buf[start..start + stored].
   An empty chunk at the end of the stream releases the CR held back.
   */
  method AsciiToBin(buf: array<Byte>, inLen: nat, prevCr: bool) returns (start: nat, stored: nat, lastWasCr: bool)
    requires inLen < buf.Length
    modifies buf
    ensures start <= 1 && start + stored <= inLen + 1
    ensures var c := Carry(prevCr) + old(buf[1..inLen + 1]);
            buf[start..start + stored] == (if inLen == 0 then Decode(c) else Settled(c))
            && lastWasCr == (inLen > 0 && Held(c))
  {
    hide Settled, Decode, Partial, Carry, Held;
    ghost var chunk := buf[1..inLen + 1];
    var i, out := 0, 1;
    lastWasCr := false;
    start := 1;
    PartialStart(prevCr, chunk);
    if prevCr && (inLen == 0 || buf[1] != LF) {
      buf[0] := CR;
      start := 0;
    }
    while i < inLen
      invariant i <= inLen && 1 <= out <= i + 1 && start <= 1
      invariant forall j | i < j <= inLen :: buf[j] == chunk[j - 1]
      invariant buf[start..out] == Partial(prevCr, chunk, i)
      invariant lastWasCr == (i == inLen && inLen > 0 && chunk[inLen - 1] == CR)
    {
      PartialNext(prevCr, chunk, i);
      var theChar := buf[i + 1];
      if theChar != CR {
        out := Put(buf, start, out, theChar);
      } else if i == inLen - 1 {
        lastWasCr := true;
      } else if buf[i + 2] != LF {
        out := Put(buf, start, out, theChar);
      }
      i := i + 1;
    }
    stored := out - start;
    PartialEnd(prevCr, chunk);
  }

  /**
   The bytes the loop has written before it looks at chunk[i]: it looks one byte ahead to settle a CR.
   An empty chunk is the end of the stream.
   */
  function Partial(prevCr: bool, chunk: seq<Byte>, i: nat): seq<Byte>
    requires i <= |chunk|
  {
    var c := Carry(prevCr) + chunk[..i];
    if chunk == [] || (i < |chunk| && chunk[i] != LF) then Decode(c) else Settled(c)
  }

  lemma PartialStart(prevCr: bool, chunk: seq<Byte>)
    ensures Partial(prevCr, chunk, 0) == if prevCr && (chunk == [] || chunk[0] != LF) then [CR] else []
  {
    SettledCarry(prevCr);
    assert Carry(prevCr) + chunk[..0] == Carry(prevCr);
  }

  lemma PartialNext(prevCr: bool, chunk: seq<Byte>, i: nat)
    requires i < |chunk|
    ensures Partial(prevCr, chunk, i + 1) == Partial(prevCr, chunk, i) +
            if chunk[i] != CR then [chunk[i]] else if i == |chunk| - 1 || chunk[i + 1] == LF then [] else [CR]
  {
    var c := Carry(prevCr) + chunk[..i];
    assert Carry(prevCr) + chunk[..i + 1] == c + [chunk[i]];
    SettledSnoc(c, chunk[i]);
  }

  lemma PartialEnd(prevCr: bool, chunk: seq<Byte>)
    ensures var c := Carry(prevCr) + chunk;
            && Partial(prevCr, chunk, |chunk|) == (if chunk == [] then Decode(c) else Settled(c))
            && (chunk != [] ==> (Held(c) <==> chunk[|chunk| - 1] == CR))
  {
    assert chunk[..|chunk|] == chunk;
  }

  // ---------------------------------------------------------------- receiving a file

  const DATA_BUFSIZE: nat := 65536

  /** get_chunk_size */
  function ChunkSize(tunable: nat): (size: nat)
    ensures 4096 <= size <= 65536
    ensures 4096 <= tunable <= 65536 ==> size == tunable
    ensures tunable == 0 || tunable > 65536 ==> size == 65536
    ensures 0 < tunable < 4096 ==> size == 4096
  {
    if 0 < tunable < DATA_BUFSIZE then if tunable < 4096 then 4096 else tunable else DATA_BUFSIZE
  }

  function Flat(chunks: seq<seq<Byte>>): seq<Byte> {
    if chunks == [] then [] else Flat(chunks[..|chunks| - 1]) + chunks[|chunks| - 1]
  }

  lemma FlatNext(chunks: seq<seq<Byte>>, n: nat)
    requires n < |chunks|
    ensures Flat(chunks[..n + 1]) == Flat(chunks[..n]) + chunks[n]
  {
    assert chunks[..n + 1][..n] == chunks[..n];
  }

  datatype Ret = Complete | FileFailed | NetFailed

  /** A file after a write, when it can hold `room` bytes in all. */
  function Fitted(file: seq<Byte>, bytes: seq<Byte>, room: nat): (r: seq<Byte>)
    requires |file| <= room
    ensures |r| <= room && r <= file + bytes
  {
    if |file| + |bytes| <= room then file + bytes else (file + bytes)[..room]
  }

  /** vsf_sysutil_write_loop on a file that takes `room` more bytes in all. */
  method WriteLoop(file: seq<Byte>, bytes: seq<Byte>, room: nat) returns (after: seq<Byte>, ok: bool)
    requires |file| <= room
    ensures after == Fitted(file, bytes, room)
    ensures ok <==> |file + bytes| <= room
    ensures !ok ==> |after| == room
  {
    ok := |file| + |bytes| <= room;
    after := if ok then file + bytes else (file + bytes)[..room];
  }

  /** What the file should hold once all of s has arrived. */
  function Stored(isAscii: bool, s: seq<Byte>): seq<Byte> {
    if isAscii then Decode(s) else s
  }

  /** What it can hold while more may come. */
  function StoredSoFar(isAscii: bool, s: seq<Byte>): seq<Byte> {
    if isAscii then Settled(s) else s
  }

  lemma ReceiveNext(isAscii: bool, s: seq<Byte>, chunk: seq<Byte>)
    ensures StoredSoFar(isAscii, s + chunk) == StoredSoFar(isAscii, s) +
            if isAscii then Settled(Carry(Held(s)) + chunk) else chunk
    ensures Held(s + chunk) == Held(Carry(Held(s)) + chunk)
    ensures Stored(isAscii, s) == StoredSoFar(isAscii, s) + if isAscii then Carry(Held(s)) else []
    ensures Decode(Carry(Held(s)) + []) == Carry(Held(s))
  {
    SettledChunk(s, chunk);
    SettledCarry(Held(s));
    assert Carry(Held(s)) + [] == Carry(Held(s));
  }

  lemma {:induction false} FlatSplit(chunks: seq<seq<Byte>>, n: nat) returns (rest: seq<Byte>)
    requires n <= |chunks|
    ensures Flat(chunks) == Flat(chunks[..n]) + rest
  {
    if n == |chunks| {
      rest := [];
      assert chunks[..n] == chunks;
    } else {
      var before := chunks[..|chunks| - 1];
      rest := FlatSplit(before, n);
      assert before[..n] == chunks[..n];
      rest := rest + chunks[|chunks| - 1];
    }
  }

  /** What is in the file early on stays its beginning. */
  lemma StoredGrows(isAscii: bool, net: seq<seq<Byte>>, n: nat)
    requires n <= |net|
    ensures StoredSoFar(isAscii, Flat(net[..n])) <= StoredSoFar(isAscii, Flat(net)) <= Stored(isAscii, Flat(net))
  {
    hide Decode, Settled, Held, Carry;
    var rest := FlatSplit(net, n);
    ReceiveNext(isAscii, Flat(net[..n]), rest);
    ReceiveNext(isAscii, Flat(net), []);
  }

  /** One turn of do_file_recv: convert what has been read and write it. */
  method ReceiveChunk(buf: array<Byte>, chunk: seq<Byte>, prevCr: bool, isAscii: bool, file: seq<Byte>, room: nat)
    returns (after: seq<Byte>, nextCr: bool, ok: bool)
    requires buf.Length == DATA_BUFSIZE + 1 && |chunk| <= DATA_BUFSIZE && |file| <= room
    modifies buf
    ensures var out := Out(isAscii, prevCr, chunk);
            && after == Fitted(file, out, room)
            && (ok <==> |file + out| <= room)
            && nextCr == (if isAscii then chunk != [] && Held(Carry(prevCr) + chunk) else prevCr)
            && (if ok then after == file + out else |after| == room)
  {
    hide Decode, Settled, Held, Carry;
    forall j | 0 <= j < |chunk| {
      buf[j + 1] := chunk[j];
    }
    assert buf[1..|chunk| + 1] == chunk;
    var start, stored := 1, |chunk|;
    nextCr := prevCr;
    if isAscii {
      start, stored, nextCr := AsciiToBin(buf, |chunk|, prevCr);
    }
    after, ok := WriteLoop(file, buf[start..start + stored], room);
  }

  lemma NothingYet(isAscii: bool, net: seq<seq<Byte>>)
    ensures Flat(net[..0]) == [] && StoredSoFar(isAscii, []) == [] && !Held([])
  {
  }

  /**
   The file holds the beginning of what should be in it, as much as there is room for, and the count stands
   at the first chunk whose settled text does not fit; at the end when only the held CR does not.
   */
  ghost predicate Filled(net: seq<seq<Byte>>, isAscii: bool, room: nat, file: seq<Byte>, count: nat) {
    && file <= Stored(isAscii, Flat(net)) && |file| == room
    && exists n | 0 <= n <= |net| ::
         && count == |Flat(net[..n])| && (n > 0 ==> |StoredSoFar(isAscii, Flat(net[..n - 1]))| <= room)
         && (n < |net| ==> |StoredSoFar(isAscii, Flat(net[..n]))| > room)
  }

  lemma FilledHere(net: seq<seq<Byte>>, isAscii: bool, room: nat, file: seq<Byte>, n: nat, flush: bool)
    requires n <= |net| && file <= Stored(isAscii, Flat(net)) && |file| == room
    requires if flush then n == |net| && |StoredSoFar(isAscii, Flat(net))| <= room
             else n > 0 && |StoredSoFar(isAscii, Flat(net[..n - 1]))| <= room < |StoredSoFar(isAscii, Flat(net[..n]))|
    ensures Filled(net, isAscii, room, file, |Flat(net[..n])|)
  {
    hide StoredSoFar, Flat, Stored;
    assert net[..|net|] == net;
    if flush && n > 0 {
      StoredGrows(isAscii, net, n - 1);
    }
  }

  /** What one turn of the loop writes, before it looks at the next chunk. */
  function Out(isAscii: bool, prevCr: bool, chunk: seq<Byte>): seq<Byte> {
    var c := Carry(prevCr) + chunk;
    if !isAscii then chunk else if chunk == [] then Decode(c) else Settled(c)
  }

  /** A turn with a chunk moves the file from what the chunks before settle to what they settle with it. */
  lemma ChunkMeans(isAscii: bool, net: seq<seq<Byte>>, n: nat)
    requires n < |net| && net[n] != []
    ensures var s, t := Flat(net[..n]), Flat(net[..n + 1]);
            var prevCr := isAscii && Held(s);
            && t == s + net[n] && StoredSoFar(isAscii, t) == StoredSoFar(isAscii, s) + Out(isAscii, prevCr, net[n])
            && (isAscii ==> Held(t) == Held(Carry(prevCr) + net[n]))
            && StoredSoFar(isAscii, t) <= StoredSoFar(isAscii, Flat(net)) <= Stored(isAscii, Flat(net))
  {
    hide Decode, Settled, Held, Carry, Flat;
    FlatNext(net, n);
    ReceiveNext(isAscii, Flat(net[..n]), net[n]);
    StoredGrows(isAscii, net, n + 1);
  }

  /** The turn at the end of the stream settles the CR held back. */
  lemma EndMeans(isAscii: bool, net: seq<seq<Byte>>)
    ensures var s := Flat(net);
            var prevCr := isAscii && Held(s);
            && Stored(isAscii, s) == StoredSoFar(isAscii, s) + (if prevCr then Out(isAscii, true, []) else [])
            && StoredSoFar(isAscii, s) <= Stored(isAscii, s)
  {
    hide Decode, Settled, Held, Flat;
    ReceiveNext(isAscii, Flat(net), []);
    SettledCarry(true);
    SettledCarry(false);
    assert Carry(true) + [] == Carry(true);
  }

  /**
   do_file_recv: however the network cuts the upload into chunks, a complete one is stored as the
   decoding of all of it.  When the network fails, what has arrived is stored but for a CR not yet settled;
   when the file does, it is filled, and the count is of the chunks up to the one that did not fit.
   */
  method FileRecv(net: seq<seq<Byte>>, netFails: bool, room: nat, isAscii: bool, tunable: nat)
    returns (file: seq<Byte>, transferred: nat, ret: Ret)
    requires forall c | c in net :: 0 < |c| <= ChunkSize(tunable)
    ensures file <= Stored(isAscii, Flat(net))
    ensures ret.Complete? ==> file == Stored(isAscii, Flat(net)) && transferred == |Flat(net)|
    ensures ret.Complete? <==> !netFails && |Stored(isAscii, Flat(net))| <= room
    ensures ret.NetFailed? <==> netFails && |StoredSoFar(isAscii, Flat(net))| <= room
    ensures ret.NetFailed? ==> file == StoredSoFar(isAscii, Flat(net)) && transferred == |Flat(net)|
    ensures ret.FileFailed? ==> Filled(net, isAscii, room, file, transferred)
  {
    hide Decode, Settled, Held, ChunkSize, Fitted, Flat, Stored, StoredSoFar, Filled, Carry, Out;
    NothingYet(isAscii, net);
    EndMeans(isAscii, net);
    StoredGrows(isAscii, net, 0);
    assert net[..|net|] == net;
    var buf := new Byte[DATA_BUFSIZE + 1];
    var prevCr, n := false, 0;
    file, transferred := [], 0;
    while true
      invariant n <= |net| && |file| <= room && fresh(buf) && transferred == |Flat(net[..n])|
      invariant file <= Stored(isAscii, Flat(net)) && (prevCr ==> isAscii)
      invariant if n == |net| && !prevCr && isAscii && Held(Flat(net)) then !netFails && file == Stored(isAscii, Flat(net))
                else file == StoredSoFar(isAscii, Flat(net[..n])) && prevCr == (isAscii && Held(Flat(net[..n])))
      decreases |net| - n, prevCr
    {
      if n == |net| && netFails {
        ret := NetFailed;
        return;
      }
      if n == |net| && !prevCr {
        ret := Complete;
        return;
      }
      var chunk := if n < |net| then net[n] else [];
      if n < |net| {
        ChunkMeans(isAscii, net, n);
      }
      transferred := transferred + |chunk|;
      var ok;
      file, prevCr, ok := ReceiveChunk(buf, chunk, prevCr, isAscii, file, room);
      if n < |net| {
        n := n + 1;
      }
      if !ok {
        ret := FileFailed;
        FilledHere(net, isAscii, room, file, n, chunk == []);
        return;
      }
    }
  }

  // ---------------------------------------------------------------- file to wire

  predicate LastCr(s: seq<Byte>, prevCr: bool) {
    if s == [] then prevCr else s[|s| - 1] == CR
  }

  /** Every LF without a CR before it gets one. */
  function Encode(s: seq<Byte>, prevCr: bool): (r: seq<Byte>)
    ensures |s| <= |r| <= 2 * |s|
  {
    if s == [] then [] else
    var t, b := s[..|s| - 1], s[|s| - 1];
    Encode(t, prevCr) + if b == LF && !LastCr(t, prevCr) then [CR, LF] else [b]
  }

  lemma EncodeSnoc(s: seq<Byte>, b: Byte, prevCr: bool)
    ensures Encode(s + [b], prevCr) == Encode(s, prevCr) + if b == LF && !LastCr(s, prevCr) then [CR, LF] else [b]
    ensures LastCr(s + [b], prevCr) == (b == CR)
  {
    assert (s + [b])[..|s|] == s;
  }

  /** One chunk at a time, with one bit carried over. */
  lemma {:induction false} EncodeChunk(s: seq<Byte>, chunk: seq<Byte>, prevCr: bool)
    ensures Encode(s + chunk, prevCr) == Encode(s, prevCr) + Encode(chunk, LastCr(s, prevCr))
    ensures LastCr(s + chunk, prevCr) == LastCr(chunk, LastCr(s, prevCr))
  {
    if chunk == [] {
      assert s + chunk == s;
    } else {
      var t, b := chunk[..|chunk| - 1], chunk[|chunk| - 1];
      assert s + chunk == s + t + [b];
      EncodeSnoc(s + t, b, prevCr);
      EncodeChunk(s, t, prevCr);
    }
  }

  lemma {:induction false} EncodeLastCr(s: seq<Byte>, prevCr: bool)
    ensures LastCr(Encode(s, prevCr), prevCr) == LastCr(s, prevCr)
  {
    if s == [] {
    } else {
      EncodeLastCr(s[..|s| - 1], prevCr);
    }
  }

  /** Encoding what is already encoded changes nothing. */
  lemma {:induction false} EncodeTwice(s: seq<Byte>, prevCr: bool)
    ensures Encode(Encode(s, prevCr), prevCr) == Encode(s, prevCr)
  {
    if s == [] {
    } else {
      var t, b := s[..|s| - 1], s[|s| - 1];
      assert s == t + [b];
      EncodeTwice(t, prevCr);
      EncodeTwiceNext(t, b, prevCr);
    }
  }

  lemma EncodeTwiceNext(t: seq<Byte>, b: Byte, prevCr: bool)
    requires Encode(Encode(t, prevCr), prevCr) == Encode(t, prevCr)
    ensures Encode(Encode(t + [b], prevCr), prevCr) == Encode(t + [b], prevCr)
  {
    hide Encode, LastCr;
    var e := Encode(t, prevCr);
    EncodeLastCr(t, prevCr);
    EncodeSnoc(t, b, prevCr);
    if b == LF && !LastCr(t, prevCr) {
      EncodeSnoc(e, CR, prevCr);
      EncodeSnoc(e + [CR], LF, prevCr);
      assert e + [CR] + [LF] == e + [CR, LF];
    } else {
      EncodeSnoc(e, b, prevCr);
    }
  }

  lemma SettledTogether(s: seq<Byte>, t: seq<Byte>)
    requires Decode(s) == Decode(t) && Held(s) == Held(t)
    ensures Settled(s) == Settled(t)
  {
    hide Decode, Settled, Held;
    var n := |Decode(s)| - if Held(s) then 1 else 0;
    assert Settled(s) == Decode(s)[..n] && Settled(t) == Decode(t)[..n];
  }

  /** What a receiver makes of the encoding is what it would make of the file itself. */
  lemma {:induction false} DecodeEncode(s: seq<Byte>)
    ensures Decode(Encode(s, false)) == Decode(s)
    ensures Held(Encode(s, false)) == Held(s) == LastCr(s, false)
  {
    if s == [] {
    } else {
      var t, b := s[..|s| - 1], s[|s| - 1];
      assert s == t + [b];
      DecodeEncode(t);
      DecodeEncodeNext(t, b);
    }
  }

  lemma DecodeEncodeNext(t: seq<Byte>, b: Byte)
    requires Decode(Encode(t, false)) == Decode(t) && Held(Encode(t, false)) == Held(t) == LastCr(t, false)
    ensures Decode(Encode(t + [b], false)) == Decode(t + [b])
    ensures Held(Encode(t + [b], false)) == Held(t + [b]) == LastCr(t + [b], false)
  {
    hide Decode, Settled, Held, Encode, LastCr;
    var e := Encode(t, false);
    EncodeSnoc(t, b, false);
    DecodeSnoc(t, b);
    if b == LF && !Held(t) {
      DecodeSnoc(e, CR);
      DecodeSnoc(e + [CR], LF);
      assert e + [CR] + [LF] == e + [CR, LF];
    } else {
      SettledTogether(e, t);
      DecodeSnoc(e, b);
    }
  }

  lemma DecodeSnoc(s: seq<Byte>, b: Byte)
    ensures Decode(s + [b]) == (if b == LF then Settled(s) else Decode(s)) + [b]
    ensures Settled(s + [CR]) == Decode(s)
    ensures Held(s + [b]) <==> b == CR
    ensures !Held(s) ==> Settled(s) == Decode(s)
  {
    SettledSnoc(s, b);
    SettledSnoc(s, CR);
  }

  predicate HasPair(s: seq<Byte>) {
    exists i :: 0 <= i < |s| - 1 && s[i] == CR && s[i + 1] == LF
  }

  lemma PairSnoc(s: seq<Byte>, b: Byte)
    ensures HasPair(s + [b]) <==> HasPair(s) || (Held(s) && b == LF)
  {
    var t := s + [b];
    if HasPair(s) {
      var i :| 0 <= i < |s| - 1 && s[i] == CR && s[i + 1] == LF;
      assert t[i] == CR && t[i + 1] == LF;
    }
    if Held(s) && b == LF {
      assert t[|s| - 1] == CR && t[|s| - 1 + 1] == LF;
    }
  }

  /** Only a CR LF pair makes the decoding differ from the bytes themselves. */
  lemma {:induction false} DecodeIdentity(s: seq<Byte>)
    ensures Decode(s) == s <==> !HasPair(s)
    ensures HasPair(s) ==> |Decode(s)| < |s|
  {
    if s == [] {
    } else {
      hide Decode, Settled, Held, HasPair;
      var t, b := s[..|s| - 1], s[|s| - 1];
      assert s == t + [b];
      DecodeIdentity(t);
      PairSnoc(t, b);
      DecodeSnoc(t, b);
    }
  }

  /** Decoding is done at each pair on its own: up to the first one nothing changes, and that becomes an LF. */
  lemma DecodeFirstPair(s: seq<Byte>, t: seq<Byte>)
    requires !HasPair(s)
    ensures Decode(s + [CR, LF] + t) == s + [LF] + Decode(t)
  {
    hide Decode, Settled, Held, HasPair, Carry;
    var p := s + [CR, LF];
    assert p == s + [CR] + [LF];
    DecodeIdentity(s);
    DecodeSnoc(s, CR);
    DecodeSnoc(s + [CR], LF);
    assert !Held(p) && Decode(p) == s + [LF];
    SettledChunk(p, t);
    assert Carry(false) == [] by { NoCarry(); }
    assert Carry(false) + t == t;
    ReceiveNext(true, p + t, []);
    ReceiveNext(true, t, []);
    DecodeSnoc(p, LF);
    StoredIs(p + t);
    StoredIs(t);
    assert s + [LF] + Settled(t) + Carry(Held(t)) == s + [LF] + (Settled(t) + Carry(Held(t)));
  }

  lemma NoCarry()
    ensures Carry(false) == []
  {
  }

  lemma StoredIs(s: seq<Byte>)
    ensures Decode(s) == Settled(s) + Carry(Held(s))
  {
    ReceiveNext(true, s, []);
  }

  /** An LF without a CR before it. */
  predicate HasBareLf(s: seq<Byte>) {
    exists i :: 0 <= i < |s| && s[i] == LF && (i == 0 || s[i - 1] != CR)
  }

  lemma BareSnoc(s: seq<Byte>, b: Byte)
    ensures HasBareLf(s) || (b == LF && !LastCr(s, false)) ==> HasBareLf(s + [b])
  {
    var t := s + [b];
    if HasBareLf(s) {
      var i :| 0 <= i < |s| && s[i] == LF && (i == 0 || s[i - 1] != CR);
      assert t[i] == s[i] && (i > 0 ==> t[i - 1] == s[i - 1]);
      assert HasBareLf(t);
    }
    if b == LF && !LastCr(s, false) {
      assert t[|s|] == LF && (|s| > 0 ==> t[|s| - 1] == s[|s| - 1]);
      assert HasBareLf(t);
    }
  }

  lemma {:induction false} EncodeIdentity(s: seq<Byte>)
    requires !HasBareLf(s)
    ensures Encode(s, false) == s
  {
    if s == [] {
    } else {
      var t, b := s[..|s| - 1], s[|s| - 1];
      assert s == t + [b];
      BareSnoc(t, b);
      EncodeIdentity(t);
      EncodeSnoc(t, b, false);
    }
  }

  /** Encoding likewise: up to the first bare LF nothing changes, and that gets its CR. */
  lemma EncodeFirstLf(s: seq<Byte>, t: seq<Byte>)
    requires !HasBareLf(s) && (s == [] || s[|s| - 1] != CR)
    ensures Encode(s + [LF] + t, false) == s + [CR, LF] + Encode(t, false)
  {
    hide Encode;
    EncodeIdentity(s);
    EncodeSnoc(s, LF, false);
    EncodeChunk(s + [LF], t, false);
  }

  /** A file sent and received in ASCII mode comes back as it was exactly when it holds no CR LF. */
  lemma AsciiRoundTrip(s: seq<Byte>)
    ensures Decode(Encode(s, false)) == s <==> !HasPair(s)
  {
    DecodeEncode(s);
    DecodeIdentity(s);
  }

  /** vsf_ascii_bin_to_ascii; the output buffer is twice as large as the input. */
  method BinToAscii(input: array<Byte>, output: array<Byte>, inLen: nat, prevCr: bool)
    returns (stored: nat, lastWasCr: bool)
    requires input != output && inLen <= input.Length && 2 * inLen <= output.Length
    modifies output
    ensures stored <= output.Length && output[..stored] == Encode(input[..inLen], prevCr)
    ensures lastWasCr == LastCr(input[..inLen], prevCr)
  {
    hide Encode, LastCr;
    ghost var s := input[..inLen];
    var i := 0;
    stored, lastWasCr := 0, prevCr;
    EncodeNone(s, prevCr);
    while i < inLen
      invariant i <= inLen && stored <= 2 * i
      invariant output[..stored] == Encode(s[..i], prevCr)
      invariant lastWasCr == LastCr(s[..i], prevCr)
    {
      var theChar := input[i];
      assert s[..i + 1] == s[..i] + [theChar];
      EncodeSnoc(s[..i], theChar, prevCr);
      ghost var before := output[..stored];
      if theChar == LF && !lastWasCr {
        output[stored] := CR;
        stored := stored + 1;
        output[stored] := theChar;
        stored := stored + 1;
        assert output[..stored] == before + [CR, LF];
      } else {
        output[stored] := theChar;
        stored := stored + 1;
        assert output[..stored] == before + [theChar];
      }
      i := i + 1;
      lastWasCr := theChar == CR;
    }
    assert s[..i] == s;
  }

  lemma EncodeNone(s: seq<Byte>, prevCr: bool)
    ensures Encode(s[..0], prevCr) == [] && LastCr(s[..0], prevCr) == prevCr
  {
  }

  /** What the peer should get once all of s has been read. */
  function Wire(isAscii: bool, s: seq<Byte>): seq<Byte> {
    if isAscii then Encode(s, false) else s
  }

  lemma SendNext(isAscii: bool, s: seq<Byte>, chunk: seq<Byte>)
    ensures Wire(isAscii, s + chunk) == Wire(isAscii, s) + if isAscii then Encode(chunk, LastCr(s, false)) else chunk
    ensures LastCr(s + chunk, false) == LastCr(chunk, LastCr(s, false))
  {
    EncodeChunk(s, chunk, false);
  }

  lemma WireGrows(isAscii: bool, chunks: seq<seq<Byte>>, n: nat)
    requires n <= |chunks|
    ensures Wire(isAscii, Flat(chunks[..n])) <= Wire(isAscii, Flat(chunks))
  {
    hide Encode;
    var rest := FlatSplit(chunks, n);
    SendNext(isAscii, Flat(chunks[..n]), rest);
  }

  /** One turn of do_file_send_rwloop: convert what has been read and send it. */
  method SendChunk(read: array<Byte>, ascii: array<Byte>, chunk: seq<Byte>, prevCr: bool, isAscii: bool,
                   wire: seq<Byte>, room: nat) returns (after: seq<Byte>, nextCr: bool, ok: bool)
    requires read != ascii && read.Length == DATA_BUFSIZE && ascii.Length == 2 * DATA_BUFSIZE
    requires |chunk| <= DATA_BUFSIZE && |wire| <= room
    modifies read, ascii
    ensures var out := if isAscii then Encode(chunk, prevCr) else chunk;
            && after == Fitted(wire, out, room) && (ok <==> |wire + out| <= room)
            && (if ok then after == wire + out else |after| == room)
            && nextCr == if isAscii then LastCr(chunk, prevCr) else prevCr
  {
    hide Encode, LastCr;
    forall j | 0 <= j < |chunk| {
      read[j] := chunk[j];
    }
    assert read[..|chunk|] == chunk;
    nextCr := prevCr;
    if isAscii {
      var stored;
      stored, nextCr := BinToAscii(read, ascii, |chunk|, prevCr);
      after, ok := WriteLoop(wire, ascii[..stored], room);
    } else {
      after, ok := WriteLoop(wire, read[..|chunk|], room);
    }
  }

  lemma NothingSent(isAscii: bool, pieces: seq<seq<Byte>>)
    ensures Flat(pieces[..0]) == [] && Wire(isAscii, []) == [] && !LastCr([], false)
  {
  }

  /** The count of a download that the network cut off after `room` bytes. */
  ghost predicate Cut(pieces: seq<seq<Byte>>, isAscii: bool, room: nat, short: bool, count: nat) {
    exists n | 0 <= n < |pieces| ::
      && |Wire(isAscii, Flat(pieces[..n]))| <= room < |Wire(isAscii, Flat(pieces[..n + 1]))|
      && count == if short then room else |Wire(isAscii, Flat(pieces[..n]))|
  }

  lemma CutHere(pieces: seq<seq<Byte>>, isAscii: bool, room: nat, short: bool, n: nat)
    requires 0 < n <= |pieces|
    requires |Wire(isAscii, Flat(pieces[..n - 1]))| <= room < |Wire(isAscii, Flat(pieces[..n]))|
    ensures Cut(pieces, isAscii, room, short, if short then room else |Wire(isAscii, Flat(pieces[..n - 1]))|)
  {
    hide Wire, Flat;
    assert pieces[..n - 1 + 1] == pieces[..n];
  }

  /**
   do_file_send_rwloop: however the file is cut into chunks, a complete download is the encoding of all
   of it, as is all that was read when the file fails.  When the network takes no more than `room` bytes it
   has got just these; they are all counted if the last write was short, else those of the chunks before it.
   */
  method FileSend(pieces: seq<seq<Byte>>, fileFails: bool, room: nat, isAscii: bool, tunable: nat, short: bool)
    returns (wire: seq<Byte>, transferred: nat, ret: Ret)
    requires forall c | c in pieces :: 0 < |c| <= ChunkSize(tunable)
    ensures wire <= Wire(isAscii, Flat(pieces))
    ensures ret.Complete? ==> wire == Wire(isAscii, Flat(pieces))
    ensures ret.Complete? <==> !fileFails && |Wire(isAscii, Flat(pieces))| <= room
    ensures ret.FileFailed? <==> fileFails && |Wire(isAscii, Flat(pieces))| <= room
    ensures !ret.NetFailed? ==> wire == Wire(isAscii, Flat(pieces)) && transferred == |wire|
    ensures ret.NetFailed? ==> |wire| == room && Cut(pieces, isAscii, room, short, transferred)
  {
    hide Encode, LastCr, ChunkSize, Cut, Fitted, Flat, Wire;
    var read, ascii := new Byte[DATA_BUFSIZE], new Byte[2 * DATA_BUFSIZE];
    var prevCr, n := false, 0;
    wire, transferred := [], 0;
    NothingSent(isAscii, pieces);
    assert pieces[..|pieces|] == pieces;
    while n < |pieces|
      invariant n <= |pieces| && transferred == |wire| <= room && fresh(read) && fresh(ascii)
      invariant wire == Wire(isAscii, Flat(pieces[..n])) && prevCr == (isAscii && LastCr(Flat(pieces[..n]), false))
    {
      SendNext(isAscii, Flat(pieces[..n]), pieces[n]);
      FlatNext(pieces, n);
      var ok;
      wire, prevCr, ok := SendChunk(read, ascii, pieces[n], prevCr, isAscii, wire, room);
      n := n + 1;
      WireGrows(isAscii, pieces, n);
      if !ok {
        ret := NetFailed;
        if short {
          transferred := |wire|;
        }
        CutHere(pieces, isAscii, room, short, n);
        return;
      }
      transferred := |wire|;
    }
    ret := if fileFails then FileFailed else Complete;
  }
}
