/** SendNalu264 (rtputils.c): one NAL unit as RTP packets, and the receiver of section 5 of RFC 6184. */
module RtpPacketizer {
  import opened Basics

  type Seq16 = n: int | 0 <= n < 0x1_0000

  const MAX_LENGTH: nat := 1400

  const FU_A: int := 28

  /** An RTP packet: the header fields a receiver of NAL units looks at, and the payload. */
  datatype Packet = Packet(number: Seq16, marker: bool, payload: seq<Byte>)

  function Next(n: Seq16): Seq16 {
    if n == 0xffff then 0 else n + 1
  }

  /** The low five bits. */
  function Type(b: Byte): int { b % 32 }

  /** The byte with another type. */
  function Retyped(b: Byte, t: int): Byte
    requires 0 <= t < 32
  {
    b - b % 32 + t
  }

  // ---------------------------------------------------------------- the sender

  function FuHeader(start: bool, end: bool, t: int): Byte
    requires 0 <= t < 32
  {
    (if start then 0x80 else 0) + (if end then 0x40 else 0) + t
  }

  /** The fragments from an offset on. */
  function Fragments(nal: seq<Byte>, at: nat, number: Seq16): seq<Packet>
    requires 1 <= at < |nal|
    decreases |nal| - at
  {
    var last := |nal| - at <= MAX_LENGTH;
    var n := if last then |nal| else at + MAX_LENGTH;
    [Packet(number, last, [Retyped(nal[0], FU_A), FuHeader(at == 1, last, Type(nal[0]))] + nal[at..n])]
    + if last then [] else Fragments(nal, n, Next(number))
  }

  /** Everything one call sends. */
  function Packets(nal: seq<Byte>, number: Seq16): seq<Packet>
    requires nal != []
  {
    if |nal| - 1 <= MAX_LENGTH then [Packet(number, true, nal)] else Fragments(nal, 1, number)
  }

  /** The sequence number after a run of packets. */
  function After(number: Seq16, n: nat): Seq16
    decreases n
  {
    if n == 0 then number else After(Next(number), n - 1)
  }

  /** memcpy into pSendBuf. */
  method Fill(buf: array<Byte>, at: nat, bytes: seq<Byte>)
    requires at + |bytes| <= buf.Length
    modifies buf
    ensures buf[at..at + |bytes|] == bytes
    ensures forall i | 0 <= i < at :: buf[i] == old(buf[i])
  {
    forall i | 0 <= i < |bytes| {
      buf[at + i] := bytes[i];
    }
  }

  /** The single NAL unit packet. */
  method SendSingle(buf: array<Byte>, nal: seq<Byte>, number: Seq16, sends: nat) returns (ok: bool, sent: seq<Packet>)
    requires nal != [] && |nal| - 1 <= MAX_LENGTH && buf.Length == MAX_LENGTH + 100
    modifies buf
    ensures ok == (sends > 0) && sent == if ok then [Packet(number, true, nal)] else []
  {
    Fill(buf, 12, [nal[0]]);
    Fill(buf, 13, nal[1..]);
    ok := sends > 0;
    var bytes := |nal| - 1 + 13;
    assert buf[12] == nal[0] && buf[12..bytes] == [buf[12]] + buf[13..bytes];
    assert nal == [nal[0]] + nal[1..];
    sent := if ok then [Packet(number, true, buf[12..bytes])] else [];
  }

  /** FU header and payload of one fragment; the FU indicator is in place already. */
  method FillFragment(buf: array<Byte>, header: Byte, chunk: seq<Byte>) returns (payload: seq<Byte>)
    requires |chunk| <= MAX_LENGTH && buf.Length == MAX_LENGTH + 100
    modifies buf
    ensures payload == [buf[12], header] + chunk && buf[12] == old(buf[12])
  {
    Fill(buf, 13, [header]);
    Fill(buf, 14, chunk);
    payload := buf[12..14 + |chunk|];
    assert payload == [buf[12]] + [buf[13]] + buf[14..14 + |chunk|];
  }

  lemma FragmentStep(nal: seq<Byte>, at: nat, number: Seq16, sent: seq<Packet>)
    requires 1 <= at < |nal|
    ensures var last := |nal| - at <= MAX_LENGTH;
            var n := if last then |nal| else at + MAX_LENGTH;
            var p := Packet(number, last, [Retyped(nal[0], FU_A), FuHeader(at == 1, last, Type(nal[0]))] + nal[at..n]);
            && sent + Fragments(nal, at, number) == sent + [p] + (if last then [] else Fragments(nal, n, Next(number)))
            && (last ==> sent + Fragments(nal, at, number) == sent + [p])
            && |Fragments(nal, at, number)| > 0
  {
  }

  /** SendNalu264; `sends` packets go out before sendto fails.  The number is used up even when it does. */
  method SendNalu(nal: seq<Byte>, number: Seq16, sends: nat) returns (ok: bool, sent: seq<Packet>, next: Seq16)
    requires nal != []
    ensures var all := Packets(nal, number);
            && (ok <==> |all| <= sends)
            && sent == (if ok then all else all[..sends])
            && next == After(number, if ok then |all| else sends + 1)
  {
    hide Fragments, FuHeader, Retyped, Next;
    var buf := new Byte[MAX_LENGTH + 100](_ => 0);
    var curr, remain := 1, |nal| - 1;
    sent, next := [], number;
    AfterStart(number);
    if remain <= MAX_LENGTH {
      next := Next(next);
      ok, sent := SendSingle(buf, nal, number, sends);
      return;
    }
    buf[12] := Retyped(nal[0], FU_A);
    ghost var all := Fragments(nal, 1, number);
    assert [] + all == all;
    while remain > 0
      invariant remain > 0 ==> curr == |nal| - remain && 1 <= curr < |nal|
      invariant buf[12] == Retyped(nal[0], FU_A) && |sent| <= sends
      invariant remain > 0 ==> sent + Fragments(nal, curr, next) == all
      invariant remain <= 0 ==> sent == all
      invariant After(number, |sent|) == next
    {
      var mine := next;
      next := Next(next);
      AfterMore(number, |sent|);
      FragmentStep(nal, curr, mine, sent);
      var marker := remain <= MAX_LENGTH;
      var bytes := if remain < MAX_LENGTH then remain else MAX_LENGTH;
      var header := FuHeader(remain == |nal| - 1, remain <= MAX_LENGTH, Type(nal[0]));
      var payload := FillFragment(buf, header, nal[curr..curr + bytes]);
      if |sent| >= sends {
        assert all[..|sent|] == sent && |all| > |sent|;
        return false, sent, next;
      }
      sent := sent + [Packet(mine, marker, payload)];
      curr := curr + MAX_LENGTH;
      remain := remain - MAX_LENGTH;
    }
    ok := true;
  }

  lemma AfterStart(number: Seq16)
    ensures After(number, 0) == number && After(number, 1) == Next(number)
  {
    assert After(Next(number), 0) == Next(number);
  }

  lemma {:induction false} AfterMore(number: Seq16, n: nat)
    ensures After(number, n + 1) == Next(After(number, n))
    decreases n
  {
    if n == 0 {
    } else {
      AfterMore(Next(number), n - 1);
    }
  }

  // ---------------------------------------------------------------- the receiver

  /** A receiver of one NAL unit: nothing yet, fragments so far and the number it expects, the unit, or a loss. */
  datatype Receiver = Waiting | Partial(nal: seq<Byte>, next: Seq16) | Whole(nal: seq<Byte>) | Lost

  /** One packet (sections 5.6 and 5.8 of RFC 6184). */
  function Receive(r: Receiver, p: Packet): Receiver {
    if p.payload == [] then Lost else
    if 1 <= Type(p.payload[0]) <= 23 then if r.Waiting? then Whole(p.payload) else Lost
    else if Type(p.payload[0]) != FU_A || |p.payload| < 2 then Lost
    else
      var start, end := p.payload[1] >= 0x80, p.payload[1] / 0x40 % 2 == 1;
      var chunk := p.payload[2..];
      if start then
        if end || !r.Waiting? then Lost
        else Partial([Retyped(p.payload[0], Type(p.payload[1]))] + chunk, Next(p.number))
      else if !r.Partial? || p.number != r.next then Lost
      else if end then Whole(r.nal + chunk) else Partial(r.nal + chunk, Next(p.number))
  }

  function ReceiveAll(r: Receiver, ps: seq<Packet>): Receiver
    decreases |ps|
  {
    if ps == [] then r else ReceiveAll(Receive(r, ps[0]), ps[1..])
  }

  lemma {:induction false} FragmentsArrive(nal: seq<Byte>, at: nat, number: Seq16, r: Receiver)
    requires 1 <= at < |nal| && (at == 1 ==> |nal| - 1 > MAX_LENGTH)
    requires r == if at == 1 then Waiting else Partial(nal[..at], number)
    ensures ReceiveAll(r, Fragments(nal, at, number)) == Whole(nal)
    decreases |nal| - at
  {
    hide Receive;
    var last := |nal| - at <= MAX_LENGTH;
    var n := if last then |nal| else at + MAX_LENGTH;
    FragmentArrives(nal, at, number, r);
    if last {
      assert nal[..n] == nal;
    } else {
      FragmentsArrive(nal, n, Next(number), Partial(nal[..n], Next(number)));
    }
  }

  /** The first of these fragments. */
  lemma FragmentArrives(nal: seq<Byte>, at: nat, number: Seq16, r: Receiver)
    requires 1 <= at < |nal| && (at == 1 ==> |nal| - 1 > MAX_LENGTH)
    requires r == if at == 1 then Waiting else Partial(nal[..at], number)
    ensures var last := |nal| - at <= MAX_LENGTH;
            var n := if last then |nal| else at + MAX_LENGTH;
            Receive(r, Fragments(nal, at, number)[0]) == if last then Whole(nal[..n]) else Partial(nal[..n], Next(number))
  {
    hide FuHeader, Retyped;
    var last := |nal| - at <= MAX_LENGTH;
    var n := if last then |nal| else at + MAX_LENGTH;
    var p := Fragments(nal, at, number)[0];
    assert p.payload[2..] == nal[at..n];
    FuBits(at == 1, last, Type(nal[0]));
    TypeBack(nal[0]);
    assert nal[..1] + nal[1..n] == nal[..n] && nal[..1] == [nal[0]];
    assert nal[..at] + nal[at..n] == nal[..n];
  }

  lemma TypeBack(b: Byte)
    ensures Type(Retyped(b, FU_A)) == FU_A && Retyped(Retyped(b, FU_A), Type(b)) == b
  {
  }

  lemma FuBits(start: bool, end: bool, t: int)
    requires 0 <= t < 32
    ensures var b := FuHeader(start, end, t);
            && (b >= 0x80 <==> start) && (b / 0x40 % 2 == 1 <==> end) && Type(b) == t
  {
  }

  /** The receiver gets the NAL unit back, unless it is short and of a type that names no NAL unit. */
  lemma SentIsReceived(nal: seq<Byte>, number: Seq16)
    requires nal != []
    ensures ReceiveAll(Waiting, Packets(nal, number)) == Whole(nal) <==> |nal| > 1 + MAX_LENGTH || 1 <= Type(nal[0]) <= 23
  {
    if |nal| - 1 <= MAX_LENGTH {
      var p := Packet(number, true, nal);
      assert ReceiveAll(Waiting, [p]) == ReceiveAll(Receive(Waiting, p), []);
      if Type(nal[0]) == FU_A && |nal| >= 2 && nal[1] < 0x80 {
        assert Receive(Waiting, p) == Lost;
      }
    } else {
      FragmentsArrive(nal, 1, number, Waiting);
    }
  }

  /**
   The fragments of one unit: consecutive numbers modulo 65536, the start bit on the first only, the end
   bit and the marker on the last only, and 1 to 1400 bytes of the unit in each.
   */
  lemma {:induction false} FragmentShape(nal: seq<Byte>, at: nat, number: Seq16, i: nat)
    requires 1 <= at < |nal| && i < |Fragments(nal, at, number)|
    ensures var ps := Fragments(nal, at, number);
            && ps[i].number == After(number, i)
            && 3 <= |ps[i].payload| <= 2 + MAX_LENGTH
            && (ps[i].payload[1] >= 0x80 <==> i == 0 && at == 1)
            && (ps[i].payload[1] / 0x40 % 2 == 1 <==> i == |ps| - 1)
            && (ps[i].marker <==> i == |ps| - 1)
            && (i < |ps| - 1 ==> |ps[i].payload| == 2 + 1400)
            && ps[i].payload[0] == nal[0] / 32 * 32 + 28 && ps[i].payload[1] % 64 == nal[0] % 32
    ensures |nal| - at > MAX_LENGTH ==> |Fragments(nal, at, number)| > 1
    decreases |nal| - at
  {
    var last := |nal| - at <= MAX_LENGTH;
    FuBits(at == 1, last, Type(nal[0]));
    if last {
    } else {
      var rest := Fragments(nal, at + MAX_LENGTH, Next(number));
      assert rest != [];
      if i > 0 {
        FragmentShape(nal, at + MAX_LENGTH, Next(number), i - 1);
      }
    }
  }

  /** Fragmented or not: the packets are numbered from the one given on, and the last alone bears the marker. */
  lemma PacketsNumbered(nal: seq<Byte>, number: Seq16, i: nat)
    requires nal != [] && i < |Packets(nal, number)|
    ensures Packets(nal, number)[i].number == (number + i) % 0x1_0000
    ensures Packets(nal, number)[i].marker <==> i == |Packets(nal, number)| - 1
    ensures |Packets(nal, number)| == 1 <==> |nal| <= 1401
  {
    AfterIsModulo(number, i);
    if |nal| - 1 > MAX_LENGTH {
      FragmentShape(nal, 1, number, i);
    }
  }

  lemma {:induction false} AfterIsModulo(number: Seq16, n: nat)
    ensures After(number, n) == (number + n) % 0x1_0000
    decreases n
  {
    if n == 0 {
    } else {
      AfterIsModulo(Next(number), n - 1);
    }
  }
}
