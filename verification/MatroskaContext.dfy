/** The growable buffer behind every open element: struct mk_context and the mk_write_* calls on it. */
module MatroskaContext {
  import opened Basics
  import opened Ebml
  import opened Matroska

  predicate PowerOfTwo(n: nat) {
    n == 1 || (n > 1 && n % 2 == 0 && PowerOfTwo(n / 2))
  }

  lemma {:induction false} NextPower(m: nat, n: nat)
    requires PowerOfTwo(m) && PowerOfTwo(n) && m < n
    ensures 2 * m <= n
  {
    if m == 1 {
    } else {
      NextPower(m / 2, n / 2);
    }
  }

  lemma Sixteenfold(n: nat)
    requires PowerOfTwo(n)
    ensures PowerOfTwo(16 * n)
  {
    hide PowerOfTwo;
    Twice(n);
    Twice(2 * n);
    Twice(4 * n);
    Twice(8 * n);
  }

  lemma Twice(n: nat)
    requires PowerOfTwo(n)
    ensures PowerOfTwo(2 * n)
  {
    assert 2 * n / 2 == n;
  }

  lemma TopPower()
    ensures PowerOfTwo(MAX_BUFFER)
  {
    assert PowerOfTwo(8);
    hide PowerOfTwo;
    Sixteenfold(8);
    Sixteenfold(0x80);
    Sixteenfold(0x800);
    Sixteenfold(0x8000);
    Sixteenfold(0x8_0000);
    Sixteenfold(0x80_0000);
    Sixteenfold(0x800_0000);
  }

  /** Buffer sizes the doubling can reach: nothing yet, or 16 doubled any number of times up to 2^31. */
  ghost predicate Capacity(n: nat) {
    n == 0 || (PowerOfTwo(n) && 16 <= n <= MAX_BUFFER)
  }

  lemma FirstCapacity()
    ensures Capacity(16) && Capacity(0)
  {
    assert PowerOfTwo(16);
  }

  /** Below 2^31 a doubling neither wraps around nor leaves the reachable sizes. */
  lemma DoubleCapacity(n: nat)
    requires Capacity(n) && 0 < n < MAX_BUFFER
    ensures Capacity(2 * n) && 2 * n <= MAX_BUFFER
  {
    TopPower();
    NextPower(n, MAX_BUFFER);
  }

  /** Outcome of malloc, realloc or fwrite: a healthy system grants it, any other may refuse. */
  method Outcome(healthy: bool) returns (ok: bool)
    ensures healthy ==> ok
  {
    if healthy {
      ok := true;
    } else {
      ok := *;
    }
  }

  /** Memory as realloc hands it out: any bytes. */
  method Garbage(n: nat) returns (m: seq<Byte>)
    ensures |m| == n
  {
    assert |seq(n, _ => 0 as Byte)| == n;
    m :| |m| == n;
  }

  /** The doubling loop of mk_append_context_data, in 32-bit arithmetic. */
  method DoubleUntil(ns: nat, dMax: nat) returns (dn: nat)
    requires Capacity(dMax) && dMax < ns <= MAX_BUFFER
    ensures Capacity(dn) && ns <= dn && dMax < dn
  {
    hide Capacity, PowerOfTwo;
    dn := 16;
    FirstCapacity();
    if dMax != 0 {
      DoubleCapacity(dMax);
      dn := dMax * 2 % WORD;
    }
    while ns > dn
      invariant Capacity(dn) && dMax < dn <= MAX_BUFFER
      decreases ns - dn
    {
      DoubleCapacity(dn);
      dn := dn * 2 % WORD;
    }
  }

  /** The same loop given at most `turns` turns, for any size: None when they do not suffice. */
  function DoubledWithin(turns: nat, ns: Word, dn: Word): Option<Word> {
    if ns <= dn then Some(dn) else if turns == 0 then None else DoubledWithin(turns - 1, ns, dn * 2 % WORD)
  }

  /** The size the loop starts from. */
  function FirstSize(dMax: Word): Word {
    if dMax == 0 then 16 else dMax * 2 % WORD
  }

  /** Beyond 2^31 the doubling goes on to zero and stays there. */
  lemma {:induction false} DoublingForEver(turns: nat, ns: Word, dn: Word)
    requires Capacity(dn) && ns > MAX_BUFFER
    ensures DoubledWithin(turns, ns, dn).None?
  {
    hide PowerOfTwo;
    if turns == 0 {
    } else {
      if 0 < dn < MAX_BUFFER {
        DoubleCapacity(dn);
      }
      assert Capacity(dn * 2 % WORD);
      DoublingForEver(turns - 1, ns, dn * 2 % WORD);
    }
  }

  /** Sixteen, doubled that often. */
  function Sixteens(k: nat): nat {
    if k == 0 then 16 else 2 * Sixteens(k - 1)
  }

  lemma {:induction false} SixteensStep(k: nat, x: nat)
    requires Sixteens(k) == x
    ensures Sixteens(k + 3) == 8 * x
  {
    assert Sixteens(k + 1) == 2 * x;
    assert Sixteens(k + 2) == 4 * x;
  }

  lemma SixteensTop()
    ensures Sixteens(27) == MAX_BUFFER
  {
    SixteensStep(0, 0x10);
    SixteensStep(3, 0x80);
    SixteensStep(6, 0x400);
    SixteensStep(9, 0x2000);
    SixteensStep(12, 0x1_0000);
    SixteensStep(15, 0x8_0000);
    SixteensStep(18, 0x40_0000);
    SixteensStep(21, 0x200_0000);
    SixteensStep(24, 0x1000_0000);
  }

  lemma {:induction false} DoublingEnds(turns: nat, ns: Word, dn: Word)
    requires Capacity(dn) && 0 < dn && ns <= MAX_BUFFER && turns <= 27 && Sixteens(27 - turns) <= dn
    ensures DoubledWithin(turns, ns, dn).Some?
  {
    hide PowerOfTwo;
    if turns == 0 {
      SixteensTop();
    } else if dn < ns {
      DoubleCapacity(dn);
      DoublingEnds(turns - 1, ns, dn * 2);
    }
  }

  /** The doubling for a buffer that must grow ends exactly for sizes up to 2^31, and then within 27 turns. */
  lemma DoublingEndsExactly(ns: Word, dMax: Word)
    requires Capacity(dMax) && dMax < ns
    ensures (exists turns :: DoubledWithin(turns, ns, FirstSize(dMax)).Some?) <==> ns <= 0x8000_0000
    ensures ns <= 0x8000_0000 ==> DoubledWithin(27, ns, FirstSize(dMax)).Some?
  {
    hide PowerOfTwo, DoubledWithin;
    FirstCapacity();
    if 0 < dMax < MAX_BUFFER {
      DoubleCapacity(dMax);
    }
    if ns <= MAX_BUFFER {
      DoublingEnds(27, ns, FirstSize(dMax));
    } else {
      forall turns ensures DoubledWithin(turns, ns, FirstSize(dMax)).None? {
        DoublingForEver(turns, ns, FirstSize(dMax));
      }
    }
  }

  /** The loop of mk_write_uint: index of the first octet to write. */
  method SkipZeros(c: seq<Byte>) returns (i: nat)
    requires |c| == 8
    ensures i <= 7 && c[i..] == DropZeros(c)
  {
    i := 0;
    assert c[0..] == c;
    while i < 7 && c[i] == 0
      invariant 0 <= i <= 7
      invariant DropZeros(c[i..]) == DropZeros(c)
    {
      assert c[i..][1..] == c[i + 1..];
      i := i + 1;
    }
  }

  lemma OctetsStep(q: nat, r: Byte, k: nat)
    ensures Octets(0x100 * q + r, k + 1) == Octets(q, k) + [r]
  {
  }

  lemma OctetsOne(r: Byte)
    ensures Octets(r, 1) == [r]
  {
    OctetsStep(0, r, 0);
  }

  lemma OctetsTwo(a: Byte, b: Byte)
    ensures Octets(0x100 * a + b, 2) == [a, b]
  {
    hide Octets;
    OctetsOne(a);
    OctetsStep(a, b, 1);
  }

  lemma OctetsThree(a: Byte, b: Byte, c: Byte)
    ensures Octets(0x100 * (0x100 * a + b) + c, 3) == [a, b, c]
  {
    hide Octets;
    OctetsTwo(a, b);
    OctetsStep(0x100 * a + b, c, 2);
  }

  lemma OctetsFour(a: Byte, b: Byte, c: Byte, d: Byte)
    ensures Octets(0x100 * (0x100 * (0x100 * a + b) + c) + d, 4) == [a, b, c, d]
  {
    hide Octets;
    OctetsThree(a, b, c);
    OctetsStep(0x100 * (0x100 * a + b) + c, d, 3);
  }

  lemma OctetsFive(a: Byte, b: Byte, c: Byte, d: Byte, e: Byte)
    ensures Octets(0x100 * (0x100 * (0x100 * (0x100 * a + b) + c) + d) + e, 5) == [a, b, c, d, e]
  {
    hide Octets;
    OctetsFour(a, b, c, d);
    OctetsStep(0x100 * (0x100 * (0x100 * a + b) + c) + d, e, 4);
  }

  /** The byte casts of a 32-bit value: value, value >> 8, value >> 16, value >> 24. */
  method Casts(v: Word) returns (b3: Byte, b2: Byte, b1: Byte, b0: Byte)
    ensures v == 0x100 * (0x100 * (0x100 * b3 + b2) + b1) + b0
  {
    var w1 := v / 0x100;
    var w2 := w1 / 0x100;
    b3, b2, b1, b0 := w2 / 0x100, w2 % 0x100, w1 % 0x100, v % 0x100;
  }

  /** The bytes mk_write_id chooses. */
  method IdBytes(theId: Word) returns (bytes: seq<Byte>)
    ensures bytes == EncodeId(theId)
  {
    var b3, b2, b1, b0 := Casts(theId);
    if b3 != 0 {
      OctetsFour(b3, b2, b1, b0);
      return [b3, b2, b1, b0];
    }
    if b2 != 0 {
      OctetsThree(b2, b1, b0);
      return [b2, b1, b0];
    }
    if b1 != 0 {
      OctetsTwo(b1, b0);
      return [b1, b0];
    }
    OctetsOne(b0);
    return [b0];
  }

  /** c_delta_flags in mk_flush_frame: two byte casts of the delta, then the flags. */
  method HeadBytes(delta: Int16, key: bool, discardable: bool) returns (bytes: seq<Byte>)
    ensures bytes == BlockHead(delta, key, discardable)
  {
    assert Delta16(delta);
    var hi, lo := delta / 0x100 % 0x100, delta % 0x100;
    OctetsTwo(hi, lo);
    assert 0x100 * hi + lo == Unsigned16(delta);
    bytes := [hi, lo, (if key then 0x80 else 0) + if discardable then 1 else 0];
  }

  /** The bytes mk_write_size chooses; the marker bits it ORs in are clear in the byte, so they add. */
  method SizeBytes(size: Word) returns (bytes: seq<Byte>)
    ensures bytes == EncodeSize(size)
  {
    var b3, b2, b1, b0 := Casts(size);
    if size < 0x7f {
      OctetsOne(b0 + 0x80);
      return [b0 + 0x80];
    }
    if size < 0x3fff {
      OctetsTwo(b1 + 0x40, b0);
      return [b1 + 0x40, b0];
    }
    if size < 0x1f_ffff {
      OctetsThree(b2 + 0x20, b1, b0);
      return [b2 + 0x20, b1, b0];
    }
    if size < 0x0fff_ffff {
      OctetsFour(b3 + 0x10, b2, b1, b0);
      return [b3 + 0x10, b2, b1, b0];
    }
    OctetsFive(0x08, b3, b2, b1, b0);
    return [0x08, b3, b2, b1, b0];
  }

  /** The data, d_cur and d_max fields: d_max allocated bytes, of which the first d_cur are in use. */
  datatype Memory = Memory(data: seq<Byte>, dCur: nat, dMax: nat)

  ghost predicate MemoryOk(m: Memory) {
    m.dCur <= m.dMax == |m.data| && Capacity(m.dMax)
  }

  type Buffer = m: Memory | MemoryOk(m) ghost witness Memory([], 0, 0)

  const NO_BUFFER: Buffer := Memory([], 0, 0)

  class MkContext {
    var parent: MkContext?
    var id: Word
    var buf: Buffer

    ghost function Contents(): seq<Byte>
      reads this`buf
    {
      buf.data[..buf.dCur]
    }

    constructor ()
      ensures buf.dCur == 0 && id == 0 && parent == null
    {
      parent, id, buf := null, 0, NO_BUFFER;
    }

    /** The reallocation in mk_append_context_data. */
    method Grow(healthy: bool, ns: nat) returns (ok: bool)
      requires buf.dMax < ns <= MAX_BUFFER
      modifies this`buf
      ensures healthy ==> ok
      ensures !ok ==> buf == old(buf)
      ensures Contents() == old(Contents()) && buf.dCur == old(buf.dCur)
      ensures ok ==> ns <= buf.dMax
    {
      var dn := DoubleUntil(ns, buf.dMax);
      ok := Outcome(healthy);
      if ok {
        var extra := Garbage(dn - buf.dMax);
        var grown := Memory(buf.data + extra, buf.dCur, dn);
        assert MemoryOk(grown) && grown.data[..grown.dCur] == Contents();
        buf := grown;
      }
    }

    /** mk_append_context_data: all or nothing. */
    method Append(healthy: bool, bytes: seq<Byte>) returns (ok: bool)
      requires buf.dCur + |bytes| <= MAX_BUFFER
      modifies this`buf
      ensures healthy || old(buf.dCur) + |bytes| <= old(buf.dMax) ==> ok
      ensures !ok ==> buf == old(buf)
      ensures Contents() == old(Contents()) + if ok then bytes else []
    {
      var ns := (buf.dCur + |bytes|) % WORD;
      ok := true;
      if ns > buf.dMax {
        ok := Grow(healthy, ns);
        if !ok {
          assert Contents() == old(Contents()) + [];
          return;
        }
      }
      buf := buf.(data := buf.data[..buf.dCur] + bytes + buf.data[ns..], dCur := ns);
      assert buf.data[..buf.dCur] == old(Contents()) + bytes;
    }

    /** mk_write_id */
    method WriteId(healthy: bool, theId: Word) returns (ok: bool)
      requires buf.dCur + |EncodeId(theId)| <= MAX_BUFFER
      modifies this`buf
      ensures healthy ==> ok
      ensures ok ==> Contents() == old(Contents()) + EncodeId(theId)
      ensures buf.dCur <= old(buf.dCur) + 4
    {
      var bytes := IdBytes(theId);
      ok := Append(healthy, bytes);
    }

    /** mk_write_size */
    method WriteSize(healthy: bool, size: Word) returns (ok: bool)
      requires buf.dCur + |EncodeSize(size)| <= MAX_BUFFER
      modifies this`buf
      ensures healthy ==> ok
      ensures ok ==> Contents() == old(Contents()) + EncodeSize(size)
      ensures buf.dCur <= old(buf.dCur) + 5
    {
      var bytes := SizeBytes(size);
      ok := Append(healthy, bytes);
    }

    /** The buffer holds exactly the first k of the elements `kids`. */
    ghost predicate Holds(kids: seq<Node>, k: nat)
      reads this`buf
    {
      k <= |kids| && Contents() == Serialize(kids[..k])
    }

    /** mk_write_string, mk_write_bin and, with a four-byte payload, mk_write_float. */
    method WriteBin(healthy: bool, theId: Word, bytes: seq<Byte>, ghost kids: seq<Node>, ghost k: nat) returns (ok: bool)
      requires Holds(kids, k) && k < |kids| && kids[k] == Leaf(theId, bytes)
      requires |Serialize(kids)| <= MAX_BUFFER
      modifies this`buf
      ensures healthy ==> ok
      ensures ok ==> Holds(kids, k + 1)
    {
      NextElement(kids, k);
      ok := WriteId(healthy, theId);
      if !ok { return; }
      ok := WriteSize(healthy, |bytes|);
      if !ok { return; }
      ok := Append(healthy, bytes);
      if !ok { return; }
      Regroup4(old(Contents()), EncodeId(theId), EncodeSize(|bytes|), bytes);
    }

    /** mk_write_uint */
    method WriteUint(healthy: bool, theId: Word, ui: Int64, ghost kids: seq<Node>, ghost k: nat) returns (ok: bool)
      requires Holds(kids, k) && k < |kids| && kids[k] == Uint(theId, ui)
      requires |Serialize(kids)| <= MAX_BUFFER
      modifies this`buf
      ensures healthy ==> ok
      ensures ok ==> Holds(kids, k + 1)
    {
      NextElement(kids, k);
      ok := WriteId(healthy, theId);
      if !ok { return; }
      var c := Octets(Unsigned64(ui), 8);
      var i := SkipZeros(c);
      ok := WriteSize(healthy, 8 - i);
      if !ok { return; }
      ok := Append(healthy, c[i..]);
      if !ok { return; }
      Regroup4(old(Contents()), EncodeId(theId), EncodeSize(8 - i), c[i..]);
    }

    /** The tag and fixed part of a SimpleBlock, as mk_flush_frame writes them. */
    method WriteBlockLead(healthy: bool, delta: Int16, key: bool, discardable: bool, fsize: nat) returns (ok: bool)
      requires fsize + 4 <= MAX_BUFFER && buf.dCur + 13 <= MAX_BUFFER
      modifies this`buf
      ensures healthy ==> ok
      ensures ok ==> Contents() == old(Contents()) + BlockLead(delta, key, discardable, fsize)
      ensures buf.dCur <= old(buf.dCur) + 13
    {
      SizeOfOne();
      ok := WriteId(healthy, 0xa3);
      if !ok { return; }
      ok := WriteSize(healthy, fsize + 4);
      if !ok { return; }
      ok := WriteSize(healthy, 1);
      if !ok { return; }
      var head := HeadBytes(delta, key, discardable);
      ok := Append(healthy, head);
      if !ok { return; }
      RegroupLead(old(Contents()), EncodeId(0xa3), EncodeSize(fsize + 4), EncodeSize(1), BlockHead(delta, key, discardable));
    }

    // -------------------------------------------------------------- the leaves of each header element

    /** The EBML element's fields. */
    method FillEbml(healthy: bool, f: Fixed, ghost kids: seq<Node>) returns (ok: bool)
      requires buf.dCur == 0 && kids == EbmlKids(f) && |Serialize(kids)| <= MAX_BUFFER
      modifies this`buf
      ensures healthy ==> ok
      ensures ok ==> Holds(kids, |kids|)
    {
      assert Serialize(kids[..0]) == [];
      ok := WriteUint(healthy, 0x4286, f.ebmlVersion, kids, 0);
      if !ok { return; }
      ok := WriteUint(healthy, 0x42f7, f.ebmlReadVersion, kids, 1);
      if !ok { return; }
      ok := WriteUint(healthy, 0x42f2, f.maxIdLength, kids, 2);
      if !ok { return; }
      ok := WriteUint(healthy, 0x42f3, f.maxSizeLength, kids, 3);
      if !ok { return; }
      ok := WriteBin(healthy, 0x4282, f.docType, kids, 4);
      if !ok { return; }
      ok := WriteUint(healthy, 0x4287, f.docTypeVersion, kids, 5);
      if !ok { return; }
      ok := WriteUint(healthy, 0x4285, f.docTypeReadVersion, kids, 6);
    }

    /** The Info element's fields, Duration last and zero for now. */
    method FillInfo(healthy: bool, h: Header, ghost kids: seq<Node>) returns (ok: bool)
      requires buf.dCur == 0 && kids == InfoKids(h, ZERO_DURATION) && |Serialize(kids)| <= MAX_BUFFER
      modifies this`buf
      ensures healthy ==> ok
      ensures ok ==> Holds(kids, |kids|)
    {
      assert Serialize(kids[..0]) == [];
      ok := WriteBin(healthy, 0x4d80, h.fixed.muxingApp, kids, 0);
      if !ok { return; }
      ok := WriteBin(healthy, 0x5741, h.writingApp, kids, 1);
      if !ok { return; }
      ok := WriteUint(healthy, 0x2ad7b1, h.timescale, kids, 2);
      if !ok { return; }
      ok := WriteBin(healthy, 0x4489, ZERO_DURATION, kids, 3);
    }

    /** The Video element's fields. */
    method FillVideo(healthy: bool, h: Header, ghost kids: seq<Node>) returns (ok: bool)
      requires buf.dCur == 0 && kids == VideoKids(h) && |Serialize(kids)| <= MAX_BUFFER
      modifies this`buf
      ensures healthy ==> ok
      ensures ok ==> Holds(kids, |kids|)
    {
      assert Serialize(kids[..0]) == [];
      ok := WriteUint(healthy, 0xb0, h.width, kids, 0);
      if !ok { return; }
      ok := WriteUint(healthy, 0xba, h.height, kids, 1);
      if !ok { return; }
      ok := WriteUint(healthy, 0x54b2, h.displayUnits, kids, 2);
      if !ok { return; }
      ok := WriteUint(healthy, 0x54b0, h.dWidth, kids, 3);
      if !ok { return; }
      ok := WriteUint(healthy, 0x54ba, h.dHeight, kids, 4);
    }

    /** The track entry's own fields; the last two only when there is something to say. */
    method FillTrack(healthy: bool, h: Header, ghost kids: seq<Node>) returns (ok: bool)
      requires buf.dCur == 0 && kids == TrackLeaves(h) && |Serialize(kids)| <= MAX_BUFFER
      modifies this`buf
      ensures healthy ==> ok
      ensures ok ==> Holds(kids, |kids|)
    {
      assert Serialize(kids[..0]) == [];
      ok := WriteUint(healthy, 0xd7, h.fixed.trackNumber, kids, 0);
      if !ok { return; }
      ok := WriteUint(healthy, 0x73c5, h.fixed.trackUid, kids, 1);
      if !ok { return; }
      ok := WriteUint(healthy, 0x83, h.fixed.trackType, kids, 2);
      if !ok { return; }
      ok := WriteUint(healthy, 0x9c, h.fixed.lacing, kids, 3);
      if !ok { return; }
      ok := WriteBin(healthy, 0x86, h.codecId, kids, 4);
      if !ok { return; }
      if h.codecPrivate != [] {
        ok := WriteBin(healthy, 0x63a2, h.codecPrivate, kids, 5);
        if !ok { return; }
      }
      if h.defDuration != 0 {
        ok := WriteUint(healthy, 0x23e383, h.defDuration, kids, |kids| - 1);
      }
    }
  }

  function BlockLead(delta: Int16, key: bool, discardable: bool, fsize: nat): (r: seq<Byte>)
    requires fsize + 4 <= MAX_BUFFER
    ensures |r| <= 13
  {
    SizeOfOne();
    EncodeId(0xa3) + EncodeSize(fsize + 4) + EncodeSize(1) + BlockHead(delta, key, discardable)
  }

  lemma SizeOfOne()
    ensures |EncodeSize(1)| == 1 && |EncodeId(0xa3)| == 1
  {
  }

  lemma RegroupLead(s: seq<Byte>, i: seq<Byte>, z: seq<Byte>, t: seq<Byte>, h: seq<Byte>)
    ensures s + i + z + t + h == s + (i + z + t + h)
  {
  }

  lemma BlockElement(b: Block)
    requires |b.data| + 4 <= MAX_BUFFER
    ensures Element(BlockNode(b)) == BlockLead(b.delta, b.key, b.discardable, |b.data|) + b.data
  {
    SizeOfOne();
    assert |BlockBody(b)| == |b.data| + 4;
    var i, z, t, h := EncodeId(0xa3), EncodeSize(|b.data| + 4), EncodeSize(1), BlockHead(b.delta, b.key, b.discardable);
    assert (i + z) + (t + h + b.data) == i + z + t + h + b.data;
  }

  /** A block extends its cluster's body by exactly its element. */
  lemma AddBlock(c: Cluster, b: Block)
    requires |b.data| + 4 <= MAX_BUFFER
    ensures Serialize(ClusterKids(c.(blocks := c.blocks + [b]))) ==
            Serialize(ClusterKids(c)) + BlockLead(b.delta, b.key, b.discardable, |b.data|) + b.data
  {
    var all := c.blocks + [b];
    assert Init(all) == c.blocks && Last(all) == b;
    assert ClusterKids(c.(blocks := all)) == ClusterKids(c) + [BlockNode(b)];
    SerializeConcat(ClusterKids(c), [BlockNode(b)]);
    SerializeOne(BlockNode(b));
    BlockElement(b);
    Regroup(Serialize(ClusterKids(c)), BlockLead(b.delta, b.key, b.discardable, |b.data|), b.data);
  }

  lemma Regroup4(a: seq<Byte>, b: seq<Byte>, c: seq<Byte>, d: seq<Byte>)
    ensures a + b + c + d == a + (b + c + d)
  {
  }

  /** One more element, and that it fits when the whole list does. */
  lemma NextElement(kids: seq<Node>, k: nat)
    requires k < |kids| && |Serialize(kids)| <= MAX_BUFFER
    ensures Serialize(kids[..k + 1]) == Serialize(kids[..k]) + Element(kids[k])
    ensures |Serialize(kids[..k + 1])| <= MAX_BUFFER
    ensures Element(kids[k]) == Tag(kids[k].id, |Body(kids[k])|) + Body(kids[k])
    ensures |Body(kids[k])| <= MAX_BUFFER
  {
    assert kids[..k + 1] == kids[..k] + [kids[k]];
    SerializeConcat(kids[..k], [kids[k]]);
    SerializeOne(kids[k]);
    assert kids == kids[..k + 1] + kids[k + 1..];
    SerializeConcat(kids[..k + 1], kids[k + 1..]);
    SerializeBounds(kids, kids[k]);
  }
}
