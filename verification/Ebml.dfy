/**
 EBML coding as the muxer writes it (mk_write_id, mk_write_size, mk_write_uint)
 and as RFC 8794 reads it.  The writer side is a set of encoders and a tree
 serializer; the reader side is an independent parser.  `ParseSerialized` connects the two.
 */
module Ebml {
  import opened Basics

  /** C `int64_t`. */
  type Int64 = x: int | -0x8000_0000_0000_0000 <= x < 0x8000_0000_0000_0000

  const TWO64: int := 0x1_0000_0000_0000_0000

  // ---------------------------------------------------------------- big-endian numbers

  function BigEndian(s: seq<Byte>): nat {
    if s == [] then 0 else BigEndian(s[..|s| - 1]) * 0x100 + s[|s| - 1]
  }

  lemma BigEndianSnoc(s: seq<Byte>, b: Byte)
    ensures BigEndian(s + [b]) == BigEndian(s) * 0x100 + b
  {
    assert (s + [b])[..|s|] == s;
  }

  lemma {:induction false} BigEndianLeadingZero(s: seq<Byte>)
    requires s != [] && s[0] == 0
    ensures BigEndian(s) == BigEndian(s[1..])
  {
    if |s| <= 1 {
    } else {
      BigEndianLeadingZero(s[..|s| - 1]);
      assert s[1..][..|s| - 2] == s[..|s| - 1][1..];
    }
  }

  function Pow256(k: nat): (r: nat)
    ensures r > 0
  {
    if k == 0 then 1 else 0x100 * Pow256(k - 1)
  }

  /** The low k octets of v, most significant first. */
  function Octets(v: nat, k: nat): (r: seq<Byte>)
    ensures |r| == k
  {
    if k == 0 then [] else Octets(v / 0x100, k - 1) + [v % 0x100]
  }

  lemma {:induction false} OctetsBigEndian(v: nat, k: nat)
    requires v < Pow256(k)
    ensures BigEndian(Octets(v, k)) == v
  {
    if k == 0 {
    } else {
      OctetsBigEndian(v / 0x100, k - 1);
      BigEndianSnoc(Octets(v / 0x100, k - 1), v % 0x100);
    }
  }

  lemma Pow256Values()
    ensures Pow256(1) == 0x100 && Pow256(2) == 0x1_0000 && Pow256(3) == 0x100_0000
    ensures Pow256(4) == 0x1_0000_0000 && Pow256(5) == 0x100_0000_0000 && Pow256(8) == TWO64
  {
    assert Pow256(2) == 0x1_0000;
    assert Pow256(4) == 0x1_0000_0000;
    assert Pow256(6) == 0x1_0000_0000_0000;
  }

  lemma FirstPowers()
    ensures Pow256(0) == 1
    ensures Pow256(1) == 0x100 && Pow256(2) == 0x1_0000 && Pow256(3) == 0x100_0000 && Pow256(4) == 0x1_0000_0000
  {
    Pow256Values();
  }

  /** Where the value lies says what its first octet is. */
  lemma {:induction false} TopOctet(v: nat, k: nat, a: nat, b: nat)
    requires k > 0 && a * Pow256(k - 1) <= v < b * Pow256(k - 1) && b <= 0x100
    ensures a <= Octets(v, k)[0] < b
  {
    if k == 1 {
      assert Octets(v / 0x100, 0) == [];
    } else {
      var p := Pow256(k - 2);
      assert a * Pow256(k - 1) == 0x100 * (a * p) && b * Pow256(k - 1) == 0x100 * (b * p);
      TopOctet(v / 0x100, k - 1, a, b);
    }
  }

  // ---------------------------------------------------------------- element IDs

  /** How many octets an ID takes: leading zero octets are dropped, one octet at least. */
  function IdWidth(id: Word): (w: nat)
    ensures 1 <= w <= 4
  {
    if id < 0x100 then 1 else if id < 0x1_0000 then 2 else if id < 0x100_0000 then 3 else 4
  }

  /** The bytes mk_write_id appends. */
  function EncodeId(id: Word): (r: seq<Byte>)
    ensures 1 <= |r| <= 4
  {
    Octets(id, IdWidth(id))
  }

  /** The Element ID ranges of RFC 8794, section 5. */
  predicate ValidId(id: Word) {
    || 0x81 <= id <= 0xFE
    || 0x407F <= id <= 0x7FFE
    || 0x203FFF <= id <= 0x3F_FFFE
    || 0x101F_FFFF <= id <= 0x1FFF_FFFE
  }

  /** Octet length announced by the leading zero bits of the first octet (RFC 8794, section 4.1). */
  function VintWidth(b: Byte): (w: nat)
    ensures 1 <= w <= 9
  {
    if b >= 0x80 then 1 else if b >= 0x40 then 2 else if b >= 0x20 then 3 else if b >= 0x10 then 4
    else if b >= 8 then 5 else if b >= 4 then 6 else if b >= 2 then 7 else if b >= 1 then 8 else 9
  }

  /** A value read from the front of a string, with the number of octets it took. */
  datatype Read<+T> = Read(value: T, used: nat)

  function ReadId(s: seq<Byte>): (r: Option<Read<Word>>)
    ensures r.Some? ==> 1 <= r.value.used <= |s|
  {
    if s == [] then None else
    var w := VintWidth(s[0]);
    if w > 4 || |s| < w then None else
    var v: int := BigEndian(s[..w]);
    if v < 0x1_0000_0000 && ValidId(v) then Some(Read(v, w)) else None
  }

  /** The marker bit of a valid ID announces the width it is written with. */
  lemma IdAnnouncesWidth(id: Word)
    requires ValidId(id)
    ensures VintWidth(EncodeId(id)[0]) == IdWidth(id)
  {
    hide Octets, Pow256;
    FirstPowers();
    match IdWidth(id)
    case 1 => TopOctet(id, 1, 0x80, 0x100);
    case 2 => TopOctet(id, 2, 0x40, 0x80);
    case 3 => TopOctet(id, 3, 0x20, 0x40);
    case _ => TopOctet(id, 4, 0x10, 0x20);
  }

  lemma IdRoundTrip(id: Word, t: seq<Byte>)
    requires ValidId(id)
    ensures ReadId(EncodeId(id) + t) == Some(Read(id, |EncodeId(id)|))
  {
    var e := EncodeId(id);
    IdAnnouncesWidth(id);
    assert (e + t)[..|e|] == e && (e + t)[0] == e[0];
    Pow256Values();
    OctetsBigEndian(id, IdWidth(id));
  }

  // ---------------------------------------------------------------- element data sizes

  /** How many octets a size takes; one whose VINT_DATA would be all ones moves to the next width. */
  function SizeWidth(n: Word): (w: nat)
    ensures 1 <= w <= 5
  {
    if n < 0x7f then 1 else if n < 0x3fff then 2 else if n < 0x1f_ffff then 3 else if n < 0x0fff_ffff then 4 else 5
  }

  /** The bytes mk_write_size appends: marker bit and value, big-endian. */
  function EncodeSize(n: Word): (r: seq<Byte>)
    ensures 1 <= |r| <= 5
  {
    Octets(Marker(SizeWidth(n)) + n, SizeWidth(n))
  }

  datatype Size = Known(n: nat) | Unknown

  /** The marker bit of a VINT of width w, as a number. */
  function Marker(w: nat): nat
    requires 1 <= w <= 8
  {
    match w
    case 1 => 0x80
    case 2 => 0x4000
    case 3 => 0x20_0000
    case 4 => 0x1000_0000
    case 5 => 0x8_0000_0000
    case 6 => 0x400_0000_0000
    case 7 => 0x2_0000_0000_0000
    case _ => 0x100_0000_0000_0000
  }

  /** Element Data Size of RFC 8794, section 6: VINT_DATA of all ones is the reserved "unknown". */
  function ReadSize(s: seq<Byte>): (r: Option<Read<Size>>)
    ensures r.Some? ==> 1 <= r.value.used <= |s|
  {
    if s == [] then None else
    var w := VintWidth(s[0]);
    if w > 8 || |s| < w then None else
    var data := BigEndian(s[..w]) - Marker(w);
    if data < 0 then None
    else Some(Read(if data == Marker(w) - 1 then Unknown else Known(data), w))
  }

  lemma SizeAnnouncesWidth(n: Word)
    ensures VintWidth(EncodeSize(n)[0]) == SizeWidth(n)
  {
    hide Octets, Pow256;
    FirstPowers();
    var w := SizeWidth(n);
    var v := Marker(w) + n;
    match w
    case 1 => TopOctet(v, 1, 0x80, 0x100);
    case 2 => TopOctet(v, 2, 0x40, 0x80);
    case 3 => TopOctet(v, 3, 0x20, 0x40);
    case 4 => TopOctet(v, 4, 0x10, 0x20);
    case _ => TopOctet(v, 5, 8, 9);
  }

  /** Every 32-bit size reads back as itself, so none is written as the reserved all-ones pattern. */
  lemma SizeRoundTrip(n: Word, t: seq<Byte>)
    ensures ReadSize(EncodeSize(n) + t) == Some(Read(Known(n), |EncodeSize(n)|))
  {
    var e, w := EncodeSize(n), SizeWidth(n);
    SizeAnnouncesWidth(n);
    assert (e + t)[..|e|] == e && (e + t)[0] == e[0];
    Pow256Values();
    OctetsBigEndian(Marker(w) + n, w);
  }

  /** The single octet mk_flush_context_id writes. */
  const UNKNOWN_SIZE: seq<Byte> := [0xff]

  lemma UnknownSizeReads(t: seq<Byte>)
    ensures ReadSize(UNKNOWN_SIZE + t) == Some(Read(Unknown, 1))
  {
    assert (UNKNOWN_SIZE + t)[..1] == UNKNOWN_SIZE;
    BigEndianSnoc([], 0xff);
    assert [] + [0xff] == UNKNOWN_SIZE;
  }

  // ---------------------------------------------------------------- unsigned integers

  /** 64-bit two's complement of a signed value, as the byte casts in mk_write_uint see it. */
  function Unsigned64(v: Int64): (r: nat)
    ensures r < TWO64 && (0 <= v ==> r == v)
  {
    v % TWO64
  }

  function DropZeros(s: seq<Byte>): (r: seq<Byte>)
    requires s != []
    ensures 1 <= |r| <= |s|
  {
    if |s| > 1 && s[0] == 0 then DropZeros(s[1..]) else s
  }

  lemma {:induction false} DropZerosValue(s: seq<Byte>)
    requires s != []
    ensures BigEndian(DropZeros(s)) == BigEndian(s)
    ensures |DropZeros(s)| > 1 ==> DropZeros(s)[0] != 0
  {
    if |s| <= 1 || s[0] != 0 {
    } else {
      BigEndianLeadingZero(s);
      DropZerosValue(s[1..]);
    }
  }

  /** The payload mk_write_uint writes for a 64-bit value. */
  function EncodeUint(v: Int64): (r: seq<Byte>)
    ensures 1 <= |r| <= 8
  {
    DropZeros(Octets(Unsigned64(v), 8))
  }

  /** RFC 8794, section 7.2: the payload is the value in big-endian order, with no octet to spare. */
  lemma UintRoundTrip(v: Int64)
    ensures BigEndian(EncodeUint(v)) == Unsigned64(v)
    ensures |EncodeUint(v)| > 1 ==> EncodeUint(v)[0] != 0
  {
    Pow256Values();
    OctetsBigEndian(Unsigned64(v), 8);
    DropZerosValue(Octets(Unsigned64(v), 8));
  }

  // ---------------------------------------------------------------- documents

  /** An element: its ID and either raw data or child elements. */
  datatype Node = Leaf(id: Word, data: seq<Byte>) | Master(id: Word, kids: seq<Node>)

  const EBML_ID: Word := 0x1a45dfa3
  const SEGMENT_ID: Word := 0x18538067
  const INFO_ID: Word := 0x1549a966
  const TRACKS_ID: Word := 0x1654ae6b
  const TRACK_ENTRY_ID: Word := 0xae
  const VIDEO_ID: Word := 0xe0
  const CLUSTER_ID: Word := 0x1f43b675

  /** The Matroska schema, as far as the muxer uses it: which IDs hold child elements. */
  predicate IsMasterId(id: Word) {
    id in {EBML_ID, SEGMENT_ID, INFO_ID, TRACKS_ID, TRACK_ENTRY_ID, VIDEO_ID, CLUSTER_ID}
  }

  function Body(n: Node): seq<Byte>
    decreases n, 0
  {
    match n
    case Leaf(_, data) => data
    case Master(_, kids) => Serialize(kids)
  }

  function Tag(id: Word, size: nat): (r: seq<Byte>)
    requires size < 0x1_0000_0000
  {
    EncodeId(id) + EncodeSize(size)
  }

  function Element(n: Node): (r: seq<Byte>)
    decreases n, 1
  {
    var b := Body(n);
    if |b| < 0x1_0000_0000 then Tag(n.id, |b|) + b else b
  }

  function Serialize(ns: seq<Node>): (r: seq<Byte>)
    decreases ns
  {
    if ns == [] then [] else Element(ns[0]) + Serialize(ns[1..])
  }

  lemma Regroup(a: seq<Byte>, b: seq<Byte>, c: seq<Byte>)
    ensures a + (b + c) == a + b + c
  {
  }

  lemma SerializeCons(n: Node, ns: seq<Node>)
    ensures Serialize([n] + ns) == Element(n) + Serialize(ns)
  {
    assert ([n] + ns)[1..] == ns;
  }

  lemma {:induction false} SerializeConcat(a: seq<Node>, b: seq<Node>)
    ensures Serialize(a + b) == Serialize(a) + Serialize(b)
  {
    if a == [] {
      assert a + b == b;
    } else {
      SerializeConcat(a[1..], b);
      SerializeCons(a[0], a[1..] + b);
      assert a + b == [a[0]] + (a[1..] + b);
      Regroup(Element(a[0]), Serialize(a[1..]), Serialize(b));
    }
  }

  lemma SerializeOne(n: Node)
    ensures Serialize([n]) == Element(n)
  {
    assert Serialize([n]) == Element(n) + Serialize([]);
  }

  /** Elements that can be written at all: valid IDs, the schema's kind, a body with a 32-bit length. */
  predicate Wf(n: Node)
    decreases n
  {
    && ValidId(n.id)
    && |Body(n)| < 0x1_0000_0000
    && (n.Master? <==> IsMasterId(n.id))
    && (n.Master? ==> forall k | k in n.kids :: Wf(k))
  }

  /** The front element of a string: its ID, its data, and what follows it. */
  datatype Front = Front(id: Word, body: seq<Byte>, rest: seq<Byte>)

  /** Reads one element; an unknown size, allowed on master elements only, runs to the end (RFC 8794, section 6.2). */
  function ReadFront(s: seq<Byte>): (r: Option<Front>)
    ensures r.Some? ==> |r.value.body| + |r.value.rest| < |s|
  {
    var id :- ReadId(s);
    var size :- ReadSize(s[id.used..]);
    var data := s[id.used..][size.used..];
    match size.value
    case Known(n) =>
      if n > |data| then None else Some(Front(id.value, data[..n], data[n..]))
    case Unknown =>
      if IsMasterId(id.value) then Some(Front(id.value, data, [])) else None
  }

  function Prepend(ns: seq<Node>, more: Option<seq<Node>>): Option<seq<Node>> {
    if more.None? then None else Some(ns + more.value)
  }

  lemma PrependTwice(n: Node, ns: seq<Node>, more: Option<seq<Node>>)
    ensures Prepend([n], Prepend(ns, more)) == Prepend([n] + ns, more)
  {
    if more.Some? {
      assert [n] + (ns + more.value) == [n] + ns + more.value;
    }
  }

  /** The reader: a sequence of elements that fills s exactly. */
  function Parse(s: seq<Byte>): Option<seq<Node>>
    decreases |s|
  {
    if s == [] then Some([]) else
    var f :- ReadFront(s);
    var node :- if IsMasterId(f.id) then
                  var kids :- Parse(f.body);
                  Some(Master(f.id, kids))
                else Some(Leaf(f.id, f.body));
    Prepend([node], Parse(f.rest))
  }

  lemma ReadFrontKnown(id: Word, body: seq<Byte>, t: seq<Byte>)
    requires ValidId(id) && |body| < 0x1_0000_0000
    ensures ReadFront(Tag(id, |body|) + body + t) == Some(Front(id, body, t))
  {
    var e, z := EncodeId(id), EncodeSize(|body|);
    var s := Tag(id, |body|) + body + t;
    assert s == e + (z + (body + t));
    IdRoundTrip(id, z + (body + t));
    assert s[|e|..] == z + (body + t);
    SizeRoundTrip(|body|, body + t);
    assert s[|e|..][|z|..] == body + t;
    assert (body + t)[..|body|] == body && (body + t)[|body|..] == t;
  }

  lemma ReadFrontUnknown(id: Word, t: seq<Byte>)
    requires ValidId(id) && IsMasterId(id)
    ensures ReadFront(EncodeId(id) + UNKNOWN_SIZE + t) == Some(Front(id, t, []))
  {
    var e := EncodeId(id);
    var s := e + UNKNOWN_SIZE + t;
    assert s == e + (UNKNOWN_SIZE + t);
    IdRoundTrip(id, UNKNOWN_SIZE + t);
    assert s[|e|..] == UNKNOWN_SIZE + t;
    UnknownSizeReads(t);
    assert s[|e|..][1..] == t;
  }

  /** An unknown-size master element takes in everything up to the end of the file. */
  lemma ParseUnknown(id: Word, t: seq<Byte>)
    requires ValidId(id) && IsMasterId(id)
    ensures Parse(EncodeId(id) + UNKNOWN_SIZE + t) == var kids :- Parse(t); Some([Master(id, kids)])
  {
    ReadFrontUnknown(id, t);
    if Parse(t).Some? {
      assert [Master(id, Parse(t).value)] + [] == [Master(id, Parse(t).value)];
    }
  }

  lemma ParseElementThen(n: Node, t: seq<Byte>)
    requires ValidId(n.id) && |Body(n)| < 0x1_0000_0000
    requires n.Master? <==> IsMasterId(n.id)
    requires n.Master? ==> Parse(Body(n)) == Some(n.kids)
    ensures Parse(Element(n) + t) == Prepend([n], Parse(t))
  {
    ReadFrontKnown(n.id, Body(n), t);
  }

  /** Reading undoes writing: any well-formed element list, followed by any tail, parses back to itself and the tail. */
  lemma {:induction false} ParseSerializedThen(ns: seq<Node>, t: seq<Byte>)
    requires forall n | n in ns :: Wf(n)
    ensures Parse(Serialize(ns) + t) == Prepend(ns, Parse(t))
    decreases ns, 0
  {
    if ns == [] {
      assert Serialize(ns) + t == t;
      if Parse(t).Some? {
        assert [] + Parse(t).value == Parse(t).value;
      }
    } else {
      var n, tail := ns[0], Serialize(ns[1..]) + t;
      assert n in ns && Wf(n);
      if n.Master? {
        ParseSerialized(n.kids);
      }
      ParseElementThen(n, tail);
      Regroup(Element(n), Serialize(ns[1..]), t);
      ParseSerializedThen(ns[1..], t);
      PrependTwice(n, ns[1..], Parse(t));
      assert [n] + ns[1..] == ns;
    }
  }

  lemma {:induction false} ParseSerialized(ns: seq<Node>)
    requires forall n | n in ns :: Wf(n)
    ensures Parse(Serialize(ns)) == Some(ns)
    decreases ns, 1
  {
    ParseSerializedThen(ns, []);
    assert Serialize(ns) + [] == Serialize(ns) && ns + [] == ns;
  }
}
