/** str_netfd_alloc (netstr.c): one line from a stream, peeked at in chunks of any size. */
module LineReader {
  import opened Basics

  /** The line; a line too long for the buffer; or die(), at the end of the stream. */
  datatype Line = Line(text: seq<Byte>) | TooLong | EndOfStream

  /** The place of the first terminator, or the length when there is none. */
  function Find(s: seq<Byte>, term: Byte): (k: nat)
    ensures k <= |s| && term !in s[..k] && (k < |s| ==> s[k] == term)
  {
    if s == [] || s[0] == term then 0 else 1 + Find(s[1..], term)
  }

  lemma FindIs(s: seq<Byte>, term: Byte, k: nat)
    requires k <= |s| && term !in s[..k] && (k < |s| ==> s[k] == term)
    ensures Find(s, term) == k
  {
  }

  /** What the reader should do: at most maxlen bytes are looked at. */
  function Expected(stream: seq<Byte>, term: Byte, maxlen: nat): (Line, nat) {
    var k := Find(stream, term);
    if k < maxlen && k < |stream| then (Line(stream[..k]), k + 1)
    else if maxlen <= |stream| then (TooLong, maxlen)
    else (EndOfStream, |stream|)
  }

  /**
   What that means: a line is the text before the first terminator, which is used up with it; when there is
   none among the first maxlen bytes those are used up, and before the end of the stream nothing is decided.
   */
  lemma ExpectedMeans(stream: seq<Byte>, term: Byte, maxlen: nat)
    ensures var (line, used) := Expected(stream, term, maxlen);
            && used <= |stream| && used <= maxlen
            && match line
               case Line(text) => stream[..used] == text + [term] && term !in text
               case TooLong => used == maxlen && term !in stream[..maxlen]
               case EndOfStream => used == |stream| < maxlen && term !in stream
  {
    var k := Find(stream, term);
    if k < |stream| {
      assert stream[..k + 1] == stream[..k] + [term];
    } else {
      assert stream[..k] == stream;
    }
    if maxlen <= k {
      assert stream[..maxlen] == stream[..k][..maxlen];
    }
  }

  /** str_alloc_alt_term: the buffer up to the first terminator. */
  method AllocAltTerm(buf: array<Byte>, term: Byte, ghost k: nat) returns (text: seq<Byte>)
    requires k < buf.Length && buf[k] == term && term !in buf[..k]
    ensures text == buf[..k]
  {
    var len := 0;
    while buf[len] != term
      invariant len <= k
      decreases k - len
    {
      assert len < k;
      len := len + 1;
    }
    text := buf[..len];
  }

  /** One peek: the stream's next bytes appear in the buffer and stay in the stream. */
  method Peek(buf: array<Byte>, stream: seq<Byte>, from: nat, count: nat)
    requires from + count <= buf.Length && from + count <= |stream| && buf[..from] == stream[..from]
    modifies buf
    ensures buf[..from + count] == stream[..from + count]
  {
    ghost var before := buf[..from];
    forall j | 0 <= j < count {
      buf[from + j] := stream[from + j];
    }
    assert buf[..from] == before;
    assert buf[..from + count] == before + stream[from..from + count];
  }

  /** The search through what one peek has shown. */
  method Search(buf: array<Byte>, from: nat, count: nat, term: Byte) returns (i: nat)
    requires from + count <= buf.Length
    ensures i <= count && term !in buf[from..from + i] && (i < count ==> buf[from + i] == term)
  {
    i := 0;
    while i < count && buf[from + i] != term
      invariant i <= count && term !in buf[from..from + i]
    {
      assert buf[from..from + i + 1] == buf[from..from + i] + [buf[from + i]];
      i := i + 1;
    }
  }

  /**
   str_netfd_alloc.  `peek` says how much each peek shows; whatever it says, the line is the same, exactly
   the bytes through the terminator are consumed, and a line that does not fit costs maxlen bytes.
   */
  method ReadLine(stream: seq<Byte>, term: Byte, maxlen: nat, peek: nat -> nat) returns (line: Line, consumed: nat)
    ensures (line, consumed) == Expected(stream, term, maxlen)
  {
    hide Find;
    var buf := new Byte[maxlen](_ => 0);
    var left, turn := maxlen, 0;
    consumed := 0;
    while true
      invariant left >= 0 && left + consumed == maxlen && consumed <= |stream| && buf.Length == maxlen
      invariant buf[..consumed] == stream[..consumed] && term !in stream[..consumed]
      decreases left
    {
      if left == 0 {
        FindAfter(stream, term, consumed);
        return TooLong, consumed;
      }
      if consumed == |stream| {
        FindAfter(stream, term, consumed);
        return EndOfStream, consumed;
      }
      var cap := if left <= |stream| - consumed then left else |stream| - consumed;
      var bytesRead := if 1 <= peek(turn) <= cap then peek(turn) else cap;
      turn := turn + 1;
      Peek(buf, stream, consumed, bytesRead);
      var i := Search(buf, consumed, bytesRead, term);
      Seen(buf[..], stream, consumed, consumed + i, consumed + bytesRead, term);
      if i < bytesRead {
        FindIs(stream, term, consumed + i);
        var text := AllocAltTerm(buf, term, consumed + i);
        return Line(text), consumed + i + 1;
      }
      left := left - bytesRead;
      consumed := consumed + bytesRead;
    }
  }

  /** What the buffer shows of the stream up to its first hi bytes. */
  lemma Seen(b: seq<Byte>, s: seq<Byte>, lo: nat, mid: nat, hi: nat, term: Byte)
    requires lo <= mid <= hi <= |b| && hi <= |s| && b[..hi] == s[..hi]
    requires term !in s[..lo] && term !in b[lo..mid]
    ensures b[..mid] == s[..mid] && term !in s[..mid]
    ensures mid < hi ==> b[mid] == s[mid]
  {
    assert b[..mid] == b[..hi][..mid] && s[..mid] == s[..hi][..mid];
    assert s[..mid] == s[..lo] + b[..mid][lo..];
    assert b[..mid][lo..] == b[lo..mid];
    assert mid < hi ==> b[mid] == b[..hi][mid] && s[mid] == s[..hi][mid];
  }

  lemma FindAfter(s: seq<Byte>, term: Byte, n: nat)
    requires n <= |s| && term !in s[..n]
    ensures Find(s, term) >= n
  {
  }
}
