/** The rate limiter in handle_io (ftpdataio.c), over exact reals. */
module BandwidthLimiter {
  const CAST_LIMIT: int := 0x1_0000_0000

  /** One I/O call: bytes moved, the time it was measured at, and the time the next call is measured from. */
  datatype Window = Window(bytes: nat, now: real, after: real)

  /** The time since the last mark; a clock that has not moved counts as a hundredth of a second. */
  function Elapsed(start: real, w: Window): (e: real)
    ensures e > 0.0
  {
    if w.now - start <= 0.0 then 0.01 else w.now - start
  }

  /** The rate, truncated to whole bytes per second by the cast. */
  function Rate(start: real, w: Window): nat {
    RatioNotNegative(w.bytes as real, Elapsed(start, w));
    (w.bytes as real / Elapsed(start, w)).Floor
  }

  lemma RatioNotNegative(n: real, d: real)
    requires n >= 0.0 && d > 0.0
    ensures n / d >= 0.0
  {
  }

  function Pause(start: real, w: Window, max: nat): real
    requires max > 0
  {
    PauseFor(Rate(start, w), max, Elapsed(start, w))
  }

  function PauseFor(rate: nat, max: nat, e: real): real
    requires max > 0
  {
    (rate as real / max as real - 1.0) * e
  }

  /** Below the limit the next window starts at once; above it, after a sleep that may last longer than asked. */
  predicate Paced(start: real, w: Window, max: nat)
    requires max > 0
  {
    if Rate(start, w) <= max then w.after == w.now else w.after >= w.now + Pause(start, w, max)
  }

  /** What the limiter is for: fewer bytes than the limit plus one allows for the window's span. */
  predicate Below(start: real, bytes: nat, after: real, max: nat) {
    bytes as real < (max + 1) as real * (after - start)
  }

  /** No pause within the limit; else just long enough for the rate, truncated to whole bytes, to be the limit. */
  predicate PauseFits(bytes: nat, e: real, max: nat, pause: real) {
    if bytes as real < (max + 1) as real * e then pause == 0.0
    else max as real * (e + pause) <= bytes as real < max as real * (e + pause) + e
  }

  /** sleep, and the clock afterwards. */
  method Sleep(now: real, pause: real) returns (after: real)
    ensures after >= now + pause
  {
    var late: real := *;
    after := now + pause + if late > 0.0 then late else 0.0;
  }

  /** The cast to unsigned int, which C leaves undefined from 2^32 on. */
  method Cast(q: real) returns (n: nat)
    requires q >= 0.0
    ensures q < CAST_LIMIT as real ==> n == q.Floor
  {
    n := *;
    if q < CAST_LIMIT as real {
      n := q.Floor;
    }
  }

  /** The pause that brings things back into line. */
  method PauseTime(rate: nat, max: nat, elapsed: real) returns (pause: real)
    requires rate > max > 0 && elapsed > 0.0
    ensures pause == PauseFor(rate, max, elapsed) > 0.0
  {
    var ratio := rate as real / max as real;
    pause := (ratio - 1.0) * elapsed;
    PauseExact(rate, max, elapsed);
  }

  class Limiter {
    const max: nat
    var start: real

    constructor (m: nat, s: real)
      ensures max == m && start == s
    {
      max, start := m, s;
    }

    /**
     handle_io on a successful transfer on the data connection; `pause` is what it asks to sleep and `after`
     when it returns.
     */
    method HandleIo(bytes: nat, now: real) returns (after: real, pause: real)
      modifies this
      ensures after >= now + pause && pause >= 0.0 && (pause == 0.0 ==> after == now)
      ensures max == 0 ==> pause == 0.0
      ensures max == 0 ==> start == old(start) && after == now
      ensures max > 0 ==> start == after
      ensures var w := Window(bytes, now, after);
              max > 0 && Rate(old(start), w) < CAST_LIMIT ==>
                && Paced(old(start), w, max) && PauseFits(bytes, Elapsed(old(start), w), max, pause)
                && (now > old(start) ==> Below(old(start), bytes, after, max))
    {
      hide PauseFits, Below, PauseFor;
      if max == 0 {
        return now, 0.0;
      }
      var elapsed := now - start;
      if elapsed <= 0.0 {
        elapsed := 0.01;
      }
      RatioNotNegative(bytes as real, elapsed);
      var rate := Cast(bytes as real / elapsed);
      if rate <= max {
        after, pause := now, 0.0;
      } else {
        pause := PauseTime(rate, max, elapsed);
        after := Sleep(now, pause);
      }
      ghost var w := Window(bytes, now, after);
      if Rate(start, w) < CAST_LIMIT {
        PauseIsRight(bytes, elapsed, max, rate, pause);
      }
      if Rate(start, w) < CAST_LIMIT && now > start {
        WindowBound(start, w, max);
      }
      start := after;
    }
  }

  lemma RateBounds(n: real, e: real, rate: int)
    requires e > 0.0 && rate == (n / e).Floor
    ensures rate as real * e <= n < (rate + 1) as real * e
  {
    var q := n / e;
    assert q * e == n;
    assert rate as real <= q < (rate + 1) as real;
  }

  /** The rate is below a whole number exactly when the bytes are below that many for the time. */
  lemma RateAgainst(bytes: nat, e: real, k: int)
    requires e > 0.0 && bytes as real / e >= 0.0
    ensures (bytes as real / e).Floor < k <==> (bytes as real) < k as real * e
  {
    var r := (bytes as real / e).Floor;
    RateBounds(bytes as real, e, r);
    if r < k {
      assert (r + 1) as real <= k as real;
      Scale((r + 1) as real, k as real, e);
    } else {
      Scale(k as real, r as real, e);
    }
  }

  lemma PauseIsRight(bytes: nat, e: real, max: nat, rate: int, pause: real)
    requires e > 0.0 && max > 0 && bytes as real / e >= 0.0 && rate >= 0 && rate == (bytes as real / e).Floor
    requires pause == if rate <= max then 0.0 else PauseFor(rate, max, e)
    ensures PauseFits(bytes, e, max, pause)
  {
    RateAgainst(bytes, e, max + 1);
    if rate > max {
      RateBounds(bytes as real, e, rate);
      PauseExact(rate, max, e);
      assert (rate + 1) as real * e == rate as real * e + e;
    }
  }

  /** With the pause the rate, as truncated, is the limit exactly. */
  lemma PauseExact(r: int, max: int, e: real)
    requires r > max > 0 && e > 0.0
    ensures var pause := PauseFor(r, max, e);
            pause > 0.0 && max as real * (e + pause) == r as real * e
  {
    var q := r as real / max as real;
    assert q * max as real == r as real && q > 1.0;
    assert e + (q - 1.0) * e == q * e;
    assert max as real * (q * e) == (q * max as real) * e;
  }

  /** While the clock moves, every window stays below the bound despite the truncated rate. */
  lemma WindowBound(start: real, w: Window, max: nat)
    requires max > 0 && w.now > start && Paced(start, w, max)
    ensures Below(start, w.bytes, w.after, max)
  {
    hide PauseFor;
    var e, r := Elapsed(start, w), Rate(start, w);
    RateBounds(w.bytes as real, e, r);
    var span := w.after - start;
    if r <= max {
      assert span == e && (r + 1) as real <= (max + 1) as real;
      Scale((r + 1) as real, (max + 1) as real, e);
    } else {
      assert span >= e + PauseFor(r, max, e);
      PauseEnough(r, max, e, span);
    }
  }

  lemma Scale(a: real, b: real, e: real)
    requires a <= b && e >= 0.0
    ensures a * e <= b * e
  {
  }

  lemma PauseEnough(r: int, max: int, e: real, span: real)
    requires r > max > 0 && e > 0.0
    requires span >= e + PauseFor(r, max, e)
    ensures (r + 1) as real * e <= (max + 1) as real * span
  {
    var q := r as real / max as real;
    assert q * max as real == r as real && q > 1.0;
    assert e + (q - 1.0) * e == q * e;
    Scale(q * e, span, (max + 1) as real);
    assert (max + 1) as real * (q * e) == (q * max as real + q) * e;
    Scale((r + 1) as real, q * max as real + q, e);
  }

  // ---------------------------------------------------------------- runs of windows

  function Total(ws: seq<Window>): nat {
    if ws == [] then 0 else Total(ws[..|ws| - 1]) + ws[|ws| - 1].bytes
  }

  function End(start: real, ws: seq<Window>): real {
    if ws == [] then start else ws[|ws| - 1].after
  }

  /** Every window is paced, and with `moving` the clock has moved in each. */
  predicate AllPaced(start: real, ws: seq<Window>, max: nat, moving: bool)
    requires max > 0
  {
    ws == [] ||
    var mid, w := End(start, ws[..|ws| - 1]), ws[|ws| - 1];
    AllPaced(start, ws[..|ws| - 1], max, moving) && Paced(mid, w, max) && (moving ==> w.now > mid)
  }

  /** Over any run of windows the limiter keeps the average below one byte per second above the limit. */
  lemma {:induction false} RunBound(start: real, ws: seq<Window>, max: nat)
    requires max > 0 && AllPaced(start, ws, max, true)
    ensures Total(ws) as real <= (max + 1) as real * (End(start, ws) - start)
    ensures ws != [] ==> Below(start, Total(ws), End(start, ws), max)
  {
    hide Paced;
    if ws == [] {
    } else {
      var before, w := ws[..|ws| - 1], ws[|ws| - 1];
      var mid := End(start, before);
      RunBound(start, before, max);
      WindowBound(mid, w, max);
      Extend((max + 1) as real, Total(before) as real, w.bytes as real, mid - start, w.after - mid);
    }
  }

  lemma Extend(k: real, t: real, b: real, x: real, y: real)
    requires t <= k * x && b < k * y
    ensures t + b < k * (x + y)
  {
  }

  lemma OneMore(start: real, ws: seq<Window>, w: Window)
    ensures Total(ws + [w]) == Total(ws) + w.bytes && End(start, ws + [w]) == w.after
    ensures forall max: nat, moving | max > 0 ::
              AllPaced(start, ws + [w], max, moving) <==>
              AllPaced(start, ws, max, moving) && Paced(End(start, ws), w, max) && (moving ==> w.now > End(start, ws))
  {
    assert (ws + [w])[..|ws|] == ws;
  }

  /** A transfer's I/O: how long each call takes from the end of the one before, and how much it moves. */
  datatype Io = Io(bytes: nat, gap: real)

  /** The clock moves, and not so little that the rate overflows the cast. */
  predicate Steady(io: Io) {
    io.gap > 0.0 && io.bytes as real < CAST_LIMIT as real * io.gap
  }

  function Moved(ios: seq<Io>): nat {
    if ios == [] then 0 else Moved(ios[..|ios| - 1]) + ios[|ios| - 1].bytes
  }

  lemma SteadyRate(start: real, w: Window, io: Io)
    requires Steady(io) && w.bytes == io.bytes && w.now == start + io.gap
    ensures Rate(start, w) < CAST_LIMIT
  {
    RateBounds(w.bytes as real, io.gap, Rate(start, w));
    if Rate(start, w) >= CAST_LIMIT {
      Scale(CAST_LIMIT as real, Rate(start, w) as real, io.gap);
    }
  }

  /** A whole transfer through handle_io, whatever its calls: the bytes stay below the bound for the time it took. */
  method Transfer(max: nat, start: real, ios: seq<Io>) returns (end: real)
    requires forall io | io in ios :: Steady(io)
    ensures max > 0 && ios != [] ==> Below(start, Moved(ios), end, max)
  {
    hide Paced, Rate, Steady;
    var l := new Limiter(max, start);
    ghost var ws: seq<Window> := [];
    end := start;
    var n := 0;
    while n < |ios|
      invariant n <= |ios| && |ws| == n && l.max == max
      invariant max > 0 ==> l.start == end == End(start, ws) && AllPaced(start, ws, max, true)
      invariant Total(ws) == Moved(ios[..n])
    {
      assert ios[..n + 1][..n] == ios[..n] && ios[n] in ios;
      var now := end + ios[n].gap;
      assert ios[n].gap > 0.0 by { Positive(ios[n]); }
      var pause;
      end, pause := l.HandleIo(ios[n].bytes, now);
      ghost var w := Window(ios[n].bytes, now, end);
      if max > 0 {
        SteadyRate(End(start, ws), w, ios[n]);
      }
      OneMore(start, ws, w);
      ws := ws + [w];
      n := n + 1;
    }
    assert ios[..n] == ios;
    if max > 0 {
      RunBound(start, ws, max);
    }
  }

  lemma Positive(io: Io)
    requires Steady(io)
    ensures io.gap > 0.0
  {
  }

  // ---------------------------------------------------------------- a clock that stands still

  /** Within the limit, the bound holds if and only if the clock has moved. */
  lemma StuckWithin(start: real, w: Window, max: nat)
    requires max > 0 && Rate(start, w) <= max && Paced(start, w, max)
    ensures Below(start, w.bytes, w.after, max) <==> w.now > start
  {
    if w.now > start {
      WindowBound(start, w, max);
    } else {
      Scale(w.after - start, 0.0, (max + 1) as real);
    }
  }

  /**
   Above the limit, the bound holds for every sleep that lasts long enough if and only if the clock has
   moved or the bytes outweigh the hundredth of a second taken for granted and what the clock has lost.
   */
  lemma StuckAbove(start: real, w: Window, max: nat)
    requires max > 0 && Rate(start, w) > max
    ensures (forall after | Paced(start, w.(after := after), max) :: Below(start, w.bytes, after, max)) <==>
            w.now > start || 100.0 * w.bytes as real > (max * (max + 1)) as real * (1.0 + 100.0 * (start - w.now))
  {
    hide Below, Rate;
    var least := w.now + Pause(start, w, max);
    forall after ensures Paced(start, w.(after := after), max) <==> after >= least {
      Sleeps(start, w, max, after);
    }
    assert Paced(start, w.(after := least), max);
    if w.now > start {
      forall after | Paced(start, w.(after := after), max) ensures Below(start, w.bytes, after, max) {
        WindowBound(start, w.(after := after), max);
      }
    } else {
      StuckLeast(start, w, max);
      forall after | Paced(start, w.(after := after), max) && Below(start, w.bytes, least, max)
        ensures Below(start, w.bytes, after, max)
      {
        Longer(start, w.bytes, least, after, max);
      }
    }
  }

  lemma Sleeps(start: real, w: Window, max: nat, after: real)
    requires max > 0 && Rate(start, w) > max
    ensures Paced(start, w.(after := after), max) <==> after >= w.now + Pause(start, w, max)
  {
  }

  lemma Longer(start: real, bytes: nat, a: real, b: real, max: nat)
    requires a <= b && Below(start, bytes, a, max)
    ensures Below(start, bytes, b, max)
  {
    Scale(a - start, b - start, (max + 1) as real);
  }

  /** With the clock stuck, the shortest sleep is enough exactly when the bytes outweigh what was lost. */
  lemma StuckLeast(start: real, w: Window, max: nat)
    requires max > 0 && w.now <= start
    ensures Below(start, w.bytes, w.now + Pause(start, w, max), max) <==>
            100.0 * w.bytes as real > (max * (max + 1)) as real * (1.0 + 100.0 * (start - w.now))
  {
    StuckRate(start, w);
    StuckSpan(w.bytes, max, start - w.now);
  }

  /** Without the clock the rate is a hundred times the bytes, exactly. */
  lemma StuckRate(start: real, w: Window)
    requires w.now <= start
    ensures Rate(start, w) == 100 * w.bytes
  {
    assert w.bytes as real / 0.01 == (100 * w.bytes) as real;
  }

  lemma StuckSpan(bytes: nat, max: nat, lost: real)
    requires max > 0 && lost >= 0.0
    ensures var span := ((100 * bytes) as real / max as real - 1.0) * 0.01 - lost;
            bytes as real < (max + 1) as real * span <==>
            100.0 * bytes as real > (max * (max + 1)) as real * (1.0 + 100.0 * lost)
  {
    var b, m, t := bytes as real, max as real, 1.0 + 100.0 * lost;
    var q := (100 * bytes) as real / m;
    var span := (q - 1.0) * 0.01 - lost;
    assert q * m == 100.0 * b;
    SpanScaled(b, m, t, q);
    Regrouped(m, span, t, b);
    Compare(100.0 * m, b, (m + 1.0) * span);
    assert (max * (max + 1)) as real == m * (m + 1.0);
  }

  lemma SpanScaled(b: real, m: real, t: real, q: real)
    requires q * m == 100.0 * b
    ensures m * (q - t) == 100.0 * b - m * t
  {
  }

  lemma Regrouped(m: real, span: real, t: real, b: real)
    requires m * (100.0 * span) == 100.0 * b - m * t
    ensures 100.0 * m * ((m + 1.0) * span) == 100.0 * b * m + (100.0 * b - m * (m + 1.0) * t)
  {
    var x := m * (100.0 * span);
    assert 100.0 * m * ((m + 1.0) * span) == (m + 1.0) * x;
    assert (m + 1.0) * x == m * x + x;
    assert m * (100.0 * b - m * t) == 100.0 * b * m - m * (m * t);
    assert m * (m + 1.0) * t == m * (m * t) + m * t;
  }

  lemma Compare(k: real, a: real, b: real)
    requires k > 0.0
    ensures a < b <==> k * a < k * b
  {
    if k * a < k * b && a >= b {
      Scale(b, a, k);
    }
  }

  /** So any number of bytes can pass in no time at all. */
  lemma {:induction false} StuckClock(n: nat) returns (ws: seq<Window>)
    ensures Total(ws) == n && AllPaced(0.0, ws, 1000, false) && End(0.0, ws) == 0.0
  {
    ws := [];
    if n == 0 {
    } else {
      ws := StuckClock(n - 1);
      var w := Window(1, 0.0, 0.0);
      StuckRate(0.0, w);
      OneMore(0.0, ws, w);
      ws := ws + [w];
    }
  }
}
