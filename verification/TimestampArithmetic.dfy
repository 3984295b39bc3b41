/** Arithmetic on 33-bit timestamps that wrap, and its conversion to milliseconds. */
module TimestampArithmetic {
  import opened TransportStream

  const HALF_SCALE := PTS_DTS_SCALE / 2
  const PCR_TICKS_PER_PTS_TICK := 300
  const PTS_TICKS_PER_SECOND := 90_000
  const MILLIS_PER_SECOND := 1_000
  const MAX_SANE_PCR_DELTA := 90_000

  /** A value of the 33-bit timestamp range. */
  predicate IsPts(x: int) {
    0 <= x <= MAX_PTS_DTS
  }

  /** Division that truncates toward zero. */
  function TruncDiv(a: int, b: int): int
    requires b > 0
  {
    if a >= 0 then a / b else -(-a / b)
  }

  /** How far `to` lies ahead of `from`, going forward around the wrap. */
  function DiffPts(from: int, to: int): int
    requires IsPts(from) && IsPts(to)
  {
    if to >= from then to - from else PTS_DTS_SCALE + to - from
  }

  function WrapAwareDelta90k(from: int, to: int): int
    requires IsPts(from) && IsPts(to)
  {
    var forward := DiffPts(from, to);
    var backward := DiffPts(to, from);
    if forward <= backward then forward else -backward
  }

  predicate IsSanePcrDelta(delta: int) {
    0 <= delta <= MAX_SANE_PCR_DELTA
  }

  /** Two numbers that a 33-bit counter cannot tell apart. */
  ghost predicate Congruent(a: int, b: int) {
    exists k: int :: a == b + k * PTS_DTS_SCALE
  }

  lemma CongruentNear(a: int, b: int)
    requires Congruent(a, b) && -PTS_DTS_SCALE < a - b < PTS_DTS_SCALE
    ensures a == b
  {
    var k: int :| a == b + k * PTS_DTS_SCALE;
    assert -1 < k < 1;
  }

  /** The delta is the one signed distance of at most half the range. */
  lemma WrapAwareDeltaIsNearest(from: int, to: int, d: int)
    requires IsPts(from) && IsPts(to)
    ensures d == WrapAwareDelta90k(from, to) <==> -HALF_SCALE < d <= HALF_SCALE && Congruent(from + d, to)
  {
    var w := WrapAwareDelta90k(from, to);
    assert Congruent(from + w, to) by {
      assert from + w == to + 0 * PTS_DTS_SCALE || from + w == to + 1 * PTS_DTS_SCALE
             || from + w == to + (-1) * PTS_DTS_SCALE;
    }
    if -HALF_SCALE < d <= HALF_SCALE && Congruent(from + d, to) {
      var j: int :| from + w == to + j * PTS_DTS_SCALE;
      var k: int :| from + d == to + k * PTS_DTS_SCALE;
      assert d - w == (k - j) * PTS_DTS_SCALE;
      assert -1 < k - j < 1;
    }
  }

  /** Going back is going forward by the opposite delta, but for the point exactly
      half-way around, which is ahead both ways. */
  lemma WrapAwareDeltaReverses(a: int, b: int)
    requires IsPts(a) && IsPts(b)
    ensures WrapAwareDelta90k(b, a) == -WrapAwareDelta90k(a, b) <==> WrapAwareDelta90k(a, b) != HALF_SCALE
    ensures WrapAwareDelta90k(a, b) == HALF_SCALE <==> WrapAwareDelta90k(b, a) == HALF_SCALE
  {
  }

  /** What the counter shows `elapsed` ticks after it showed `from`. */
  function Advance(from: int, elapsed: int): (r: int)
    ensures IsPts(r) && Congruent(r, from + elapsed)
  {
    var k := (from + elapsed) / PTS_DTS_SCALE;
    assert (from + elapsed) % PTS_DTS_SCALE == from + elapsed + (-k) * PTS_DTS_SCALE;
    (from + elapsed) % PTS_DTS_SCALE
  }

  lemma CongruentChain(a: int, b: int, c: int)
    requires Congruent(a, b) && Congruent(b, c)
    ensures Congruent(a, c) && Congruent(c, a)
  {
    var j: int :| a == b + j * PTS_DTS_SCALE;
    var k: int :| b == c + k * PTS_DTS_SCALE;
    assert a == c + (j + k) * PTS_DTS_SCALE;
    assert c == a + (-(j + k)) * PTS_DTS_SCALE;
  }

  lemma AdvanceTwice(from: int, a: int, b: int)
    ensures Advance(Advance(from, a), b) == Advance(from, a + b)
  {
    var at := Advance(from, a);
    var j: int :| at == from + a + j * PTS_DTS_SCALE;
    assert at + b == from + (a + b) + j * PTS_DTS_SCALE;
    CongruentChain(Advance(at, b), at + b, from + (a + b));
    CongruentRefl(from + (a + b));
    CongruentChain(Advance(at, b), from + (a + b), from + (a + b));
    CongruentChain(Advance(from, a + b), from + (a + b), from + (a + b));
    CongruentChain(Advance(at, b), from + (a + b), Advance(from, a + b));
    CongruentNear(Advance(at, b), Advance(from, a + b));
  }

  /** Advancing by a delta of at most half the range is what the delta measures. */
  lemma DeltaOfAdvance(from: int, d: int)
    requires IsPts(from)
    ensures WrapAwareDelta90k(from, Advance(from, d)) == d <==> -HALF_SCALE < d <= HALF_SCALE
  {
    CongruentRefl(from + d);
    CongruentChain(Advance(from, d), from + d, from + d);
    WrapAwareDeltaIsNearest(from, Advance(from, d), d);
  }

  lemma CongruentRefl(a: int)
    ensures Congruent(a, a)
  {
    assert a == a + 0 * PTS_DTS_SCALE;
  }

  /** Small steps of the counter add up. */
  lemma AdvanceByDelta(from: int, elapsed: int, to: int)
    requires IsPts(to)
    ensures Advance(from, elapsed + WrapAwareDelta90k(Advance(from, elapsed), to)) == to
  {
    var at := Advance(from, elapsed);
    var d := WrapAwareDelta90k(at, to);
    WrapAwareDeltaIsNearest(at, to, d);
    var j: int :| at == from + elapsed + j * PTS_DTS_SCALE;
    var k: int :| at + d == to + k * PTS_DTS_SCALE;
    assert from + elapsed + d == to + (k - j) * PTS_DTS_SCALE;
    assert Congruent(from + (elapsed + d), to);
    CongruentChain(Advance(from, elapsed + d), from + elapsed + d, to);
    CongruentNear(Advance(from, elapsed + d), to);
  }

  /** Milliseconds of a tick delta, as computed: the product first, then a truncating
      division. */
  function DeltaToMs(delta: int): int {
    TruncDiv(delta * MILLIS_PER_SECOND, PTS_TICKS_PER_SECOND)
  }

  /** The product never leaves the 64-bit range, and scaling first loses nothing: the
      result is a ninetieth of the delta, rounded toward zero by less than 1 ms. */
  lemma DeltaToMsIsExact(delta: int)
    requires -HALF_SCALE <= delta <= HALF_SCALE
    ensures -0x8000_0000_0000_0000 <= delta * MILLIS_PER_SECOND < 0x8000_0000_0000_0000
    ensures DeltaToMs(delta) == TruncDiv(delta, 90)
    ensures if delta >= 0 then 0 <= delta - 90 * DeltaToMs(delta) < 90 else -90 < delta - 90 * DeltaToMs(delta) <= 0
  {
    DivideByThousand(delta);
    DivideByThousand(-delta);
  }

  lemma DivideByThousand(n: int)
    ensures n >= 0 ==> n * 1000 / 90_000 == n / 90
  {
    if n >= 0 {
      var q, r := n / 90, n % 90;
      assert n * 1000 == q * 90_000 + r * 1000;
    }
  }

  lemma DeltaToMsIsMonotone(a: int, b: int)
    requires -HALF_SCALE <= a <= b <= HALF_SCALE
    ensures DeltaToMs(a) <= DeltaToMs(b)
  {
    DeltaToMsIsExact(a);
    DeltaToMsIsExact(b);
  }

  /** Whole milliseconds of an absolute timestamp, of which the low 33 bits count. */
  function Pts90kToMs(pts: nat): nat {
    (pts % PTS_DTS_SCALE) / 90
  }

  /** Away from the wrap, the conversion of a delta and the conversions of its two ends
      agree to within a millisecond. */
  lemma DeltaAgreesWithAbsolute(from: int, to: int)
    requires IsPts(from) && IsPts(to) && -HALF_SCALE < to - from <= HALF_SCALE
    ensures -1 <= DeltaToMs(WrapAwareDelta90k(from, to)) - (Pts90kToMs(to) - Pts90kToMs(from)) <= 1
  {
    NoWrap(from, to);
    DeltaToMsIsExact(to - from);
    hide DeltaToMs, WrapAwareDelta90k, Pts90kToMs;
    AbsoluteMs(from);
    AbsoluteMs(to);
  }

  lemma NoWrap(from: int, to: int)
    requires IsPts(from) && IsPts(to) && -HALF_SCALE < to - from <= HALF_SCALE
    ensures WrapAwareDelta90k(from, to) == to - from
  {
  }

  /** The low 33 bits count, and are rounded down to whole milliseconds. */
  lemma AbsoluteMs(pts: nat)
    ensures 0 <= pts % PTS_DTS_SCALE - 90 * Pts90kToMs(pts) < 90
    ensures IsPts(pts) ==> pts % PTS_DTS_SCALE == pts
  {
  }
}
