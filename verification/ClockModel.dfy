/** The PCR/TOT clock as a state machine over the events of a stream. */
module ClockModel {
  import opened TransportStream
  import opened TimestampArithmetic

  const SUSPECT_PCR_CONFIRM_COUNT := 2

  datatype ReferencePoint = ReferencePoint(pcr: int, unixMs: int)

  datatype Clock = Clock(pcrPid: Option<Pid>, last: Option<int>, reference: Option<ReferencePoint>, suspects: nat)

  /** What the clock looks at in a packet. */
  datatype TsPacket = TsPacket(pid: Pid, hasPcr: bool, pcr: nat, discontinuity: bool)

  /** `flagged` tells a discontinuity the stream announced from an inferred one. */
  datatype PcrDiscontinuity = PcrDiscontinuity(pid: Pid, flagged: bool)

  /** A TOT carries a wall-clock time in ms, if it is valid and its time is. */
  datatype Event = PcrPid(pid: Pid) | Packet(packet: TsPacket) | Tot(unixMs: Option<int>)

  const INITIAL := Clock(None, None, None, 0)

  /** How the clock takes a packet. */
  datatype Sample =
    | Ignored
    | Flagged(pcr: int)
    | First(pcr: int)
    | InSeries(pcr: int)
    | OutOfSeries(pcr: int)

  predicate IsOnPid(pid: Option<Pid>, p: TsPacket) {
    pid == Some(p.pid) && p.hasPcr && p.pcr != INVALID_PCR && p.pcr <= MAX_PCR
  }

  /** Every PCR the clock keeps is in range for the timestamp arithmetic. */
  predicate InRange(c: Clock) {
    && (c.last.Some? ==> IsPts(c.last.value) && c.pcrPid.Some?)
    && (c.reference.Some? ==> c.last.Some? && IsPts(c.reference.value.pcr))
    && c.suspects < SUSPECT_PCR_CONFIRM_COUNT
    && (c.suspects > 0 ==> c.last.Some?)
  }

  function Classify(c: Clock, p: TsPacket): (s: Sample)
    requires InRange(c)
    ensures !s.Ignored? ==> IsPts(s.pcr) && s.pcr == p.pcr / 300 && c.pcrPid == Some(p.pid)
  {
    if !IsOnPid(c.pcrPid, p) then Ignored
    else
      var pcr := p.pcr / PCR_TICKS_PER_PTS_TICK;
      if p.discontinuity then Flagged(pcr)
      else if c.last.None? then First(pcr)
      else if IsSanePcrDelta(WrapAwareDelta90k(c.last.value, pcr)) then InSeries(pcr)
      else OutOfSeries(pcr)
  }

  function NewSeries(c: Clock, pcr: int): Clock {
    c.(last := Some(pcr), reference := None, suspects := 0)
  }

  function AfterPacket(c: Clock, p: TsPacket): Clock
    requires InRange(c)
  {
    match Classify(c, p)
    case Ignored => c
    case Flagged(pcr) => NewSeries(c, pcr)
    case First(pcr) => c.(last := Some(pcr), suspects := 0)
    case InSeries(pcr) => c.(last := Some(pcr), suspects := 0)
    case OutOfSeries(pcr) =>
      if c.suspects + 1 >= SUSPECT_PCR_CONFIRM_COUNT then NewSeries(c, pcr) else c.(suspects := c.suspects + 1)
  }

  function Report(c: Clock, p: TsPacket): Option<PcrDiscontinuity>
    requires InRange(c)
  {
    match Classify(c, p)
    case Flagged(_) => Some(PcrDiscontinuity(p.pid, true))
    case OutOfSeries(_) =>
      if c.suspects + 1 >= SUSPECT_PCR_CONFIRM_COUNT then Some(PcrDiscontinuity(p.pid, false)) else None
    case _ => None
  }

  function AfterPid(c: Clock, pid: Pid): Clock {
    if pid == PID_NULL || c.pcrPid == Some(pid) then c else Clock(Some(pid), None, None, 0)
  }

  function AfterTot(c: Clock, unixMs: Option<int>): Clock {
    if unixMs.None? || c.last.None? || c.suspects > 0 then c
    else c.(reference := Some(ReferencePoint(c.last.value, unixMs.value)))
  }

  function Step(c: Clock, e: Event): (c': Clock)
    requires InRange(c)
    ensures InRange(c')
  {
    match e
    case PcrPid(pid) => AfterPid(c, pid)
    case Packet(p) => AfterPacket(c, p)
    case Tot(unixMs) => AfterTot(c, unixMs)
  }

  function PtsToUnixMs(c: Clock, pts: nat): Option<int>
    requires InRange(c)
  {
    if c.reference.None? || c.suspects > 0 || pts > MAX_PTS_DTS then None
    else Some(c.reference.value.unixMs + DeltaToMs(WrapAwareDelta90k(c.reference.value.pcr, pts)))
  }

  /** The clock after a run of events. */
  function Run(c: Clock, es: seq<Event>): (c': Clock)
    requires InRange(c)
    ensures InRange(c')
    decreases |es|
  {
    if es == [] then c else Step(Run(c, es[..|es| - 1]), es[|es| - 1])
  }

  function After(es: seq<Event>): (c: Clock)
    ensures InRange(c)
  {
    Run(INITIAL, es)
  }

  /** An unflagged sample is in series exactly when the counter, going on from the last
      accepted PCR for at most a second, comes to show it; wraps do not matter. */
  lemma InSeriesIff(c: Clock, p: TsPacket)
    requires InRange(c) && c.last.Some? && IsOnPid(c.pcrPid, p) && !p.discontinuity
    ensures Classify(c, p).InSeries? <==>
            exists ticks: nat :: ticks <= PTS_TICKS_PER_SECOND && Advance(c.last.value, ticks) == p.pcr / 300
  {
    var delta := WrapAwareDelta90k(c.last.value, p.pcr / 300);
    if 0 <= delta <= PTS_TICKS_PER_SECOND {
      AdvanceByDelta(c.last.value, 0, p.pcr / 300);
      assert Advance(c.last.value, 0) == c.last.value;
      assert Advance(c.last.value, delta) == p.pcr / 300;
    }
    forall ticks: nat | ticks <= PTS_TICKS_PER_SECOND && Advance(c.last.value, ticks) == p.pcr / 300
      ensures delta == ticks
    {
      DeltaOfAdvance(c.last.value, ticks);
    }
  }

  // ---------- Conversion on a live reference ----------

  /** A timestamp `d` ticks from the reference, up to half the range either way, converts
      to the reference time and `d` in milliseconds, rounded toward zero. */
  lemma ConversionIsExact(c: Clock, d: int)
    requires InRange(c) && c.reference.Some? && c.suspects == 0 && -HALF_SCALE < d <= HALF_SCALE
    ensures var r := c.reference.value;
            var ms := PtsToUnixMs(c, Advance(r.pcr, d));
            && ms == Some(r.unixMs + TruncDiv(d, 90))
            && -90 < 90 * (ms.value - r.unixMs) - d < 90
  {
    DeltaOfAdvance(c.reference.value.pcr, d);
    DeltaToMsIsExact(d);
  }

  lemma ConversionIsMonotone(c: Clock, d1: int, d2: int)
    requires InRange(c) && c.reference.Some? && c.suspects == 0 && -HALF_SCALE < d1 <= d2 <= HALF_SCALE
    ensures var pcr := c.reference.value.pcr;
            PtsToUnixMs(c, Advance(pcr, d1)).value <= PtsToUnixMs(c, Advance(pcr, d2)).value
  {
    DeltaOfAdvance(c.reference.value.pcr, d1);
    DeltaOfAdvance(c.reference.value.pcr, d2);
    DeltaToMsIsMonotone(d1, d2);
  }

  predicate IsInt64(n: int) {
    -0x8000_0000_0000_0000 <= n < 0x8000_0000_0000_0000
  }

  /** Half the range of the counter, in whole milliseconds. */
  const HALF_SCALE_MS := 47_721_858

  /** No timestamp converts to a time outside of 64 bits exactly if the reference time is
      half the counter's range away from their limits. */
  lemma ConversionFitsIff(c: Clock)
    requires InRange(c) && c.reference.Some? && c.suspects == 0
    ensures var ms := c.reference.value.unixMs;
            (forall pts: nat | IsPts(pts) :: IsInt64(PtsToUnixMs(c, pts).value))
            <==> IsInt64(ms - HALF_SCALE_MS) && IsInt64(ms + HALF_SCALE_MS)
  {
    var r := c.reference.value;
    forall pts: nat | IsPts(pts)
      ensures r.unixMs - HALF_SCALE_MS <= PtsToUnixMs(c, pts).value <= r.unixMs + HALF_SCALE_MS
    {
      DeltaToMsIsExact(WrapAwareDelta90k(r.pcr, pts));
    }
    var first, last := -(HALF_SCALE - 1), HALF_SCALE;
    ConversionIsExact(c, first);
    ConversionIsExact(c, last);
    assert PtsToUnixMs(c, Advance(r.pcr, first)).value == r.unixMs - HALF_SCALE_MS;
    assert PtsToUnixMs(c, Advance(r.pcr, last)).value == r.unixMs + HALF_SCALE_MS;
  }

  // ---------- The unwrapped timeline ----------

  /** A clock with a record of its past: the PCR ticks accepted since the reference was
      set, how often the reference was set or dropped, and how suspects ended. */
  datatype History = History(clock: Clock, elapsed: nat, epoch: nat,
                             suspected: nat, inferred: nat, cancelled: nat)

  predicate SetsReference(c: Clock, e: Event) {
    e.Tot? && e.unixMs.Some? && c.last.Some? && c.suspects == 0
  }

  predicate DropsReference(c: Clock, e: Event)
    requires InRange(c)
  {
    match e
    case PcrPid(pid) => pid != PID_NULL && c.pcrPid != Some(pid)
    case Packet(p) => Report(c, p).Some?
    case Tot(_) => false
  }

  function Accepted(c: Clock, e: Event): (ticks: nat)
    requires InRange(c)
  {
    if e.Packet? && Classify(c, e.packet).InSeries?
    then WrapAwareDelta90k(c.last.value, Classify(c, e.packet).pcr) else 0
  }

  /** An effective sample that is out of series: held, or confirming a held one. */
  predicate IsSuspect(c: Clock, e: Event)
    requires InRange(c)
  {
    e.Packet? && Classify(c, e.packet).OutOfSeries?
  }

  /** The suspect held by `c` is given up for another reason than being confirmed. */
  predicate CancelsSuspect(c: Clock, e: Event)
    requires InRange(c)
  {
    && c.suspects > 0
    && match e
       case PcrPid(pid) => pid != PID_NULL && c.pcrPid != Some(pid)
       case Packet(p) => Classify(c, p).InSeries? || Classify(c, p).Flagged?
       case Tot(_) => false
  }

  function Record(h: History, e: Event): (h': History)
    requires InRange(h.clock)
    ensures InRange(h'.clock)
  {
    var c := h.clock;
    var turns := SetsReference(c, e) || DropsReference(c, e);
    History(Step(c, e),
            if turns then 0 else h.elapsed + Accepted(c, e),
            if turns then h.epoch + 1 else h.epoch,
            if IsSuspect(c, e) then h.suspected + 1 else h.suspected,
            if e.Packet? && Report(c, e.packet) == Some(PcrDiscontinuity(e.packet.pid, false)) then h.inferred + 1
            else h.inferred,
            if CancelsSuspect(c, e) then h.cancelled + 1 else h.cancelled)
  }

  function Recorded(h: History, es: seq<Event>): (h': History)
    requires InRange(h.clock)
    ensures InRange(h'.clock)
    decreases |es|
  {
    if es == [] then h else Record(Recorded(h, es[..|es| - 1]), es[|es| - 1])
  }

  const UNRECORDED := History(INITIAL, 0, 0, 0, 0, 0)

  lemma {:induction false} RecordedIsRun(h: History, es: seq<Event>)
    requires InRange(h.clock)
    ensures Recorded(h, es).clock == Run(h.clock, es)
    decreases |es|
  {
    if es != [] {
      RecordedIsRun(h, es[..|es| - 1]);
    }
  }

  /** The last accepted PCR is the reference PCR and the ticks accepted since, modulo the
      33 bits of the counter. */
  predicate OnTimeline(h: History) {
    h.clock.reference.Some? ==>
      h.clock.last.Some? && h.clock.last.value == Advance(h.clock.reference.value.pcr, h.elapsed)
  }

  lemma RecordKeepsTimeline(h: History, e: Event)
    requires InRange(h.clock) && OnTimeline(h)
    ensures OnTimeline(Record(h, e))
  {
    var c := h.clock;
    if c.reference.Some? && e.Packet? && Classify(c, e.packet).InSeries? {
      AdvanceByDelta(c.reference.value.pcr, h.elapsed, Classify(c, e.packet).pcr);
    } else if SetsReference(c, e) {
      assert Advance(c.last.value, 0) == c.last.value;
    }
  }

  /** In every reachable state, over any number of wraps. */
  lemma {:induction false} TimelineHolds(es: seq<Event>)
    ensures OnTimeline(Recorded(UNRECORDED, es))
    ensures Recorded(UNRECORDED, es).clock == After(es)
    decreases |es|
  {
    RecordedIsRun(UNRECORDED, es);
    if es != [] {
      TimelineHolds(es[..|es| - 1]);
      RecordKeepsTimeline(Recorded(UNRECORDED, es[..|es| - 1]), es[|es| - 1]);
    }
  }

  /** Converting the latest PCR gives the reference time and the time elapsed since,
      exactly as long as at most half the counter's range has elapsed. */
  lemma LatestPcrConvertsToElapsedTime(es: seq<Event>)
    requires var c := After(es); c.reference.Some? && c.suspects == 0
    ensures var h := Recorded(UNRECORDED, es);
            var c := After(es);
            && c.last.Some?
            && (PtsToUnixMs(c, c.last.value) == Some(c.reference.value.unixMs + h.elapsed / 90)
                <==> h.elapsed <= HALF_SCALE)
  {
    hide Recorded, After;
    TimelineHolds(es);
    ElapsedConverts(After(es), Recorded(UNRECORDED, es).elapsed);
  }

  lemma ElapsedConverts(c: Clock, elapsed: nat)
    requires InRange(c) && c.reference.Some? && c.suspects == 0
    requires c.last == Some(Advance(c.reference.value.pcr, elapsed))
    ensures PtsToUnixMs(c, c.last.value) == Some(c.reference.value.unixMs + elapsed / 90) <==> elapsed <= HALF_SCALE
  {
    var from, to := c.reference.value.pcr, c.last.value;
    DeltaOfAdvance(from, elapsed);
    DeltaToMsIsExact(WrapAwareDelta90k(from, to));
    if elapsed > HALF_SCALE {
      FarDelta(from, to, elapsed);
    }
  }

  /** Beyond half the range, the delta falls short by a whole turn at least. */
  lemma FarDelta(from: int, to: int, elapsed: nat)
    requires IsPts(from) && IsPts(to) && Congruent(to, from + elapsed) && elapsed > HALF_SCALE
    ensures WrapAwareDelta90k(from, to) <= elapsed - PTS_DTS_SCALE
  {
    var d := WrapAwareDelta90k(from, to);
    WrapAwareDeltaIsNearest(from, to, d);
    CongruentChain(from + d, to, from + elapsed);
    var k: int :| from + d == from + elapsed + k * PTS_DTS_SCALE;
    assert k <= -1;
  }

  /** While the reference stands, elapsed time only grows. */
  lemma {:induction false} ElapsedGrows(h: History, es: seq<Event>)
    requires InRange(h.clock)
    ensures var h' := Recorded(h, es);
            && h.epoch <= h'.epoch
            && (h.epoch == h'.epoch ==> h.elapsed <= h'.elapsed && h'.clock.reference == h.clock.reference)
    decreases |es|
  {
    if es != [] {
      ElapsedGrows(h, es[..|es| - 1]);
    }
  }

  /** How often the delta from the reference has flipped over, half-way around the counter,
      when `elapsed` ticks have passed. */
  function Turns(elapsed: nat): nat {
    (elapsed + HALF_SCALE - 1) / PTS_DTS_SCALE
  }

  /** The time that the last accepted PCR converts to, once no suspect is held. */
  function LatestTime(c: Clock): int
    requires InRange(c) && c.reference.Some?
  {
    c.reference.value.unixMs + DeltaToMs(WrapAwareDelta90k(c.reference.value.pcr, c.last.value))
  }

  /** The time is the reference time and the time elapsed, less the turns made. */
  lemma LatestTimeIs(h: History)
    requires InRange(h.clock) && h.clock.reference.Some? && OnTimeline(h)
    ensures var d := h.elapsed - Turns(h.elapsed) * PTS_DTS_SCALE;
            && -HALF_SCALE < d <= HALF_SCALE
            && LatestTime(h.clock) == h.clock.reference.value.unixMs + TruncDiv(d, 90)
    ensures h.clock.suspects == 0 ==> PtsToUnixMs(h.clock, h.clock.last.value) == Some(LatestTime(h.clock))
  {
    var from, to, k := h.clock.reference.value.pcr, h.clock.last.value, Turns(h.elapsed);
    var d := h.elapsed - k * PTS_DTS_SCALE;
    assert Congruent(from + d, from + h.elapsed) by {
      assert from + d == from + h.elapsed + (-k) * PTS_DTS_SCALE;
    }
    CongruentRefl(from + h.elapsed);
    CongruentChain(to, from + h.elapsed, from + h.elapsed);
    CongruentChain(from + d, from + h.elapsed, to);
    WrapAwareDeltaIsNearest(from, to, d);
    DeltaToMsIsExact(d);
  }

  /** An event within the epoch of a reference sends the time of the latest PCR back. */
  predicate GoesBack(h: History, e: Event)
    requires InRange(h.clock)
  {
    && h.clock.reference.Some? && Step(h.clock, e).reference.Some?
    && LatestTime(Step(h.clock, e)) < LatestTime(h.clock)
  }

  /** It does so exactly if it completes a turn. */
  lemma GoesBackIff(h: History, e: Event)
    requires InRange(h.clock) && h.clock.reference.Some? && OnTimeline(h) && Record(h, e).epoch == h.epoch
    ensures GoesBack(h, e) <==> Turns(h.elapsed) < Turns(Record(h, e).elapsed)
    ensures Turns(h.elapsed) <= Turns(Record(h, e).elapsed)
  {
    var h' := Record(h, e);
    RecordKeepsTimeline(h, e);
    SameReference(h, e);
    LatestTimeIs(h);
    LatestTimeIs(h');
    hide Record, Step, LatestTime;
    TurnsBack(h.elapsed, h'.elapsed);
  }

  /** An event of the epoch lets at most a second elapse. */
  lemma SameReference(h: History, e: Event)
    requires InRange(h.clock) && h.clock.reference.Some? && Record(h, e).epoch == h.epoch
    ensures var h' := Record(h, e);
            && h'.clock == Step(h.clock, e) && h'.clock.reference == h.clock.reference
            && h.elapsed <= h'.elapsed <= h.elapsed + PTS_TICKS_PER_SECOND
  {
  }

  lemma TurnsBack(a: nat, b: nat)
    requires a <= b <= a + PTS_TICKS_PER_SECOND
    ensures Turns(a) <= Turns(b)
    ensures TruncDiv(b - Turns(b) * PTS_DTS_SCALE, 90) < TruncDiv(a - Turns(a) * PTS_DTS_SCALE, 90)
            <==> Turns(a) < Turns(b)
  {
    var m, n := Turns(a), Turns(b);
    assert m * PTS_DTS_SCALE <= a + HALF_SCALE - 1 < (m + 1) * PTS_DTS_SCALE;
    assert n * PTS_DTS_SCALE <= b + HALF_SCALE - 1 < (n + 1) * PTS_DTS_SCALE;
    assert m <= n <= m + 1;
    hide Turns;
    TruncDivOrder(a - m * PTS_DTS_SCALE, b - n * PTS_DTS_SCALE);
  }

  lemma TruncDivOrder(x: int, y: int)
    ensures x <= y ==> TruncDiv(x, 90) <= TruncDiv(y, 90)
    ensures y <= x - 180 ==> TruncDiv(y, 90) < TruncDiv(x, 90)
  {
  }

  /** At some moment of the events from `h` on, the time of the latest PCR goes back. */
  ghost predicate GoesBackWithin(h: History, es: seq<Event>)
    requires InRange(h.clock)
  {
    exists n: nat :: GoesBackAt(h, es, n)
  }

  predicate GoesBackAt(h: History, es: seq<Event>, n: nat)
    requires InRange(h.clock)
  {
    n < |es| && GoesBack(Recorded(h, es[..n]), es[n])
  }

  lemma {:induction false} TurnsBackWithin(h: History, es: seq<Event>)
    requires InRange(h.clock) && h.clock.reference.Some? && OnTimeline(h) && Recorded(h, es).epoch == h.epoch
    ensures OnTimeline(Recorded(h, es)) && Turns(h.elapsed) <= Turns(Recorded(h, es).elapsed)
    ensures GoesBackWithin(h, es) <==> Turns(h.elapsed) < Turns(Recorded(h, es).elapsed)
    decreases |es|
  {
    hide Turns, OnTimeline, GoesBack, Record;
    if es != [] {
      var n := |es| - 1;
      var most, e := es[..n], es[n];
      var now := Recorded(h, most);
      assert Recorded(h, es) == Record(now, e);
      ElapsedGrows(h, most);
      EpochGrows(now, e);
      TurnsBackWithin(h, most);
      GoesBackIff(now, e);
      RecordKeepsTimeline(now, e);
      OneMoreMoment(h, es);
    }
  }

  lemma EpochGrows(h: History, e: Event)
    requires InRange(h.clock)
    ensures h.epoch <= Record(h, e).epoch
  {
  }

  lemma SameMoment(h: History, es: seq<Event>, k: nat)
    requires InRange(h.clock) && es != []
    ensures var n := |es| - 1;
            && (k < n ==> GoesBackAt(h, es[..n], k) == GoesBackAt(h, es, k))
            && (k == n ==> !GoesBackAt(h, es[..n], k) && GoesBackAt(h, es, k) == GoesBack(Recorded(h, es[..n]), es[n]))
            && (k > n ==> !GoesBackAt(h, es[..n], k) && !GoesBackAt(h, es, k))
  {
    hide GoesBack, Recorded;
    assert k < |es| - 1 ==> es[..|es| - 1][..k] == es[..k];
  }

  lemma OneMoreMoment(h: History, es: seq<Event>)
    requires InRange(h.clock) && es != []
    ensures var n := |es| - 1;
            GoesBackWithin(h, es) <==> GoesBackWithin(h, es[..n]) || GoesBack(Recorded(h, es[..n]), es[n])
  {
    hide GoesBack, Recorded, GoesBackAt;
    var n := |es| - 1;
    var most := es[..n];
    forall k: nat
      ensures GoesBackAt(h, es, k) <==> GoesBackAt(h, most, k) || (k == n && GoesBack(Recorded(h, most), es[n]))
    {
      SameMoment(h, es, k);
    }
    assert GoesBack(Recorded(h, most), es[n]) ==> GoesBackAt(h, es, n);
  }

  /** Between the setting of one reference and its end, the time of the latest PCR goes back
      exactly when the time elapsed since passes half the counter's range, and then after
      each further full range. */
  lemma TimeGoesBackIff(es: seq<Event>, more: seq<Event>)
    requires var h := Recorded(UNRECORDED, es);
             h.clock.reference.Some? && Recorded(UNRECORDED, es + more).epoch == h.epoch
    ensures var h := Recorded(UNRECORDED, es);
            GoesBackWithin(h, more) <==> Turns(h.elapsed) < Turns(Recorded(UNRECORDED, es + more).elapsed)
  {
    TimelineHolds(es);
    RecordedSplits(UNRECORDED, es, more);
    TurnsBackWithin(Recorded(UNRECORDED, es), more);
  }

  /** Of any two moments in between without such a turn, the later has no earlier time. */
  lemma LiveTimeNeverGoesBack(es: seq<Event>, more: seq<Event>)
    requires var h, h' := Recorded(UNRECORDED, es), Recorded(UNRECORDED, es + more);
             h.epoch == h'.epoch && Turns(h.elapsed) == Turns(h'.elapsed)
    requires var c, c' := After(es), After(es + more);
             c.reference.Some? && c.suspects == 0 && c'.suspects == 0
    ensures var c, c' := After(es), After(es + more);
            && c.last.Some? && c'.last.Some? && c'.reference == c.reference
            && PtsToUnixMs(c, c.last.value).Some? && PtsToUnixMs(c', c'.last.value).Some?
            && PtsToUnixMs(c, c.last.value).value <= PtsToUnixMs(c', c'.last.value).value
  {
    var h, h' := Recorded(UNRECORDED, es), Recorded(UNRECORDED, es + more);
    RecordedSplits(UNRECORDED, es, more);
    ElapsedGrows(h, more);
    TimelineHolds(es);
    TimelineHolds(es + more);
    hide Recorded, After, PtsToUnixMs, LatestTime, Turns;
    LatestTimeIs(h);
    LatestTimeIs(h');
    var turned := Turns(h.elapsed) * PTS_DTS_SCALE;
    TruncDivOrder(h.elapsed - turned, h'.elapsed - turned);
  }

  /** The PCR packet `k` seconds after the first, which shows 0. */
  function Second(k: nat): Event {
    Packet(TsPacket(0x100, true, 300 * Advance(0, k * PTS_TICKS_PER_SECOND), false))
  }

  /** A PCR a second, for `n` seconds, after one TOT at time 0. */
  function Steady(n: nat): seq<Event> {
    if n == 0 then [PcrPid(0x100), Second(0), Tot(Some(0))] else Steady(n - 1) + [Second(n)]
  }

  lemma {:induction false} SteadyClock(n: nat)
    ensures var h := Recorded(UNRECORDED, Steady(n));
            && h.elapsed == n * PTS_TICKS_PER_SECOND && h.epoch == 2
            && h.clock.reference == Some(ReferencePoint(0, 0)) && h.clock.suspects == 0
            && h.clock.pcrPid == Some(0x100)
    decreases n
  {
    hide Recorded, Record, Second, Steady;
    if n == 0 {
      SteadyStart();
    } else {
      SteadyClock(n - 1);
      TimelineHolds(Steady(n - 1));
      var h := Recorded(UNRECORDED, Steady(n - 1));
      SteadyStep(n);
      NextSecond(h, n);
    }
  }

  lemma SteadyStep(n: nat)
    requires n > 0
    ensures Recorded(UNRECORDED, Steady(n)) == Record(Recorded(UNRECORDED, Steady(n - 1)), Second(n))
  {
    hide Record, Second;
    assert (Steady(n - 1) + [Second(n)])[..|Steady(n - 1)|] == Steady(n - 1);
  }

  lemma SteadyStart()
    ensures var h := Recorded(UNRECORDED, Steady(0));
            && h.elapsed == 0 && h.epoch == 2 && h.clock.suspects == 0
            && h.clock.reference == Some(ReferencePoint(0, 0)) && h.clock.pcrPid == Some(0x100)
  {
    var a, b, c := PcrPid(0x100), Second(0), Tot(Some(0));
    assert [a, b, c][..2] == [a, b] && [a, b][..1] == [a] && [a][..0] == [];
    assert Advance(0, 0) == 0;
    var h := Record(UNRECORDED, a);
    assert Recorded(UNRECORDED, [a]) == h;
    assert Recorded(UNRECORDED, [a, b]) == Record(h, b);
    assert Recorded(UNRECORDED, [a, b, c]) == Record(Record(h, b), c);
  }

  lemma NextSecond(h: History, n: nat)
    requires n > 0 && InRange(h.clock) && OnTimeline(h) && h.elapsed == (n - 1) * PTS_TICKS_PER_SECOND
    requires h.clock.reference == Some(ReferencePoint(0, 0)) && h.clock.suspects == 0 && h.clock.pcrPid == Some(0x100)
    ensures var h' := Record(h, Second(n));
            && h'.elapsed == n * PTS_TICKS_PER_SECOND && h'.epoch == h.epoch
            && h'.clock.reference == h.clock.reference && h'.clock.suspects == 0 && h'.clock.pcrPid == Some(0x100)
  {
    var last, ticks := h.clock.last.value, n * PTS_TICKS_PER_SECOND;
    AdvanceTwice(0, h.elapsed, PTS_TICKS_PER_SECOND);
    DeltaOfAdvance(last, PTS_TICKS_PER_SECOND);
  }

  /** On such a stream the time goes back by more than a day after 47,722 seconds. */
  lemma SteadyTimeGoesBack()
    ensures var before, after := After(Steady(47_721)), After(Steady(47_722));
            && before.last.Some? && PtsToUnixMs(before, before.last.value) == Some(47_721_000)
            && after.last.Some? && PtsToUnixMs(after, after.last.value) == Some(-47_721_717)
  {
    hide Steady, After, PtsToUnixMs;
    SteadyTime(47_721);
    SteadyTime(47_722);
  }

  lemma SteadyTime(n: nat)
    ensures var c := After(Steady(n));
            var elapsed := n * PTS_TICKS_PER_SECOND;
            && c.last.Some?
            && PtsToUnixMs(c, c.last.value) == Some(TruncDiv(elapsed - Turns(elapsed) * PTS_DTS_SCALE, 90))
  {
    SteadyClock(n);
    TimelineHolds(Steady(n));
    hide Recorded, Steady, After;
    LatestTimeIs(Recorded(UNRECORDED, Steady(n)));
  }

  lemma {:induction false} RecordedSplits(h: History, es: seq<Event>, more: seq<Event>)
    requires InRange(h.clock)
    ensures Recorded(h, es + more) == Recorded(Recorded(h, es), more)
    decreases |more|
  {
    if more == [] {
      assert es + more == es;
    } else {
      RecordedSplits(h, es, more[..|more| - 1]);
      assert (es + more)[..|es + more| - 1] == es + more[..|more| - 1];
    }
  }

  // ---------- Suspects ----------

  /** Every suspect sample is half of an inferred discontinuity, was cancelled, or is
      still held; and at most one is held. */
  lemma {:induction false} SuspectsAreAccountedFor(es: seq<Event>)
    ensures var h := Recorded(UNRECORDED, es);
            && h.suspected == 2 * h.inferred + h.cancelled + h.clock.suspects
            && h.clock.suspects <= 1
    decreases |es|
  {
    if es != [] {
      SuspectsAreAccountedFor(es[..|es| - 1]);
    }
  }

  /** An event that neither is a sample on `pid` nor changes the PID. */
  predicate Quiet(pid: Option<Pid>, e: Event) {
    match e
    case PcrPid(p) => p == PID_NULL || pid == Some(p)
    case Packet(p) => !IsOnPid(pid, p)
    case Tot(_) => true
  }

  /** The event at `i` is the first suspect sample of its series, and nothing but quiet
      events follow it. */
  ghost predicate HeldSince(es: seq<Event>, i: nat) {
    && i < |es| && After(es[..i]).suspects == 0 && IsSuspect(After(es[..i]), es[i])
    && forall j | i < j < |es| :: Quiet(After(es[..i]).pcrPid, es[j])
  }

  lemma {:induction false} QuietChangesNothingElse(c: Clock, es: seq<Event>)
    requires InRange(c) && c.suspects == 1 && forall e <- es :: Quiet(c.pcrPid, e)
    ensures Run(c, es) == c
    decreases |es|
  {
    if es != [] {
      var most := es[..|es| - 1];
      assert forall e <- most :: e in es;
      assert es[|es| - 1] in es;
      QuietChangesNothingElse(c, most);
    }
  }

  lemma {:induction false} RunSplits(c: Clock, es: seq<Event>, more: seq<Event>)
    requires InRange(c)
    ensures Run(c, es + more) == Run(Run(c, es), more)
    decreases |more|
  {
    if more == [] {
      assert es + more == es;
    } else {
      RunSplits(c, es, more[..|more| - 1]);
      assert (es + more)[..|es + more| - 1] == es + more[..|more| - 1];
    }
  }

  /** What the clock is while it holds a suspect: what it was before, but for the count. */
  lemma HeldClock(es: seq<Event>, i: nat)
    requires HeldSince(es, i)
    ensures After(es) == After(es[..i]).(suspects := 1)
  {
    var c := After(es[..i]);
    assert es[..i + 1][..i] == es[..i];
    assert After(es[..i + 1]) == Step(c, es[i]) == c.(suspects := 1);
    assert es == es[..i + 1] + es[i + 1..];
    RunSplits(INITIAL, es[..i + 1], es[i + 1..]);
    forall e | e in es[i + 1..] ensures Quiet(c.pcrPid, e) {
      var j :| i + 1 <= j < |es| && e == es[j];
    }
    QuietChangesNothingElse(c.(suspects := 1), es[i + 1..]);
  }

  /** A suspect is held exactly when one sample was out of series and nothing that
      matters to the clock came since. */
  lemma {:induction false} SuspectHeldIff(es: seq<Event>)
    ensures After(es).suspects == 1 <==> exists i: nat :: HeldSince(es, i)
    decreases |es|
  {
    if exists i: nat :: HeldSince(es, i) {
      var i: nat :| HeldSince(es, i);
      HeldClock(es, i);
    } else if es != [] && After(es).suspects == 1 {
      var n := |es| - 1;
      var before, e := After(es[..n]), es[n];
      if before.suspects == 0 {
        assert HeldSince(es, n);
      } else {
        SuspectHeldIff(es[..n]);
        var i: nat :| HeldSince(es[..n], i);
        HeldClock(es[..n], i);
        assert es[..n][..i] == es[..i];
        assert Quiet(before.pcrPid, e);
        assert HeldSince(es, i);
      }
    }
  }

  /** A discontinuity is inferred exactly when a sample is out of series and so was the
      sample before it, both measured against the same accepted PCR. */
  lemma InferredExactlyWhenTwoInARow(es: seq<Event>, p: TsPacket)
    ensures Report(After(es), p) == Some(PcrDiscontinuity(p.pid, false)) <==>
            exists i: nat :: HeldSince(es, i) && IsSuspect(After(es[..i]), Packet(p))
    ensures forall i: nat | HeldSince(es, i) :: After(es).last == After(es[..i]).last
  {
    SuspectHeldIff(es);
    forall i: nat | HeldSince(es, i)
      ensures After(es).last == After(es[..i]).last
      ensures IsSuspect(After(es[..i]), Packet(p)) == IsSuspect(After(es), Packet(p))
    {
      HeldClock(es, i);
    }
  }

  /** While a suspect is held no timestamp converts, nothing has been reported, and no
      TOT moves the reference; and if the next sample is in series again, every
      conversion is what it was before the suspect. */
  lemma LoneSuspectIsRolledBack(es: seq<Event>, i: nat, p: TsPacket)
    requires HeldSince(es, i)
    ensures forall pts: nat :: PtsToUnixMs(After(es), pts).None?
    ensures Report(After(es[..i]), es[i].packet).None?
    ensures Classify(After(es), p) == Classify(After(es[..i]), p)
    ensures Classify(After(es), p).InSeries? ==>
              && Report(After(es), p).None?
              && forall pts: nat :: PtsToUnixMs(After(es + [Packet(p)]), pts) == PtsToUnixMs(After(es[..i]), pts)
  {
    HeldClock(es, i);
    assert (es + [Packet(p)])[..|es|] == es;
  }
}
