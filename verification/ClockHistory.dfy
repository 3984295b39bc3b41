/** What the program clock knows, told from its history: which PCR it keeps, which TOT
    anchors it, what it reports and what it converts, by the events themselves. */
module ClockHistory {
  import opened TransportStream
  import opened TimestampArithmetic
  import opened ClockModel

  // ---------- The events that matter ----------

  /** A PCR PID is named. */
  predicate Names(e: Event) {
    e.PcrPid? && e.pid != PID_NULL
  }

  ghost predicate IsLastName(es: seq<Event>, i: nat) {
    i < |es| && Names(es[i]) && forall j | i < j < |es| :: !Names(es[j])
  }

  /** The event at `i` names another PCR PID than before. */
  predicate Retunes(es: seq<Event>, i: nat)
    requires i < |es|
  {
    Names(es[i]) && After(es[..i]).pcrPid != Some(es[i].pid)
  }

  /** The event at `i` is a packet with a usable PCR on the PCR PID. */
  predicate IsSample(es: seq<Event>, i: nat)
    requires i < |es|
  {
    && es[i].Packet? && After(es[..i]).pcrPid == Some(es[i].packet.pid)
    && es[i].packet.hasPcr && es[i].packet.pcr <= MAX_PCR
  }

  /** The counter, going on for at most a second from `last`, comes to show the PCR. */
  ghost predicate GoesOn(last: int, pcr: nat) {
    exists ticks: nat :: ticks <= 90_000 && Advance(last, ticks) == pcr / 300
  }

  /** The sample at `i` does not go on from the PCR kept so far, and is not flagged. */
  ghost predicate IsOff(es: seq<Event>, i: nat)
    requires i < |es| && es[i].Packet?
  {
    var last := After(es[..i]).last;
    last.Some? && !es[i].packet.discontinuity && !GoesOn(last.value, es[i].packet.pcr)
  }

  /** The sample at `i` is held as suspect. */
  ghost predicate IsHeld(es: seq<Event>, i: nat)
    requires i < |es|
  {
    IsSample(es, i) && IsOff(es, i) && After(es[..i]).suspects == 0
  }

  /** The sample at `i` starts a new series: by its flag, or by confirming a suspect. */
  ghost predicate Breaks(es: seq<Event>, i: nat)
    requires i < |es|
  {
    IsSample(es, i) && (es[i].packet.discontinuity || (IsOff(es, i) && After(es[..i]).suspects > 0))
  }

  /** The sample at `i` is kept. */
  ghost predicate IsKept(es: seq<Event>, i: nat)
    requires i < |es|
  {
    IsSample(es, i) && !IsHeld(es, i)
  }

  ghost predicate IsLastKept(es: seq<Event>, i: nat) {
    i < |es| && IsKept(es, i) && forall j | i < j < |es| :: !IsKept(es, j) && !Retunes(es, j)
  }

  /** The suspect at `i` is still held: neither a sample nor another PID came since. */
  ghost predicate IsStillHeld(es: seq<Event>, i: nat) {
    i < |es| && IsHeld(es, i) && forall j | i < j < |es| :: !IsSample(es, j) && !Retunes(es, j)
  }

  /** The TOT at `i` carries a time, while a PCR is kept and no suspect is held. */
  predicate Anchors(es: seq<Event>, i: nat)
    requires i < |es|
  {
    es[i].Tot? && es[i].unixMs.Some? && After(es[..i]).last.Some? && After(es[..i]).suspects == 0
  }

  /** It is the last such TOT, and the series has gone on since. */
  ghost predicate IsAnchor(es: seq<Event>, i: nat) {
    && i < |es| && Anchors(es, i)
    && forall j | i < j < |es| :: !Anchors(es, j) && !Retunes(es, j) && !Breaks(es, j)
  }

  lemma AfterOneMore(es: seq<Event>, e: Event)
    ensures After(es + [e]) == Step(After(es), e)
  {
    assert (es + [e])[..|es|] == es;
  }

  // ---------- The state by the history ----------

  ghost predicate KnowsPid(es: seq<Event>, pid: Option<Pid>) {
    && (forall i: nat | IsLastName(es, i) :: pid == Some(es[i].pid))
    && ((forall i: nat :: !IsLastName(es, i)) ==> pid == None)
  }

  ghost predicate KnowsLast(es: seq<Event>, last: Option<int>) {
    && (forall i: nat | IsLastKept(es, i) :: last == Some(es[i].packet.pcr / 300))
    && ((forall i: nat :: !IsLastKept(es, i)) ==> last == None)
  }

  ghost predicate KnowsReference(es: seq<Event>, reference: Option<ReferencePoint>) {
    && (forall i: nat | IsAnchor(es, i) ::
          reference == Some(ReferencePoint(After(es[..i]).last.value, es[i].unixMs.value)))
    && ((forall i: nat :: !IsAnchor(es, i)) ==> reference == None)
  }

  ghost predicate SuspectHeld(es: seq<Event>) {
    exists i: nat :: IsStillHeld(es, i)
  }

  /** The PCR PID is the last one named. */
  lemma {:induction false} PidIsLastNamed(es: seq<Event>)
    ensures KnowsPid(es, After(es).pcrPid)
    decreases |es|
  {
    if es != [] {
      hide After;
      var n := |es| - 1;
      var most := es[..n];
      PidIsLastNamed(most);
      StepOfPid(es);
      if Names(es[n]) {
        assert IsLastName(es, n);
        forall i: nat | IsLastName(es, i) ensures i == n {}
      } else {
        forall i: nat ensures IsLastName(es, i) <==> IsLastName(most, i) {
          NameStays(es, i);
        }
      }
    }
  }

  lemma StepOfPid(es: seq<Event>)
    requires es != []
    ensures var n := |es| - 1;
            After(es).pcrPid == if Names(es[n]) then Some(es[n].pid) else After(es[..n]).pcrPid
  {
  }

  lemma NameStays(es: seq<Event>, i: nat)
    requires es != [] && !Names(es[|es| - 1])
    ensures IsLastName(es, i) <==> IsLastName(es[..|es| - 1], i)
  {
    var most := es[..|es| - 1];
    assert forall j | 0 <= j < |most| :: most[j] == es[j];
  }

  /** What an event is does not depend on those after it. */
  lemma SameBefore(es: seq<Event>, j: nat)
    requires es != [] && j < |es| - 1
    ensures var most := es[..|es| - 1];
            && most[j] == es[j]
            && Retunes(most, j) == Retunes(es, j) && IsSample(most, j) == IsSample(es, j)
            && IsHeld(most, j) == IsHeld(es, j) && IsKept(most, j) == IsKept(es, j)
            && Anchors(most, j) == Anchors(es, j) && Breaks(most, j) == Breaks(es, j)
  {
    hide After, GoesOn, Names;
    assert es[..|es| - 1][..j] == es[..j];
  }

  /** What the clock makes of its last event, by what that event is. */
  lemma LastEvent(es: seq<Event>)
    requires es != []
    ensures var n := |es| - 1;
            var before, now := After(es[..n]), After(es);
            && now.last == (if Retunes(es, n) then None
                            else if IsKept(es, n) then Some(es[n].packet.pcr / 300)
                            else before.last)
            && now.suspects == (if Retunes(es, n) || IsKept(es, n) then 0
                                else if IsHeld(es, n) then 1
                                else before.suspects)
            && now.reference == (if Retunes(es, n) || Breaks(es, n) then None
                                 else if Anchors(es, n) then Some(ReferencePoint(before.last.value, es[n].unixMs.value))
                                 else before.reference)
            && (es[n].Packet? ==>
                  Report(before, es[n].packet) ==
                  if Breaks(es, n) then Some(PcrDiscontinuity(es[n].packet.pid, es[n].packet.discontinuity)) else None)
  {
    var n := |es| - 1;
    var before, e := After(es[..n]), es[n];
    assert After(es) == Step(before, e);
    hide After;
    if e.Packet? && IsOnPid(before.pcrPid, e.packet) && before.last.Some? && !e.packet.discontinuity {
      InSeriesIff(before, e.packet);
    }
  }

  lemma OneKind(es: seq<Event>, n: nat)
    requires n < |es|
    ensures Retunes(es, n) ==> !IsSample(es, n) && !Anchors(es, n)
    ensures IsSample(es, n) ==> !Anchors(es, n)
    ensures IsSample(es, n) <==> IsKept(es, n) || IsHeld(es, n)
    ensures IsKept(es, n) ==> !IsHeld(es, n)
    ensures Breaks(es, n) ==> IsKept(es, n)
  {
    hide After, GoesOn;
  }

  /** The PCR kept is that of the last sample on the PCR PID, since that PID was named, that
      is not held as suspect. */
  lemma {:induction false} LastIsLastKept(es: seq<Event>)
    ensures KnowsLast(es, After(es).last)
    decreases |es|
  {
    if es != [] {
      hide After, IsKept, Retunes, Anchors, Breaks, IsHeld, IsSample, IsLastKept;
      var n := |es| - 1;
      var most := es[..n];
      LastIsLastKept(most);
      LastEvent(es);
      OneKind(es, n);
      forall i: nat
        ensures IsLastKept(es, i) <==> if i == n then IsKept(es, n)
                                       else IsLastKept(most, i) && !IsKept(es, n) && !Retunes(es, n)
        ensures IsLastKept(es, i) && i != n ==> i < n && most[i] == es[i]
      {
        KeptStays(es, i);
      }
      assert IsLastKept(es, n) == IsKept(es, n);
    }
  }

  lemma KeptStays(es: seq<Event>, i: nat)
    requires es != []
    ensures var n := |es| - 1;
            IsLastKept(es, i) <==> if i == n then IsKept(es, n)
                                   else IsLastKept(es[..n], i) && !IsKept(es, n) && !Retunes(es, n)
    ensures IsLastKept(es, i) ==> i < |es|
  {
    hide IsKept, Retunes;
    var n := |es| - 1;
    forall j: nat | j < n ensures IsKept(es[..n], j) == IsKept(es, j) && Retunes(es[..n], j) == Retunes(es, j) {
      SameBefore(es, j);
    }
  }

  /** A suspect is held exactly if the last sample on the PCR PID was off, and held. */
  lemma {:induction false} SuspectIsLastSample(es: seq<Event>)
    ensures After(es).suspects == if SuspectHeld(es) then 1 else 0
    decreases |es|
  {
    if es == [] {
      assert !SuspectHeld(es);
    } else {
      hide After, IsKept, Retunes, Anchors, Breaks, IsHeld, IsSample, IsStillHeld;
      var n := |es| - 1;
      var most := es[..n];
      SuspectIsLastSample(most);
      LastEvent(es);
      OneKind(es, n);
      forall i: nat
        ensures IsStillHeld(es, i) <==> if i == n then IsHeld(es, n)
                                        else IsStillHeld(most, i) && !IsSample(es, n) && !Retunes(es, n)
      {
        HeldStays(es, i);
      }
      assert IsStillHeld(es, n) == IsHeld(es, n);
    }
  }

  lemma HeldStays(es: seq<Event>, i: nat)
    requires es != []
    ensures var n := |es| - 1;
            IsStillHeld(es, i) <==> if i == n then IsHeld(es, n)
                                    else IsStillHeld(es[..n], i) && !IsSample(es, n) && !Retunes(es, n)
  {
    hide IsHeld, IsSample, Retunes;
    var n := |es| - 1;
    forall j: nat | j < n
      ensures IsHeld(es[..n], j) == IsHeld(es, j) && IsSample(es[..n], j) == IsSample(es, j)
      ensures Retunes(es[..n], j) == Retunes(es, j)
    {
      SameBefore(es, j);
    }
  }

  /** The reference is what the last anchoring TOT made it: its own time, at the PCR that was
      kept when it came. Another PID or a discontinuity since leaves none. */
  lemma {:induction false} ReferenceIsLastAnchor(es: seq<Event>)
    ensures KnowsReference(es, After(es).reference)
    decreases |es|
  {
    if es != [] {
      hide After, IsKept, Retunes, Anchors, Breaks, IsHeld, IsSample, IsAnchor;
      var n := |es| - 1;
      var most := es[..n];
      ReferenceIsLastAnchor(most);
      LastEvent(es);
      OneKind(es, n);
      forall i: nat
        ensures IsAnchor(es, i) <==>
                if i == n then Anchors(es, n)
                else IsAnchor(most, i) && !Anchors(es, n) && !Retunes(es, n) && !Breaks(es, n)
        ensures IsAnchor(es, i) && i != n ==> i < n && most[i] == es[i] && most[..i] == es[..i]
      {
        AnchorStays(es, i);
      }
      assert IsAnchor(es, n) == Anchors(es, n);
    }
  }

  lemma AnchorStays(es: seq<Event>, i: nat)
    requires es != []
    ensures var n := |es| - 1;
            IsAnchor(es, i) <==> if i == n then Anchors(es, n)
                                 else IsAnchor(es[..n], i) && !Anchors(es, n) && !Retunes(es, n) && !Breaks(es, n)
    ensures IsAnchor(es, i) && i != |es| - 1 ==> es[..|es| - 1][..i] == es[..i]
  {
    hide Anchors, Breaks, Retunes;
    var n := |es| - 1;
    forall j: nat | j < n
      ensures Anchors(es[..n], j) == Anchors(es, j) && Breaks(es[..n], j) == Breaks(es, j)
      ensures Retunes(es[..n], j) == Retunes(es, j)
    {
      SameBefore(es, j);
    }
  }

  // ---------- Reports and conversions by the history ----------

  /** What is to be reported of the last event, a packet. */
  ghost function Reported(es: seq<Event>): Option<PcrDiscontinuity>
    requires es != [] && es[|es| - 1].Packet?
  {
    var n := |es| - 1;
    if Breaks(es, n) then Some(PcrDiscontinuity(es[n].packet.pid, es[n].packet.discontinuity)) else None
  }

  /** A packet is reported exactly if it starts a new series: always if it is flagged. */
  lemma ReportsBreaks(es: seq<Event>)
    requires es != [] && es[|es| - 1].Packet?
    ensures Report(After(es[..|es| - 1]), es[|es| - 1].packet) == Reported(es)
  {
    hide After, Report, Breaks;
    LastEvent(es);
  }

  /** The offset in ms is a ninetieth of `ticks`, less what is lost by rounding to zero. */
  predicate IsOffset(ms: int, ticks: int) {
    if ticks >= 0 then 0 <= ticks - 90 * ms < 90 else -90 < ticks - 90 * ms <= 0
  }

  /** A timestamp converts if it is in range, no suspect is held and a TOT anchors the
      series: to the TOT's own time and the distance from the PCR kept when it came. */
  ghost predicate ConvertsTo(es: seq<Event>, pts: nat, ms: Option<int>) {
    if pts > MAX_PTS_DTS || SuspectHeld(es) || (forall i: nat :: !IsAnchor(es, i)) then ms == None
    else
      && ms.Some?
      && forall i: nat, d: int | IsAnchor(es, i) && IsDistance(After(es[..i]).last.value, pts, d) ::
           IsOffset(ms.value - es[i].unixMs.value, d)
  }

  /** `d` is the way from `from` to `to`, at most half around the counter. */
  predicate IsDistance(from: int, to: int, d: int) {
    -HALF_SCALE < d <= HALF_SCALE && Advance(from, d) == to
  }

  lemma ConvertsByHistory(es: seq<Event>, pts: nat)
    ensures ConvertsTo(es, pts, PtsToUnixMs(After(es), pts))
  {
    hide After, IsAnchor, SuspectHeld, PtsToUnixMs;
    SuspectIsLastSample(es);
    ReferenceIsLastAnchor(es);
    var c := After(es);
    ConvertsIff(c, pts);
    forall i: nat, d: int | IsAnchor(es, i) && c.reference.Some? && c.suspects == 0
                            && IsDistance(c.reference.value.pcr, pts, d)
      ensures PtsToUnixMs(c, pts).Some? && IsOffset(PtsToUnixMs(c, pts).value - c.reference.value.unixMs, d)
    {
      OffsetOf(c, pts, d);
    }
  }

  lemma ConvertsIff(c: Clock, pts: nat)
    requires InRange(c)
    ensures PtsToUnixMs(c, pts).Some? <==> c.reference.Some? && c.suspects == 0 && pts <= MAX_PTS_DTS
  {
  }

  lemma OffsetOf(c: Clock, pts: nat, d: int)
    requires InRange(c) && c.reference.Some? && c.suspects == 0 && IsDistance(c.reference.value.pcr, pts, d)
    ensures PtsToUnixMs(c, pts).Some? && IsOffset(PtsToUnixMs(c, pts).value - c.reference.value.unixMs, d)
  {
    ConversionIsExact(c, d);
    DeltaToMsIsExact(d);
  }

  /** The history leaves no choice. */
  lemma ConversionIsDetermined(es: seq<Event>, pts: nat, a: Option<int>, b: Option<int>)
    requires ConvertsTo(es, pts, a) && ConvertsTo(es, pts, b)
    ensures a == b
  {
    if i: nat :| IsAnchor(es, i) && pts <= MAX_PTS_DTS && !SuspectHeld(es) {
      AnchorHasPcr(es, i);
      hide After, SuspectHeld;
      var from := After(es[..i]).last.value;
      var d := WrapAwareDelta90k(from, pts);
      AdvanceByDelta(from, 0, pts);
      assert Advance(from, 0) == from;
      WrapAwareDeltaIsNearest(from, pts, d);
      assert IsDistance(from, pts, d);
    }
  }

  lemma AnchorHasPcr(es: seq<Event>, i: nat)
    requires IsAnchor(es, i)
    ensures i < |es| && After(es[..i]).last.Some? && IsPts(After(es[..i]).last.value)
  {
  }
}
