/** The program clock, which tracks the PCR and converts timestamps to Unix time. */
module ProgramTime {
  import opened TransportStream
  import opened TimestampArithmetic
  import opened ClockModel
  import opened ClockHistory

  class ProgramClock {
    var pcrPid: Option<Pid>
    var lastPcr: Option<int>
    var reference: Option<ReferencePoint>
    var suspectCount: nat

    /** All that has happened to the clock. */
    ghost var events: seq<Event>

    /** The state of the clock as a value. */
    function State(): Clock
      reads this
    {
      Clock(pcrPid, lastPcr, reference, suspectCount)
    }

    ghost predicate Valid()
      reads this
    {
      State() == After(events)
    }

    /** The fields are what the history calls for. */
    ghost predicate KnowsHistory()
      reads this
    {
      && KnowsPid(events, pcrPid) && KnowsLast(events, lastPcr) && KnowsReference(events, reference)
      && suspectCount == if SuspectHeld(events) then 1 else 0
    }

    lemma ValidMeansByHistory()
      requires Valid()
      ensures KnowsHistory()
    {
      hide After, KnowsPid, KnowsLast, KnowsReference, SuspectHeld;
      PidIsLastNamed(events);
      LastIsLastKept(events);
      ReferenceIsLastAnchor(events);
      SuspectIsLastSample(events);
    }

    ghost method Happened(e: Event)
      requires State() == Step(After(events), e)
      modifies this`events
      ensures Valid() && events == old(events) + [e] && KnowsHistory()
    {
      hide Step, KnowsHistory;
      AfterOneMore(events, e);
      events := events + [e];
      ValidMeansByHistory();
    }

    constructor ()
      ensures Valid() && State() == INITIAL && events == []
    {
      pcrPid, lastPcr, reference, suspectCount := None, None, None, 0;
      events := [];
    }

    method SetPcrPid(pid: Pid)
      requires Valid()
      modifies this
      ensures Valid() && State() == Step(old(State()), PcrPid(pid))
      ensures events == old(events) + [PcrPid(pid)] && KnowsHistory()
    {
      hide KnowsHistory;
      TakePcrPid(pid);
      Happened(PcrPid(pid));
    }

    method TakePcrPid(pid: Pid)
      modifies this`pcrPid, this`lastPcr, this`reference, this`suspectCount
      ensures State() == AfterPid(old(State()), pid)
    {
      if pid == PID_NULL {
        return;
      }
      if pcrPid == Some(pid) {
        return;
      }
      pcrPid := Some(pid);
      lastPcr := None;
      reference := None;
      ClearSuspect();
    }

    method ClearSuspect()
      modifies this`suspectCount
      ensures suspectCount == 0
    {
      suspectCount := 0;
    }

    /** Takes up a new PCR series; the old mapping to wall-clock time is void. */
    method AdoptNewPcrSeries(pcr: int)
      modifies this`lastPcr, this`reference, this`suspectCount
      ensures State() == NewSeries(old(State()), pcr)
    {
      lastPcr := Some(pcr);
      reference := None;
      ClearSuspect();
    }

    method HandleSuspectPcrDiscontinuity(pcr: int) returns (r: Option<PcrDiscontinuity>)
      requires pcrPid.Some?
      modifies this`lastPcr, this`reference, this`suspectCount
      ensures var c := old(State()).(suspects := old(suspectCount) + 1);
              if c.suspects >= SUSPECT_PCR_CONFIRM_COUNT then
                State() == NewSeries(c, pcr) && r == Some(PcrDiscontinuity(pcrPid.value, false))
              else
                State() == c && r == None
    {
      suspectCount := suspectCount + 1;
      if suspectCount >= SUSPECT_PCR_CONFIRM_COUNT {
        AdoptNewPcrSeries(pcr);
        return Some(PcrDiscontinuity(pcrPid.value, false));
      }
      return None;
    }

    /** Takes a packet's PCR, and reports a discontinuity of the series: a flagged one, or one
        that the second suspect sample confirms. */
    method RecordPcr(packet: TsPacket) returns (r: Option<PcrDiscontinuity>)
      requires Valid()
      modifies this
      ensures Valid() && State() == Step(old(State()), Packet(packet))
      ensures events == old(events) + [Packet(packet)] && KnowsHistory()
      ensures r == Report(old(State()), packet) == Reported(events)
    {
      hide KnowsHistory, Reported;
      r := TakePacket(packet);
      Happened(Packet(packet));
      assert events[..|events| - 1] == old(events);
      ReportsBreaks(events);
    }

    method TakePacket(packet: TsPacket) returns (r: Option<PcrDiscontinuity>)
      requires InRange(State())
      modifies this`lastPcr, this`reference, this`suspectCount
      ensures State() == AfterPacket(old(State()), packet)
      ensures r == Report(old(State()), packet)
    {
      if pcrPid == None || packet.pid != pcrPid.value || !packet.hasPcr {
        return None;
      }
      if packet.pcr == INVALID_PCR || packet.pcr > MAX_PCR {
        return None;
      }
      var pcr := packet.pcr / PCR_TICKS_PER_PTS_TICK;
      if packet.discontinuity {
        AdoptNewPcrSeries(pcr);
        return Some(PcrDiscontinuity(pcrPid.value, true));
      }
      if lastPcr == None {
        lastPcr := Some(pcr);
        ClearSuspect();
        return None;
      }
      var delta := WrapAwareDelta90k(lastPcr.value, pcr);
      if IsSanePcrDelta(delta) {
        lastPcr := Some(pcr);
        ClearSuspect();
        return None;
      }
      r := HandleSuspectPcrDiscontinuity(pcr);
    }

    /** Anchors wall-clock time at the latest accepted PCR. The argument is the time a
        valid TOT carries. */
    method UpdateReferencePointFromTot(unixMs: Option<int>)
      requires Valid()
      modifies this`reference, this`events
      ensures Valid() && State() == Step(old(State()), Tot(unixMs))
      ensures events == old(events) + [Tot(unixMs)] && KnowsHistory()
    {
      hide KnowsHistory;
      TakeTot(unixMs);
      Happened(Tot(unixMs));
    }

    method TakeTot(unixMs: Option<int>)
      modifies this`reference
      ensures State() == AfterTot(old(State()), unixMs)
    {
      if unixMs == None {
        return;
      }
      if lastPcr == None || suspectCount > 0 {
        return;
      }
      reference := Some(ReferencePoint(lastPcr.value, unixMs.value));
    }

    /** The Unix time of a 90 kHz timestamp, if the clock can tell it. */
    method ToUnixMs(pts: nat) returns (ms: Option<int>)
      requires Valid()
      ensures ms == PtsToUnixMs(State(), pts)
      ensures ConvertsTo(events, pts, ms)
    {
      hide ConvertsTo, After;
      ConvertsByHistory(events, pts);
      if reference == None || suspectCount > 0 || pts > MAX_PTS_DTS {
        return None;
      }
      var delta := WrapAwareDelta90k(reference.value.pcr, pts);
      var offset := TruncDiv(delta * MILLIS_PER_SECOND, PTS_TICKS_PER_SECOND);
      return Some(reference.value.unixMs + offset);
    }
  }
}
