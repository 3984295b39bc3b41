/** The target service as a state machine over tables and packets. */
module ServiceModel {
  import opened TransportStream
  import opened CaptionClassification
  import opened EitRecords
  import ClockModel

  const PID_PAT: Pid := 0x0000
  const PID_EIT: Pid := 0x0012
  const PID_TOT: Pid := 0x0014
  const PID_ISDB_EIT_3: Pid := 0x0027

  /** PIDs whose sections are demuxed for good. */
  const RESERVED: set<Pid> := {PID_PAT, PID_EIT, PID_ISDB_EIT_3, PID_TOT}

  /** A table as deserialized. A TOT carries a time if it is valid and its time is. */
  datatype Table =
    | Pat(patValid: bool, pmts: map<nat, Pid>)
    | Pmt(pmtValid: bool, sourcePid: Pid, serviceId: nat, pcrPid: Pid, streams: map<Pid, Stream>)
    | TotTable(unixMs: Option<int>)
    | EitTable(tableValid: bool, tableIdExtension: nat, eit: DeserializedEit)
    | OtherTable

  /** What happens to a dumper: the PCR of a packet is looked at, or a table is complete. */
  datatype Event = OnPacket(packet: ClockModel.TsPacket) | OnTable(table: Table)

  datatype Diagnostic =
    | Discontinuity(discontinuity: ClockModel.PcrDiscontinuity)
    | ReservedPmtPidCollision(pid: Pid)

  /** `eits` are the tables passed on to the EIT emitter. */
  datatype Service = Service(pmtPid: Option<Pid>, profiles: map<Pid, Profile>, clock: ClockModel.Clock,
                             diagnostics: seq<Diagnostic>, eits: seq<DeserializedEit>)

  const START := Service(None, map[], ClockModel.INITIAL, [], [])

  predicate IsSound(s: Service) {
    && (s.pmtPid.Some? ==> s.pmtPid.value !in RESERVED)
    && ClockModel.InRange(s.clock)
  }

  function TornDown(s: Service): Service {
    s.(pmtPid := None, profiles := map[])
  }

  function AfterPat(sid: nat, s: Service, pmts: map<nat, Pid>): Service {
    if sid !in pmts then TornDown(s)
    else
      var pid := pmts[sid];
      if pid in RESERVED then s.(diagnostics := s.diagnostics + [ReservedPmtPidCollision(pid)])
      else if s.pmtPid == Some(pid) then s
      else (if s.pmtPid.Some? then TornDown(s) else s).(pmtPid := Some(pid))
  }

  predicate IsAccepted(sid: nat, e: Event) {
    e.OnTable? && e.table.Pmt? && e.table.pmtValid && e.table.serviceId == sid
  }

  /** A valid EIT of the target service. */
  predicate IsPassedOn(sid: nat, e: Event) {
    && e.OnTable? && e.table.EitTable?
    && e.table.tableValid && e.table.tableIdExtension == sid && e.table.eit.valid
  }

  function Step(sid: nat, s: Service, e: Event): (s': Service)
    requires IsSound(s)
    ensures IsSound(s')
  {
    match e
    case OnPacket(p) =>
      var report := ClockModel.Report(s.clock, p);
      s.(clock := ClockModel.Step(s.clock, ClockModel.Packet(p)),
         diagnostics := if report.Some? then s.diagnostics + [Discontinuity(report.value)] else s.diagnostics)
    case OnTable(table) =>
      match table
      case Pat(valid, pmts) => if valid then AfterPat(sid, s, pmts) else s
      case Pmt(_, sourcePid, _, pcrPid, streams) =>
        if IsAccepted(sid, e) then
          s.(clock := ClockModel.Step(s.clock, ClockModel.PcrPid(pcrPid)), profiles := Desired(sourcePid, streams))
        else s
      case TotTable(unixMs) => s.(clock := ClockModel.Step(s.clock, ClockModel.Tot(unixMs)))
      case EitTable(_, _, eit) => if IsPassedOn(sid, e) then s.(eits := s.eits + [eit]) else s
      case OtherTable => s
  }

  function Run(sid: nat, s: Service, es: seq<Event>): (s': Service)
    requires IsSound(s)
    ensures IsSound(s')
    decreases |es|
  {
    if es == [] then s else Step(sid, Run(sid, s, es[..|es| - 1]), es[|es| - 1])
  }

  function After(sid: nat, es: seq<Event>): (s: Service)
    ensures IsSound(s)
  {
    Run(sid, START, es)
  }

  lemma {:induction false} RunSplits(sid: nat, s: Service, a: seq<Event>, b: seq<Event>)
    requires IsSound(s)
    ensures Run(sid, s, a + b) == Run(sid, Run(sid, s, a), b)
    decreases |b|
  {
    hide Step;
    if b == [] {
      assert a + b == a;
    } else {
      var last := |b| - 1;
      RunSplits(sid, s, a, b[..last]);
      assert (a + b)[..|a + b| - 1] == a + b[..last];
    }
  }

  // ---------- The PMT PID ----------

  /** A PAT that says where the service's PMT is, or that there is none. */
  predicate Locates(sid: nat, e: Event) {
    e.OnTable? && e.table.Pat? && e.table.patValid
    && (sid in e.table.pmts ==> e.table.pmts[sid] !in RESERVED)
  }

  function Location(sid: nat, e: Event): Option<Pid>
    requires Locates(sid, e)
  {
    if sid in e.table.pmts then Some(e.table.pmts[sid]) else None
  }

  /** The event at `i` is the last PAT so far that located the service. */
  ghost predicate IsLastLocation(sid: nat, es: seq<Event>, i: nat) {
    i < |es| && Locates(sid, es[i]) && forall j | i < j < |es| :: !Locates(sid, es[j])
  }

  lemma StepOfPmtPid(sid: nat, es: seq<Event>)
    requires es != []
    ensures var n := |es| - 1;
            After(sid, es).pmtPid == if Locates(sid, es[n]) then Location(sid, es[n]) else After(sid, es[..n]).pmtPid
  {
  }

  /** The PMT PID is where the last PAT that located the service put it; colliding PATs
      are as if they had not been. */
  lemma {:induction false} PmtPidIsFromLastPat(sid: nat, es: seq<Event>)
    ensures forall i: nat | IsLastLocation(sid, es, i) :: After(sid, es).pmtPid == Location(sid, es[i])
    ensures (forall i: nat :: !IsLastLocation(sid, es, i)) ==> After(sid, es).pmtPid == None
    decreases |es|
  {
    if es != [] {
      hide After, Locates;
      var n := |es| - 1;
      var most := es[..n];
      PmtPidIsFromLastPat(sid, most);
      StepOfPmtPid(sid, es);
      if Locates(sid, es[n]) {
        assert IsLastLocation(sid, es, n);
        assert forall i: nat | IsLastLocation(sid, es, i) :: i == n;
      } else {
        assert forall i: nat | i < n :: most[i] == es[i];
        forall i: nat ensures IsLastLocation(sid, es, i) <==> IsLastLocation(sid, most, i) {}
      }
    }
  }

  // ---------- The caption streams ----------

  /** The event at `i` tears the service down: it is off the air, or its PMT moves. */
  predicate TearsDown(sid: nat, es: seq<Event>, i: nat)
    requires i < |es|
  {
    && Locates(sid, es[i])
    && var before, now := After(sid, es[..i]).pmtPid, Location(sid, es[i]);
       now.None? || (before.Some? && before != now)
  }

  /** The event at `i` is the last PMT accepted since the service was last torn down. */
  ghost predicate IsCurrentPmt(sid: nat, es: seq<Event>, i: nat) {
    && i < |es| && IsAccepted(sid, es[i])
    && forall j | i < j < |es| :: !IsAccepted(sid, es[j]) && !TearsDown(sid, es, j)
  }

  lemma StepOfProfiles(sid: nat, es: seq<Event>)
    requires es != []
    ensures var n := |es| - 1;
            After(sid, es).profiles ==
            if TearsDown(sid, es, n) then map[]
            else if IsAccepted(sid, es[n]) then Desired(es[n].table.sourcePid, es[n].table.streams)
            else After(sid, es[..n]).profiles
  {
  }

  lemma CurrentPmtPersists(sid: nat, es: seq<Event>, i: nat)
    requires es != [] && i < |es| - 1
    ensures IsCurrentPmt(sid, es, i) <==>
            && IsCurrentPmt(sid, es[..|es| - 1], i)
            && !IsAccepted(sid, es[|es| - 1]) && !TearsDown(sid, es, |es| - 1)
  {
    var most := es[..|es| - 1];
    forall j | i < j < |most| ensures TearsDown(sid, most, j) == TearsDown(sid, es, j) {
      assert most[..j] == es[..j];
    }
  }

  lemma {:induction false} ProfilesAreDesired(sid: nat, es: seq<Event>)
    ensures forall i: nat | IsCurrentPmt(sid, es, i) ::
              After(sid, es).profiles == Desired(es[i].table.sourcePid, es[i].table.streams)
    ensures (forall i: nat :: !IsCurrentPmt(sid, es, i)) ==> After(sid, es).profiles == map[]
    decreases |es|
  {
    if es != [] {
      var n := |es| - 1;
      ProfilesAreDesired(sid, es[..n]);
      StepOfProfiles(sid, es);
      forall i: nat | i < n
        ensures IsCurrentPmt(sid, es, i) <==>
                IsCurrentPmt(sid, es[..n], i) && !IsAccepted(sid, es[n]) && !TearsDown(sid, es, n)
      {
        CurrentPmtPersists(sid, es, i);
      }
      if !IsAccepted(sid, es[n]) && !TearsDown(sid, es, n) && (forall i: nat :: !IsCurrentPmt(sid, es, i)) {
        forall i: nat ensures !IsCurrentPmt(sid, es[..n], i) {
          if i < n {
            CurrentPmtPersists(sid, es, i);
          }
        }
      } else if IsAccepted(sid, es[n]) {
        assert IsCurrentPmt(sid, es, n);
      }
    }
  }

  /** Over any run, the live caption streams are those of the last PMT accepted since the
      service was torn down; without one there are none. */
  lemma ProfilesAreOfCurrentPmt(sid: nat, es: seq<Event>)
    ensures forall i: nat | IsCurrentPmt(sid, es, i) ::
              AreCaptionsOf(After(sid, es).profiles, es[i].table.sourcePid, es[i].table.streams)
    ensures (forall i: nat :: !IsCurrentPmt(sid, es, i)) ==> After(sid, es).profiles == map[]
  {
    hide After, Desired, AreCaptionsOf;
    ProfilesAreDesired(sid, es);
    forall i: nat | IsCurrentPmt(sid, es, i)
      ensures AreCaptionsOf(After(sid, es).profiles, es[i].table.sourcePid, es[i].table.streams)
    {
      DesiredAreCaptions(es[i].table.sourcePid, es[i].table.streams);
    }
  }

  /** All live caption streams have one profile. */
  lemma OneProfileAtATime(sid: nat, es: seq<Event>)
    ensures var live := After(sid, es).profiles;
            forall p <- live, q <- live :: live[p] == live[q]
  {
    ProfilesAreDesired(sid, es);
    if exists i: nat :: IsCurrentPmt(sid, es, i) {
      var i: nat :| IsCurrentPmt(sid, es, i);
      OneProfilePerPmt(es[i].table.sourcePid, es[i].table.streams);
    }
  }

  /** The current PMT, if any, asks for streams. */
  ghost predicate HasStreams(sid: nat, es: seq<Event>) {
    exists i: nat :: IsCurrentPmt(sid, es, i) && Desired(es[i].table.sourcePid, es[i].table.streams) != map[]
  }

  lemma LiveIffHasStreams(sid: nat, es: seq<Event>)
    ensures After(sid, es).profiles != map[] <==> HasStreams(sid, es)
  {
    hide After, Desired, IsCurrentPmt;
    ProfilesAreDesired(sid, es);
  }

  /** Live streams do not mean that there is a PMT PID, since any PMT of the service is
      accepted whatever PID it is from. There are streams without a PMT PID exactly if the
      current PMT asks for streams and no PAT has located the service, or the last one
      that did says it is off the air. */
  lemma StreamsWithoutPmtPidIff(sid: nat, es: seq<Event>)
    ensures var s := After(sid, es);
            s.profiles != map[] && s.pmtPid == None <==>
              && HasStreams(sid, es)
              && forall j: nat | IsLastLocation(sid, es, j) :: Location(sid, es[j]) == None
  {
    hide After, Desired, HasStreams;
    LiveIffHasStreams(sid, es);
    PmtPidIsFromLastPat(sid, es);
  }

  /** Streams are live only with a PMT PID, and of a PMT received on it, exactly if each
      current PMT that asks for streams came from where the last PAT that located the
      service put it. */
  lemma StreamsAreFromPmtPidIff(sid: nat, es: seq<Event>)
    ensures var s := After(sid, es);
            (s.profiles != map[] ==>
               exists i: nat :: IsCurrentPmt(sid, es, i) && s.pmtPid == Some(es[i].table.sourcePid))
            <==> forall i: nat
                   | IsCurrentPmt(sid, es, i) && Desired(es[i].table.sourcePid, es[i].table.streams) != map[] ::
                   exists j: nat :: IsLastLocation(sid, es, j) && Location(sid, es[j]) == Some(es[i].table.sourcePid)
  {
    hide After, Desired, IsLastLocation, Location;
    LiveIffHasStreams(sid, es);
    PmtPidIsFromLastPat(sid, es);
    forall i: nat, k: nat | IsCurrentPmt(sid, es, i) && IsCurrentPmt(sid, es, k) ensures i == k {}
  }

  /** The section demultiplexer hands over only what comes on a PID it was told of: a
      reserved one, or the PMT PID of the moment. */
  ghost predicate Receivable(sid: nat, es: seq<Event>) {
    forall i | 0 <= i < |es| && IsAccepted(sid, es[i]) ::
      es[i].table.sourcePid in RESERVED || After(sid, es[..i]).pmtPid == Some(es[i].table.sourcePid)
  }

  /** Of such input, live streams are those of a PMT on the PMT PID or on a reserved PID. */
  lemma LiveStreamsAreOfReceivedPmt(sid: nat, es: seq<Event>)
    requires Receivable(sid, es)
    ensures var s := After(sid, es);
            s.profiles != map[] ==>
              exists i: nat :: IsCurrentPmt(sid, es, i)
                               && (es[i].table.sourcePid in RESERVED || s.pmtPid == Some(es[i].table.sourcePid))
  {
    LiveIffHasStreams(sid, es);
    if After(sid, es).profiles != map[] {
      var i: nat :| IsCurrentPmt(sid, es, i);
      hide After, Desired;
      if es[i].table.sourcePid !in RESERVED {
        PidStays(sid, es, i, |es|);
        assert es[..|es|] == es;
      }
      assert IsCurrentPmt(sid, es, i);
    }
  }

  /** From the current PMT on the PMT PID does not change. */
  lemma {:induction false} PidStays(sid: nat, es: seq<Event>, i: nat, n: nat)
    requires IsCurrentPmt(sid, es, i) && i < n <= |es|
    requires After(sid, es[..i]).pmtPid.Some?
    ensures After(sid, es[..n]).pmtPid == After(sid, es[..i]).pmtPid
    decreases n
  {
    assert es[..n][..n - 1] == es[..n - 1] && es[..n][n - 1] == es[n - 1];
    if n > i + 1 {
      PidStays(sid, es, i, n - 1);
      assert !TearsDown(sid, es, n - 1);
    }
    StepOfPmtPid(sid, es[..n]);
  }

  /** A PMT on the EIT's PID, ahead of any PAT, makes a stream live without a PMT PID. */
  lemma StreamsWithoutPmtPid(sid: nat)
    ensures var es := [OnTable(Pmt(true, PID_EIT, sid, 0x100,
                                   map[0x130 := Stream(ST_PES_PRIV, Some(COMPONENT_TAG_DEFAULT_CAPTION), None)]))];
            && Receivable(sid, es)
            && After(sid, es).profiles == map[0x130 := ProfileA] && After(sid, es).pmtPid == None
  {
    var es := [OnTable(Pmt(true, PID_EIT, sid, 0x100,
                           map[0x130 := Stream(ST_PES_PRIV, Some(COMPONENT_TAG_DEFAULT_CAPTION), None)]))];
    assert es[..0] == [];
    assert After(sid, []) == START;
  }

  // ---------- The event information ----------

  /** The valid EITs of the service, in order. */
  function EitsOf(sid: nat, es: seq<Event>): seq<DeserializedEit> {
    if es == [] then []
    else
      var before := EitsOf(sid, es[..|es| - 1]);
      match es[|es| - 1]
      case OnTable(EitTable(valid, tableIdExtension, eit)) =>
        if valid && tableIdExtension == sid && eit.valid then before + [eit] else before
      case _ => before
  }

  lemma {:induction false} EitsArePassedOn(sid: nat, es: seq<Event>)
    ensures After(sid, es).eits == EitsOf(sid, es)
    decreases |es|
  {
    if es != [] {
      EitsArePassedOn(sid, es[..|es| - 1]);
    }
  }

  // ---------- What does not matter ----------

  /** The event may make a difference to the service `sid`. */
  predicate Concerns(sid: nat, e: Event) {
    match e
    case OnPacket(_) => true
    case OnTable(Pat(valid, _)) => valid
    case OnTable(Pmt(valid, _, serviceId, _, _)) => valid && serviceId == sid
    case OnTable(TotTable(unixMs)) => unixMs.Some?
    case OnTable(EitTable(valid, tableIdExtension, eit)) => valid && tableIdExtension == sid && eit.valid
    case OnTable(OtherTable) => false
  }

  function Concerning(sid: nat, es: seq<Event>): seq<Event> {
    if es == [] then []
    else
      var before, e := Concerning(sid, es[..|es| - 1]), es[|es| - 1];
      if Concerns(sid, e) then before + [e] else before
  }

  lemma NothingDone(sid: nat, s: Service, e: Event)
    requires IsSound(s) && !Concerns(sid, e)
    ensures Step(sid, s, e) == s
  {
  }

  /** Invalid tables and those of other services make no difference to anything. */
  lemma {:induction false} OthersMakeNoDifference(sid: nat, s: Service, es: seq<Event>)
    requires IsSound(s)
    ensures Run(sid, s, es) == Run(sid, s, Concerning(sid, es))
    decreases |es|
  {
    hide Step, Concerns, IsSound;
    if es != [] {
      var most, e := es[..|es| - 1], es[|es| - 1];
      OthersMakeNoDifference(sid, s, most);
      if Concerns(sid, e) {
        assert (Concerning(sid, most) + [e])[..|Concerning(sid, most)|] == Concerning(sid, most);
      } else {
        NothingDone(sid, Run(sid, s, most), e);
      }
    }
  }

  // ---------- The clock ----------

  /** What an event is to the program clock. */
  function ClockEvent(sid: nat, e: Event): Option<ClockModel.Event> {
    if e.OnPacket? then Some(ClockModel.Packet(e.packet))
    else if IsAccepted(sid, e) then Some(ClockModel.PcrPid(e.table.pcrPid))
    else if e.table.TotTable? then Some(ClockModel.Tot(e.table.unixMs))
    else None
  }

  function ClockEvents(sid: nat, es: seq<Event>): seq<ClockModel.Event> {
    if es == [] then []
    else
      var before, e := ClockEvents(sid, es[..|es| - 1]), ClockEvent(sid, es[|es| - 1]);
      if e.Some? then before + [e.value] else before
  }

  lemma StepOfClock(sid: nat, s: Service, e: Event)
    requires IsSound(s)
    ensures Step(sid, s, e).clock ==
            match ClockEvent(sid, e) case Some(c) => ClockModel.Step(s.clock, c) case None => s.clock
  {
  }

  /** The service's clock has run on exactly the packets, the accepted PMTs and the TOTs;
      in particular no teardown resets it. */
  lemma {:induction false} ClockRunsOnItsEvents(sid: nat, es: seq<Event>)
    ensures After(sid, es).clock == ClockModel.After(ClockEvents(sid, es))
    decreases |es|
  {
    if es != [] {
      hide Step, ClockEvent, ClockModel.Step;
      var most, e := es[..|es| - 1], es[|es| - 1];
      ClockRunsOnItsEvents(sid, most);
      StepOfClock(sid, After(sid, most), e);
      var before := ClockEvents(sid, most);
      if ClockEvent(sid, e).Some? {
        assert (before + [ClockEvent(sid, e).value])[..|before|] == before;
      }
    }
  }

  /** What an event makes the service report, told from the history alone: the clock's
      report on a packet, or a PAT that puts the PMT on a reserved PID. */
  function DiagnosticOf(sid: nat, before: seq<Event>, e: Event): Option<Diagnostic> {
    if e.OnPacket? then
      var report := ClockModel.Report(ClockModel.After(ClockEvents(sid, before)), e.packet);
      if report.Some? then Some(Discontinuity(report.value)) else None
    else if e.table.Pat? && e.table.patValid && sid in e.table.pmts && e.table.pmts[sid] in RESERVED then
      Some(ReservedPmtPidCollision(e.table.pmts[sid]))
    else None
  }

  function DiagnosticsOf(sid: nat, es: seq<Event>): seq<Diagnostic> {
    if es == [] then []
    else
      var most := es[..|es| - 1];
      var d := DiagnosticOf(sid, most, es[|es| - 1]);
      if d.Some? then DiagnosticsOf(sid, most) + [d.value] else DiagnosticsOf(sid, most)
  }

  lemma StepOfDiagnostics(sid: nat, s: Service, e: Event)
    requires IsSound(s)
    ensures e.OnPacket? ==>
              var report := ClockModel.Report(s.clock, e.packet);
              Step(sid, s, e).diagnostics ==
              if report.Some? then s.diagnostics + [Discontinuity(report.value)] else s.diagnostics
    ensures e.OnTable? ==>
              Step(sid, s, e).diagnostics ==
              if e.table.Pat? && e.table.patValid && sid in e.table.pmts && e.table.pmts[sid] in RESERVED
              then s.diagnostics + [ReservedPmtPidCollision(e.table.pmts[sid])] else s.diagnostics
  {
  }

  /** Over any run, the diagnostics are the clock's reports and the collisions, in order. */
  lemma {:induction false} DiagnosticsAreReportsAndCollisions(sid: nat, es: seq<Event>)
    ensures After(sid, es).diagnostics == DiagnosticsOf(sid, es)
    decreases |es|
  {
    if es != [] {
      hide Step, ClockEvents, ClockModel.After, ClockModel.Report;
      var most, e := es[..|es| - 1], es[|es| - 1];
      DiagnosticsAreReportsAndCollisions(sid, most);
      ClockRunsOnItsEvents(sid, most);
      StepOfDiagnostics(sid, After(sid, most), e);
    }
  }
}
