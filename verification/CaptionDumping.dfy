/** The coordinator of one service: its demultiplexed PIDs, caption emitters and clock. */
module CaptionDumping {
  import opened TransportStream
  import opened CaptionClassification
  import opened ServiceModel
  import opened EitRecords
  import ClockModel
  import ProgramTime

  /** The emitter of one caption stream. Its decoder state makes its identity matter. */
  class CaptionRecordEmitter {
    const profile: Profile

    constructor (profile: Profile)
      ensures this.profile == profile
    {
      this.profile := profile;
    }
  }

  type Emitters = map<Pid, CaptionRecordEmitter>

  function ProfilesOf(emitters: Emitters): map<Pid, Profile> {
    map pid | pid in emitters :: emitters[pid].profile
  }

  /** For the streams in `done`: those of `before` that were to go on with their profile
      have kept their emitters, and the others have got one of `made`. The other streams
      are as they were. */
  ghost predicate Reconciled(before: Emitters, after: Emitters, desired: map<Pid, Profile>, done: set<Pid>,
                             made: set<CaptionRecordEmitter>)
  {
    && after.Keys == before.Keys + done
    && (forall pid <- before :: pid !in done ==> after[pid] == before[pid])
    && forall pid <- done ::
      && pid in desired && after[pid].profile == desired[pid]
      && if pid in before && before[pid].profile == desired[pid] then after[pid] == before[pid]
         else after[pid] in made
  }

  /** The emitters of the streams in `pids`. */
  function Restricted(emitters: Emitters, pids: set<Pid>): Emitters {
    map pid | pid in emitters && pid in pids :: emitters[pid]
  }

  lemma AllRestricted(emitters: Emitters, pids: set<Pid>)
    ensures Restricted(emitters, pids + emitters.Keys) == emitters
  {
  }

  lemma RestrictMore(emitters: Emitters, pids: set<Pid>, todo: set<Pid>, pid: Pid)
    requires pid in todo
    ensures var now := Restricted(emitters, pids + todo);
            Restricted(emitters, pids + (todo - {pid})) == if pid in pids then now else now - {pid}
  {
    assert pid in pids ==> pids + (todo - {pid}) == pids + todo;
  }

  /** A worklist: of `all` streams some are done and the others are to do. */
  ghost predicate Divided(all: set<Pid>, done: set<Pid>, todo: set<Pid>) {
    done + todo == all && done !! todo
  }

  lemma AllToDo(all: set<Pid>)
    ensures Divided(all, {}, all)
  {
  }

  lemma OneMoreDone(all: set<Pid>, done: set<Pid>, todo: set<Pid>, pid: Pid)
    requires Divided(all, done, todo) && pid in todo
    ensures pid in all && pid !in done && Divided(all, done + {pid}, todo - {pid})
  {
  }

  lemma AllDone(all: set<Pid>, done: set<Pid>)
    requires Divided(all, done, {})
    ensures done == all
  {
  }

  lemma NothingReconciled(before: Emitters, desired: map<Pid, Profile>)
    ensures Reconciled(before, before, desired, {}, {})
  {
  }

  lemma ReconciledMore(before: Emitters, after: Emitters, e: CaptionRecordEmitter, desired: map<Pid, Profile>,
                       done: set<Pid>, made: set<CaptionRecordEmitter>, pid: Pid, isNew: bool)
    requires Reconciled(before, after, desired, done, made)
    requires pid in desired && pid !in done && e.profile == desired[pid]
    requires isNew <==> !(pid in after && after[pid].profile == desired[pid])
    requires !isNew ==> e == after[pid]
    ensures Reconciled(before, after[pid := e], desired, done + {pid}, if isNew then made + {e} else made)
  {
  }

  lemma AllReconciled(before: Emitters, after: Emitters, desired: map<Pid, Profile>, made: set<CaptionRecordEmitter>)
    requires Reconciled(before, after, desired, desired.Keys, made) && before.Keys <= desired.Keys
    ensures after.Keys == desired.Keys
  {
  }

  class CaptionDumper {
    const targetSid: nat
    const clock: ProgramTime.ProgramClock
    const eitEmitter: EitRecordEmitter
    /** The PIDs whose sections and whose PES packets are demultiplexed. */
    var sectionPids: set<Pid>
    var pesPids: set<Pid>
    var currentPmtPid: Option<Pid>
    var emitters: Emitters
    /** The diagnostics given to the sink. */
    var diagnostics: seq<Diagnostic>
    /** The tables passed on to the EIT emitter. */
    ghost var eits: seq<DeserializedEit>

    ghost predicate Valid()
      reads this, clock, eitEmitter
    {
      && IsSound(State()) && clock.Valid()
      && eitEmitter.State() == RunTables(eitEmitter.mode, eits)
      && sectionPids == RESERVED + (if currentPmtPid.Some? then {currentPmtPid.value} else {})
      && pesPids == emitters.Keys
    }

    ghost function State(): Service
      reads this, clock
    {
      Service(currentPmtPid, ProfilesOf(emitters), clock.State(), diagnostics, eits)
    }

    constructor (targetSid: nat, eitOutput: EitOutputMode)
      ensures Valid() && fresh(clock) && fresh(eitEmitter)
      ensures this.targetSid == targetSid && eitEmitter.mode == eitOutput && State() == START
      ensures currentPmtPid == None && emitters == map[] && pesPids == {}
      ensures sectionPids == {0x0000, 0x0012, 0x0014, 0x0027}
    {
      this.targetSid := targetSid;
      clock := new ProgramTime.ProgramClock();
      eitEmitter := new EitRecordEmitter(eitOutput);
      sectionPids, pesPids, currentPmtPid := RESERVED, {}, None;
      emitters, diagnostics, eits := map[], [], [];
    }

    /** Whatever has happened, the tables on the fixed PIDs are demultiplexed, and besides
        them only the PMT, on a PID of its own; PES packets are, of exactly the live streams. */
    lemma DemuxedPids()
      requires Valid()
      ensures var fixed := {0x0000, 0x0012, 0x0014, 0x0027};
              match currentPmtPid
              case None => sectionPids == fixed
              case Some(pid) => sectionPids == fixed + {pid} && pid !in fixed
      ensures pesPids == State().profiles.Keys
    {
    }

    /** When the dumper has run over `es`, its EIT output is the selection of the records of
        the valid EITs of the service, without those that repeat the version of the one
        before. */
    lemma EitOutput(es: seq<Event>)
      requires Valid() && State() == After(targetSid, es)
      ensures eitEmitter.emitted == Select(eitEmitter.mode, AllRecords(Fresh(EitsOf(targetSid, es))))
    {
      hide Select, AllRecords, Fresh, EitsOf, RunTables, After;
      EitsArePassedOn(targetSid, es);
      EmitsExactlyFreshTables(eitEmitter.mode, eits);
    }

    method RegisterCaptionStream(pid: Pid, profile: Profile)
      requires pid !in emitters
      modifies this`emitters, this`pesPids
      ensures pesPids == old(pesPids) + {pid}
      ensures emitters.Keys == old(emitters).Keys + {pid}
      ensures emitters - {pid} == old(emitters)
      ensures fresh(emitters[pid]) && emitters[pid].profile == profile
    {
      var emitter := new CaptionRecordEmitter(profile);
      emitters := emitters[pid := emitter];
      pesPids := pesPids + {pid};
    }

    method UnregisterCaptionStream(pid: Pid)
      modifies this`emitters, this`pesPids
      ensures pesPids == old(pesPids) - {pid}
      ensures emitters == old(emitters) - {pid}
    {
      pesPids := pesPids - {pid};
      emitters := emitters - {pid};
    }

    method TeardownTargetService()
      requires Valid()
      modifies this`sectionPids, this`currentPmtPid, this`emitters, this`pesPids
      ensures Valid() && State() == TornDown(old(State())) && emitters == map[]
    {
      if currentPmtPid.Some? {
        sectionPids := sectionPids - {currentPmtPid.value};
        currentPmtPid := None;
      }
      DropAll();
    }

    method DropAll()
      requires pesPids == emitters.Keys
      modifies this`emitters, this`pesPids
      ensures emitters == map[] && pesPids == {}
    {
      while emitters.Keys != {}
        invariant pesPids == emitters.Keys
        decreases |emitters.Keys|
      {
        var pid :| pid in emitters.Keys;
        UnregisterCaptionStream(pid);
      }
    }

    method HandlePat(valid: bool, pmts: map<nat, Pid>)
      requires Valid()
      modifies this`sectionPids, this`currentPmtPid, this`emitters, this`pesPids, this`diagnostics
      ensures Valid() && State() == Step(targetSid, old(State()), OnTable(Pat(valid, pmts)))
      ensures emitters == old(emitters) || emitters == map[]
    {
      if !valid {
        return;
      }
      if targetSid !in pmts {
        TeardownTargetService();
        return;
      }
      var pmtPid := pmts[targetSid];
      if pmtPid in RESERVED {
        diagnostics := diagnostics + [ReservedPmtPidCollision(pmtPid)];
        return;
      }
      if currentPmtPid == Some(pmtPid) {
        return;
      }
      if currentPmtPid.Some? {
        TeardownTargetService();
      }
      currentPmtPid := Some(pmtPid);
      sectionPids := sectionPids + {pmtPid};
    }

    /** The caption streams a PMT asks for. */
    method Classify(pmtPid: Pid, streams: map<Pid, Stream>) returns (desired: map<Pid, Profile>)
      ensures desired == Desired(pmtPid, streams)
    {
      desired := map[];
      var todo := streams.Keys;
      while todo != {}
        invariant todo <= streams.Keys
        invariant desired == map pid | pid in Desired(pmtPid, streams) && pid !in todo :: Desired(pmtPid, streams)[pid]
        decreases |todo|
      {
        var pid :| pid in todo;
        var profile := ClassifyCaptionStream(pmtPid, streams[pid]);
        if profile.Some? {
          desired := desired[pid := profile.value];
        }
        todo := todo - {pid};
      }
    }

    /** Unregisters the streams that are not wanted any more. */
    method DropUnwanted(desired: map<Pid, Profile>)
      requires pesPids == emitters.Keys
      modifies this`emitters, this`pesPids
      ensures pesPids == emitters.Keys
      ensures emitters == Restricted(old(emitters), desired.Keys)
    {
      hide Restricted;
      ghost var start := emitters;
      var todo := emitters.Keys;
      AllRestricted(start, desired.Keys);
      while todo != {}
        invariant pesPids == emitters.Keys && todo <= emitters.Keys
        invariant emitters == Restricted(start, desired.Keys + todo)
        decreases |todo|
      {
        var pid :| pid in todo;
        RestrictMore(start, desired.Keys, todo, pid);
        todo := todo - {pid};
        if pid !in desired {
          UnregisterCaptionStream(pid);
        }
      }
      assert desired.Keys + {} == desired.Keys;
    }

    /** Makes sure that a wanted stream has an emitter with the wanted profile, and tells
        whether it is a new one. */
    method EnsureRegistered(pid: Pid, profile: Profile) returns (ghost isNew: bool)
      requires pesPids == emitters.Keys
      modifies this`emitters, this`pesPids
      ensures pesPids == emitters.Keys == old(emitters).Keys + {pid}
      ensures emitters == old(emitters)[pid := emitters[pid]] && emitters[pid].profile == profile
      ensures isNew <==> !(pid in old(emitters) && old(emitters)[pid].profile == profile)
      ensures if isNew then fresh(emitters[pid]) else emitters[pid] == old(emitters)[pid]
    {
      isNew := true;
      if pid !in emitters {
        RegisterCaptionStream(pid, profile);
      } else if emitters[pid].profile != profile {
        UnregisterCaptionStream(pid);
        RegisterCaptionStream(pid, profile);
      } else {
        isNew := false;
      }
    }

    /** Makes sure that all wanted streams have their emitters; `made` are the new ones. */
    method RegisterWanted(desired: map<Pid, Profile>) returns (ghost made: set<CaptionRecordEmitter>)
      requires pesPids == emitters.Keys <= desired.Keys
      modifies this`emitters, this`pesPids
      ensures pesPids == emitters.Keys == desired.Keys
      ensures fresh(made) && Reconciled(old(emitters), emitters, desired, desired.Keys, made)
    {
      hide Reconciled, Divided;
      ghost var start, done := emitters, {};
      var todo := desired.Keys;
      made := {};
      AllToDo(todo);
      NothingReconciled(emitters, desired);
      while todo != {}
        invariant Divided(desired.Keys, done, todo) && fresh(made)
        invariant pesPids == emitters.Keys
        invariant Reconciled(start, emitters, desired, done, made)
        decreases |todo|
      {
        var pid :| pid in todo;
        OneMoreDone(desired.Keys, done, todo, pid);
        todo := todo - {pid};
        ghost var before := emitters;
        var isNew := EnsureRegistered(pid, desired[pid]);
        ReconciledMore(start, before, emitters[pid], desired, done, made, pid, isNew);
        made := if isNew then made + {emitters[pid]} else made;
        done := done + {pid};
      }
      AllDone(desired.Keys, done);
      AllReconciled(start, emitters, desired, made);
    }

    /** Reconciles the emitters with a PMT. An emitter whose stream goes on with the same
        profile is left alone; every other emitter afterwards is a new one. */
    method SyncCaptionStreams(pmtPid: Pid, streams: map<Pid, Stream>)
      requires pesPids == emitters.Keys
      modifies this`emitters, this`pesPids
      ensures pesPids == emitters.Keys
      ensures ProfilesOf(emitters) == Desired(pmtPid, streams)
      ensures AreCaptionsOf(ProfilesOf(emitters), pmtPid, streams)
      ensures forall pid <- emitters ::
                if pid in old(emitters) && old(emitters)[pid].profile == emitters[pid].profile
                then emitters[pid] == old(emitters)[pid]
                else fresh(emitters[pid])
    {
      hide AreCaptionsOf;
      DesiredAreCaptions(pmtPid, streams);
      var desired := Classify(pmtPid, streams);
      DropUnwanted(desired);
      ghost var kept := emitters;
      var made := RegisterWanted(desired);
      assert forall pid <- emitters :: pid in kept <==> pid in old(emitters);
    }

    method HandlePmt(valid: bool, sourcePid: Pid, serviceId: nat, pcrPid: Pid, streams: map<Pid, Stream>)
      requires Valid()
      modifies this`emitters, this`pesPids, clock
      ensures Valid()
      ensures State() == Step(targetSid, old(State()), OnTable(Pmt(valid, sourcePid, serviceId, pcrPid, streams)))
      ensures if valid && serviceId == targetSid then
                && AreCaptionsOf(ProfilesOf(emitters), sourcePid, streams)
                && clock.events == old(clock.events) + [ClockModel.PcrPid(pcrPid)]
              else State() == old(State()) && emitters == old(emitters)
      ensures forall pid <- emitters ::
                if pid in old(emitters) && old(emitters)[pid].profile == emitters[pid].profile
                then emitters[pid] == old(emitters)[pid]
                else fresh(emitters[pid])
    {
      hide AreCaptionsOf;
      if !valid || serviceId != targetSid {
        return;
      }
      clock.SetPcrPid(pcrPid);
      SyncCaptionStreams(sourcePid, streams);
    }

    method HandleTot(unixMs: Option<int>)
      requires Valid()
      modifies clock
      ensures Valid() && State() == Step(targetSid, old(State()), OnTable(TotTable(unixMs)))
    {
      clock.UpdateReferencePointFromTot(unixMs);
    }

    method HandleEit(tableValid: bool, tableIdExtension: nat, eit: DeserializedEit)
      requires Valid()
      modifies this`eits, eitEmitter
      ensures Valid() && State() == Step(targetSid, old(State()), OnTable(EitTable(tableValid, tableIdExtension, eit)))
      ensures eits == if tableValid && tableIdExtension == targetSid && eit.valid then old(eits) + [eit] else old(eits)
    {
      if !tableValid || tableIdExtension != targetSid {
        return;
      }
      if !eit.valid {
        return;
      }
      hide AfterTable;
      eitEmitter.HandleEit(eit);
      RunOneMore(eitEmitter.mode, eits, eit);
      eits := eits + [eit];
    }

    /** An emitter whose stream goes on with its profile stays the same object. */
    method HandleTable(table: Table)
      requires Valid()
      modifies this, clock, eitEmitter
      ensures Valid() && State() == Step(targetSid, old(State()), OnTable(table))
      ensures forall pid <- emitters ::
                if pid in old(emitters) && old(emitters)[pid].profile == emitters[pid].profile
                then emitters[pid] == old(emitters)[pid]
                else fresh(emitters[pid])
    {
      match table
      case Pat(valid, pmts) => HandlePat(valid, pmts);
      case Pmt(valid, sourcePid, serviceId, pcrPid, streams) =>
        HandlePmt(valid, sourcePid, serviceId, pcrPid, streams);
      case TotTable(unixMs) => HandleTot(unixMs);
      case EitTable(valid, tableIdExtension, eit) => HandleEit(valid, tableIdExtension, eit);
      case OtherTable =>
    }

    /** Records the packet's PCR, and reports a discontinuity. */
    method RecordPcr(packet: ClockModel.TsPacket)
      requires Valid()
      modifies this`diagnostics, clock
      ensures Valid() && State() == Step(targetSid, old(State()), OnPacket(packet))
    {
      var report := clock.RecordPcr(packet);
      if report.Some? {
        diagnostics := diagnostics + [Discontinuity(report.value)];
      }
    }

    /** Handles the table of event `n`, when since `s` the earlier events have been handled
        and the emitters were `before`. */
    method HandleNext(table: Table, ghost s: Service, ghost es: seq<Event>, ghost n: nat, ghost before: Emitters,
                      ghost made: set<CaptionRecordEmitter>)
      returns (ghost news: set<CaptionRecordEmitter>)
      requires Valid() && IsSound(s) && n < |es| && es[n] == OnTable(table)
      requires State() == Run(targetSid, s, es[..n]) && Continued(targetSid, s, es, n, before, emitters, made)
      modifies this, clock, eitEmitter
      ensures Valid() && State() == Run(targetSid, s, es[..n + 1]) && fresh(news)
      ensures Continued(targetSid, s, es, n + 1, before, emitters, made + news)
    {
      hide Valid, Run, Step, Continued;
      ghost var was := emitters;
      HandleTable(table);
      news := NewEmitters(was, emitters);
      RunOneMoreEvent(targetSid, s, es, n);
      ContinuedMore(targetSid, s, es, n, before, was, emitters, made);
    }

    /** Handles the tables of all events but the first, which has been handled. */
    method HandleTables(tables: seq<Table>, ghost s: Service, ghost es: seq<Event>, ghost before: Emitters)
      returns (ghost made: set<CaptionRecordEmitter>)
      requires Valid() && IsSound(s) && |es| == |tables| + 1
      requires forall i | 0 <= i < |tables| :: es[i + 1] == OnTable(tables[i])
      requires State() == Run(targetSid, s, es[..1]) && Continued(targetSid, s, es, 1, before, emitters, {})
      modifies this, clock, eitEmitter
      ensures Valid() && State() == Run(targetSid, s, es[..|tables| + 1]) && fresh(made)
      ensures Continued(targetSid, s, es, |tables| + 1, before, emitters, made)
    {
      hide Valid, Run, Continued, IsSound, State;
      made := {};
      for i := 0 to |tables|
        invariant Valid() && State() == Run(targetSid, s, es[..i + 1]) && fresh(made)
        invariant Continued(targetSid, s, es, i + 1, before, emitters, made)
      {
        var news := HandleNext(tables[i], s, es, i + 1, before, made);
        made := made + news;
      }
    }

    /** Takes a packet; `tables` are those that the section demultiplexer completes with
        it. Tells whether the packet went on to the PES demultiplexer.

        An emitter whose stream has kept its profile through all that happened is the same
        object as before, every other one is new. */
    method FeedPacket(packet: ClockModel.TsPacket, hasValidSync: bool, tables: seq<Table>)
      returns (toPes: bool, ghost made: set<CaptionRecordEmitter>)
      requires Valid()
      modifies this, clock, eitEmitter
      ensures Valid()
      ensures State() == Run(targetSid, old(State()), EventsOf(packet, hasValidSync, tables))
      ensures toPes <==> hasValidSync && packet.pid in State().profiles
      ensures !hasValidSync ==> State() == old(State()) && emitters == old(emitters)
      ensures fresh(made)
      ensures ContinuedOver(targetSid, old(State()), EventsOf(packet, hasValidSync, tables),
                            old(emitters), emitters, made)
    {
      ghost var start, before, events := State(), emitters, EventsOf(packet, hasValidSync, tables);
      assert IsSound(start) && ProfilesOf(before) == start.profiles;
      hide Valid, Run, EventsOf, Step, Continued, IsSound, State;
      made := {};
      if !hasValidSync {
        NoEvents(targetSid, start, packet, tables, before);
        return false, made;
      }
      RecordPcr(packet);
      FirstEvent(targetSid, start, packet, tables, before);
      made := HandleTables(tables, start, events, before);
      assert events[..|events|] == events;
      return PesHas(packet.pid), made;
    }

    /** Takes packet `n` of the inputs, when since `s` the earlier ones have been fed and the
        emitters were `before`. */
    method FeedNext(input: Input, ghost s: Service, ghost inputs: seq<Input>, ghost n: nat, ghost before: Emitters,
                    toPes: seq<bool>, ghost made: set<CaptionRecordEmitter>)
      returns (now: seq<bool>, ghost news: set<CaptionRecordEmitter>)
      requires Valid() && IsSound(s) && n < |inputs| && input == inputs[n]
      requires Fed(targetSid, s, inputs, n, State(), before, emitters, made, toPes)
      modifies this, clock, eitEmitter
      ensures Valid() && fresh(news)
      ensures Fed(targetSid, s, inputs, n + 1, State(), before, emitters, made + news, now)
    {
      ghost var start, was := State(), emitters;
      assert IsSound(start);
      hide Valid, Run, EventsOf, AllEvents, IsSound, State, ContinuedOver, Fed;
      var passed;
      passed, news := FeedPacket(input.packet, input.hasValidSync, input.tables);
      now := toPes + [passed];
      FedOneMore(targetSid, s, inputs, n, start, State(), before, was, emitters, made, news, toPes, passed);
    }

    /** Takes packets, one after the other. Tells which of them went on.

        Over all of them, as over one, an emitter is the same object as before exactly if
        its stream has kept its profile. */
    method FeedPackets(inputs: seq<Input>) returns (toPes: seq<bool>, ghost made: set<CaptionRecordEmitter>)
      requires Valid()
      modifies this, clock, eitEmitter
      ensures Valid() && fresh(made)
      ensures Fed(targetSid, old(State()), inputs, |inputs|, State(), old(emitters), emitters, made, toPes)
    {
      ghost var start, before := State(), emitters;
      NothingFed(targetSid, start, inputs, before);
      hide Valid, IsSound, State, Fed;
      toPes, made := [], {};
      for i := 0 to |inputs|
        invariant Valid() && fresh(made)
        invariant Fed(targetSid, start, inputs, i, State(), before, emitters, made, toPes)
      {
        ghost var news;
        toPes, news := FeedNext(inputs[i], start, inputs, i, before, toPes, made);
        made := made + news;
      }
    }

    function PesHas(pid: Pid): (r: bool)
      requires Valid()
      reads this, clock, eitEmitter
      ensures r <==> pid in State().profiles
    {
      pid in pesPids
    }
  }

  /** A packet, and the tables that are complete with it. */
  datatype Input = Input(packet: ClockModel.TsPacket, hasValidSync: bool, tables: seq<Table>)

  /** What a packet makes happen; one without a valid sync byte is ignored. */
  function EventsOf(packet: ClockModel.TsPacket, hasValidSync: bool, tables: seq<Table>): (events: seq<Event>)
    ensures !hasValidSync ==> events == []
    ensures hasValidSync ==> |events| == |tables| + 1 && events[0] == OnPacket(packet)
    ensures hasValidSync ==> forall i | 0 <= i < |tables| :: events[i + 1] == OnTable(tables[i])
  {
    if !hasValidSync then []
    else [OnPacket(packet)] + seq(|tables|, i requires 0 <= i < |tables| => OnTable(tables[i]))
  }

  function AllEvents(inputs: seq<Input>): seq<Event> {
    if inputs == [] then []
    else
      var last := inputs[|inputs| - 1];
      AllEvents(inputs[..|inputs| - 1]) + EventsOf(last.packet, last.hasValidSync, last.tables)
  }

  lemma OneMoreInput(inputs: seq<Input>, i: nat)
    requires i < |inputs|
    ensures var input := inputs[i];
            AllEvents(inputs[..i + 1])
            == AllEvents(inputs[..i]) + EventsOf(input.packet, input.hasValidSync, input.tables)
  {
    hide EventsOf;
    assert inputs[..i + 1][..i] == inputs[..i];
  }

  /** The packet of input `i` goes on: its PID has a live stream once its tables are handled. */
  predicate PassesOn(sid: nat, s: Service, inputs: seq<Input>, i: nat)
    requires IsSound(s) && i < |inputs|
  {
    inputs[i].hasValidSync && inputs[i].packet.pid in Run(sid, s, AllEvents(inputs[..i + 1])).profiles
  }

  /** What feeding the first `n` inputs does to a dumper that was in state `s`. */
  ghost predicate Fed(sid: nat, s: Service, inputs: seq<Input>, n: nat, now: Service, before: Emitters,
                      after: Emitters, made: set<CaptionRecordEmitter>, toPes: seq<bool>)
    requires IsSound(s) && n <= |inputs|
  {
    && now == Run(sid, s, AllEvents(inputs[..n]))
    && ContinuedOver(sid, s, AllEvents(inputs[..n]), before, after, made)
    && |toPes| == n && forall k | 0 <= k < n :: toPes[k] <==> PassesOn(sid, s, inputs, k)
  }

  lemma NothingFed(sid: nat, s: Service, inputs: seq<Input>, emitters: Emitters)
    requires IsSound(s) && ProfilesOf(emitters) == s.profiles
    ensures Fed(sid, s, inputs, 0, s, emitters, emitters, {}, [])
  {
    hide ContinuedOver;
    NothingContinued(sid, s, emitters);
    assert inputs[..0] == [];
  }

  lemma FedOneMore(sid: nat, s: Service, inputs: seq<Input>, n: nat, start: Service, now: Service, before: Emitters,
                   was: Emitters, after: Emitters, made: set<CaptionRecordEmitter>, news: set<CaptionRecordEmitter>,
                   toPes: seq<bool>, passed: bool)
    requires IsSound(s) && n < |inputs| && Fed(sid, s, inputs, n, start, before, was, made, toPes) && IsSound(start)
    requires var input := inputs[n];
             var es := EventsOf(input.packet, input.hasValidSync, input.tables);
             && now == Run(sid, start, es) && ContinuedOver(sid, start, es, was, after, news)
             && (passed <==> input.hasValidSync && input.packet.pid in now.profiles)
    ensures Fed(sid, s, inputs, n + 1, now, before, after, made + news, toPes + [passed])
  {
    hide Run, EventsOf, AllEvents, ContinuedOver, IsSound;
    var es := EventsOf(inputs[n].packet, inputs[n].hasValidSync, inputs[n].tables);
    OneMoreInput(inputs, n);
    RunSplits(sid, s, AllEvents(inputs[..n]), es);
    ContinuedChain(sid, s, AllEvents(inputs[..n]), es, before, was, after, made, news);
    assert PassesOn(sid, s, inputs, n) == passed;
  }

  /** Runs a new dumper over a whole input.

      Its state is that of the service after all that happened, so all that is known of such
      runs holds of it. The EIT output in particular is the selection of the records of the
      valid EITs of the service, without those that repeat the version of the one before. */
  method Dump(targetSid: nat, eitOutput: EitOutputMode, inputs: seq<Input>)
    returns (dumper: CaptionDumper, toPes: seq<bool>)
    ensures fresh(dumper) && dumper.Valid() && dumper.targetSid == targetSid
    ensures dumper.State() == After(targetSid, AllEvents(inputs))
    ensures dumper.eitEmitter.emitted
            == Select(eitOutput, AllRecords(Fresh(EitsOf(targetSid, AllEvents(inputs)))))
    ensures |toPes| == |inputs|
    ensures forall i | 0 <= i < |inputs| :: toPes[i] <==> PassesOn(targetSid, START, inputs, i)
  {
    hide Run, AllEvents, Select, AllRecords, Fresh, EitsOf;
    dumper := new CaptionDumper(targetSid, eitOutput);
    ghost var made;
    toPes, made := dumper.FeedPackets(inputs);
    assert inputs[..|inputs|] == inputs;
    dumper.EitOutput(AllEvents(inputs));
  }

  predicate HasProfile(s: Service, pid: Pid, profile: Profile) {
    pid in s.profiles && s.profiles[pid] == profile
  }

  /** The stream at `pid` is live with this profile before the first `n` of the events and
      after each of them. */
  ghost predicate KeepsProfile(sid: nat, s: Service, es: seq<Event>, n: nat, pid: Pid, profile: Profile)
    requires IsSound(s) && n <= |es|
  {
    forall k: nat | k <= n :: HasProfile(Run(sid, s, es[..k]), pid, profile)
  }

  /** Over the first `n` events, exactly the emitters of the streams that kept their
      profile have stayed; the others are in `made`. */
  ghost predicate Continued(sid: nat, s: Service, es: seq<Event>, n: nat, before: Emitters, after: Emitters,
                            made: set<CaptionRecordEmitter>)
    requires IsSound(s) && n <= |es|
  {
    forall pid <- after ::
      if KeepsProfile(sid, s, es, n, pid, after[pid].profile) then pid in before && after[pid] == before[pid]
      else after[pid] in made
  }

  ghost predicate ContinuedOver(sid: nat, s: Service, es: seq<Event>, before: Emitters, after: Emitters,
                                made: set<CaptionRecordEmitter>)
    requires IsSound(s)
  {
    Continued(sid, s, es, |es|, before, after, made)
  }

  lemma NothingContinued(sid: nat, s: Service, emitters: Emitters)
    requires IsSound(s) && ProfilesOf(emitters) == s.profiles
    ensures Run(sid, s, AllEvents([])) == s && ContinuedOver(sid, s, AllEvents([]), emitters, emitters, {})
  {
    assert [][..0] == AllEvents([]);
    forall pid <- emitters ensures KeepsProfile(sid, s, [], 0, pid, emitters[pid].profile) {
      InProfiles(emitters, pid, emitters[pid].profile, s);
    }
  }

  lemma NoEvents(sid: nat, s: Service, packet: ClockModel.TsPacket, tables: seq<Table>, emitters: Emitters)
    requires IsSound(s) && ProfilesOf(emitters) == s.profiles
    ensures var es := EventsOf(packet, false, tables);
            Run(sid, s, es) == s && ContinuedOver(sid, s, es, emitters, emitters, {})
  {
    NothingContinued(sid, s, emitters);
  }

  lemma RunsInto(sid: nat, s: Service, a: seq<Event>, b: seq<Event>, k: nat)
    requires IsSound(s) && k <= |b|
    ensures Run(sid, s, (a + b)[..|a| + k]) == Run(sid, Run(sid, s, a), b[..k])
  {
    hide Run;
    assert (a + b)[..|a| + k] == a + b[..k];
    RunSplits(sid, s, a, b[..k]);
  }

  lemma KeepsBoth(sid: nat, s: Service, a: seq<Event>, b: seq<Event>, pid: Pid, profile: Profile)
    requires IsSound(s) && KeepsProfile(sid, s, a + b, |a + b|, pid, profile)
    ensures KeepsProfile(sid, s, a, |a|, pid, profile)
    ensures KeepsProfile(sid, Run(sid, s, a), b, |b|, pid, profile)
  {
    hide Run, HasProfile;
    forall k: nat | k <= |a| ensures HasProfile(Run(sid, s, a[..k]), pid, profile) {
      assert (a + b)[..k] == a[..k];
    }
    forall k: nat | k <= |b| ensures HasProfile(Run(sid, Run(sid, s, a), b[..k]), pid, profile) {
      RunsInto(sid, s, a, b, k);
    }
  }

  lemma KeepsOn(sid: nat, s: Service, a: seq<Event>, b: seq<Event>, pid: Pid, profile: Profile)
    requires IsSound(s) && KeepsProfile(sid, s, a, |a|, pid, profile)
    requires KeepsProfile(sid, Run(sid, s, a), b, |b|, pid, profile)
    ensures KeepsProfile(sid, s, a + b, |a + b|, pid, profile)
  {
    hide Run, HasProfile;
    forall k: nat | k <= |a + b| ensures HasProfile(Run(sid, s, (a + b)[..k]), pid, profile) {
      if k <= |a| {
        assert (a + b)[..k] == a[..k];
      } else {
        RunsInto(sid, s, a, b, k - |a|);
      }
    }
  }

  /** What goes on over one run and then over another goes on over both. */
  lemma ContinuedChain(sid: nat, s: Service, a: seq<Event>, b: seq<Event>, before: Emitters, was: Emitters,
                       after: Emitters, m1: set<CaptionRecordEmitter>, m2: set<CaptionRecordEmitter>)
    requires IsSound(s) && ContinuedOver(sid, s, a, before, was, m1)
    requires ContinuedOver(sid, Run(sid, s, a), b, was, after, m2)
    ensures ContinuedOver(sid, s, a + b, before, after, m1 + m2)
  {
    hide Run, KeepsProfile;
    forall pid <- after
      ensures KeepsProfile(sid, s, a + b, |a + b|, pid, after[pid].profile)
              <==> && KeepsProfile(sid, s, a, |a|, pid, after[pid].profile)
                   && KeepsProfile(sid, Run(sid, s, a), b, |b|, pid, after[pid].profile)
    {
      var profile := after[pid].profile;
      if KeepsProfile(sid, s, a + b, |a + b|, pid, profile) {
        KeepsBoth(sid, s, a, b, pid, profile);
      } else if KeepsProfile(sid, s, a, |a|, pid, profile) && KeepsProfile(sid, Run(sid, s, a), b, |b|, pid, profile) {
        KeepsOn(sid, s, a, b, pid, profile);
      }
    }
  }

  /** The emitters that do not go on from before with their profile. */
  ghost function NewEmitters(before: Emitters, after: Emitters): set<CaptionRecordEmitter> {
    set pid | pid in after && !(pid in before && before[pid].profile == after[pid].profile) :: after[pid]
  }

  lemma RunOneMoreEvent(sid: nat, s: Service, es: seq<Event>, n: nat)
    requires IsSound(s) && n < |es|
    ensures Run(sid, s, es[..n + 1]) == Step(sid, Run(sid, s, es[..n]), es[n])
  {
    assert es[..n + 1][..n] == es[..n] && es[..n + 1][n] == es[n];
  }

  lemma ContinuedMore(sid: nat, s: Service, es: seq<Event>, n: nat, before: Emitters, was: Emitters, after: Emitters,
                      made: set<CaptionRecordEmitter>)
    requires IsSound(s) && n < |es| && Continued(sid, s, es, n, before, was, made)
    requires ProfilesOf(was) == Run(sid, s, es[..n]).profiles && ProfilesOf(after) == Run(sid, s, es[..n + 1]).profiles
    requires forall pid <- after | pid in was && was[pid].profile == after[pid].profile :: after[pid] == was[pid]
    ensures Continued(sid, s, es, n + 1, before, after, made + NewEmitters(was, after))
  {
    hide Run;
    forall pid <- after
      ensures KeepsProfile(sid, s, es, n + 1, pid, after[pid].profile) <==>
              && KeepsProfile(sid, s, es, n, pid, after[pid].profile)
              && pid in was && was[pid].profile == after[pid].profile
    {
      OneMoreEvent(sid, s, es, n, pid, after[pid].profile);
      InProfiles(was, pid, after[pid].profile, Run(sid, s, es[..n]));
      InProfiles(after, pid, after[pid].profile, Run(sid, s, es[..n + 1]));
    }
  }

  lemma InProfiles(emitters: Emitters, pid: Pid, profile: Profile, s: Service)
    requires ProfilesOf(emitters) == s.profiles
    ensures HasProfile(s, pid, profile) <==> pid in emitters && emitters[pid].profile == profile
  {
  }

  lemma OneMoreEvent(sid: nat, s: Service, es: seq<Event>, n: nat, pid: Pid, profile: Profile)
    requires IsSound(s) && n < |es|
    ensures KeepsProfile(sid, s, es, n + 1, pid, profile)
            <==> KeepsProfile(sid, s, es, n, pid, profile) && HasProfile(Run(sid, s, es[..n + 1]), pid, profile)
    ensures KeepsProfile(sid, s, es, n, pid, profile) ==> HasProfile(Run(sid, s, es[..n]), pid, profile)
  {
    hide Run, HasProfile;
  }

  /** The packet's own event leaves all streams as they are. */
  lemma FirstEvent(sid: nat, s: Service, packet: ClockModel.TsPacket, tables: seq<Table>, emitters: Emitters)
    requires IsSound(s) && ProfilesOf(emitters) == s.profiles
    ensures var events := EventsOf(packet, true, tables);
            && Run(sid, s, events[..1]) == Step(sid, s, OnPacket(packet))
            && Continued(sid, s, events, 1, emitters, emitters, {})
  {
    var events := EventsOf(packet, true, tables);
    assert events[..0] == [] && Run(sid, s, []) == s;
    RunOneMoreEvent(sid, s, events, 0);
    var after := Step(sid, s, OnPacket(packet));
    assert after.profiles == s.profiles;
    hide Run, Step;
    forall pid <- emitters ensures KeepsProfile(sid, s, events, 1, pid, emitters[pid].profile) {
      InProfiles(emitters, pid, emitters[pid].profile, s);
      InProfiles(emitters, pid, emitters[pid].profile, after);
    }
  }
}
