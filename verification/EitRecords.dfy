/** Event records from EIT present/following tables, and their emission. */
module EitRecords {
  import opened TransportStream
  import opened ExtendedText

  datatype EitSection = Present | Following

  datatype EitOutputMode = PresentOnly | FollowingOnly | PresentAndFollowing

  /** An event of a table as decoded; `startTimeMs` is absent if the time is undefined. */
  datatype EitEvent = EitEvent(eventId: nat, startTimeMs: Option<int>, durationSec: int, descriptors: seq<Descriptor>)

  datatype DeserializedEit = DeserializedEit(
    valid: bool, serviceId: nat, tsId: nat, networkId: nat, events: seq<EitEvent>,
    version: nat, presentSectionHasEvent: bool)

  datatype EitRecord = EitRecord(
    section: EitSection, eventId: nat, version: nat, serviceId: nat, tsId: nat, networkId: nat,
    startTimeMs: Option<int>, durationSec: Option<nat>, text: ParsedEventText)

  /** What the descriptors of an event say of it. */
  datatype ParsedEventText = ParsedEventText(
    genres: seq<EitGenre>, shortEvents: seq<EitShortEvent>, extendedText: string)

  const MAX_DURATION := 0xFFFF_FFFF

  function ShortEventOf(d: Descriptor): seq<EitShortEvent> {
    if d.ShortEvent? && d.valid then [d.event] else []
  }

  function ShortEventsOf(descriptors: seq<Descriptor>): seq<EitShortEvent> {
    if descriptors == [] then [] else ShortEventOf(descriptors[0]) + ShortEventsOf(descriptors[1..])
  }

  function GenreOf(d: Descriptor): seq<EitGenre> {
    if d.Content? && d.valid then d.genres else []
  }

  function GenresOf(descriptors: seq<Descriptor>): seq<EitGenre> {
    if descriptors == [] then [] else GenreOf(descriptors[0]) + GenresOf(descriptors[1..])
  }

  /** The short events, genres and extended text of a list of descriptors, each in the
      order of the list. */
  function EventText(descriptors: seq<Descriptor>): ParsedEventText {
    ParsedEventText(GenresOf(descriptors), ShortEventsOf(descriptors), DescriptorsText(descriptors))
  }

  /** Short events and genres of a list of descriptors are those of its parts, in order. */
  lemma {:induction false} DescriptorsJoin(a: seq<Descriptor>, b: seq<Descriptor>)
    ensures ShortEventsOf(a + b) == ShortEventsOf(a) + ShortEventsOf(b)
    ensures GenresOf(a + b) == GenresOf(a) + GenresOf(b)
    decreases |b|
  {
    hide ShortEventsOf, GenresOf, ShortEventOf, GenreOf;
    NothingParsed();
    if b == [] {
      assert a + b == a && ShortEventsOf(a) + [] == ShortEventsOf(a) && GenresOf(a) + [] == GenresOf(a);
    } else {
      var most, d := b[..|b| - 1], b[|b| - 1];
      assert b == most + [d] && a + b == a + most + [d];
      DescriptorsJoin(a, most);
      DescriptorsGrow(a + most, d);
      DescriptorsGrow(most, d);
      assert ShortEventsOf(a) + (ShortEventsOf(most) + ShortEventOf(d))
             == ShortEventsOf(a) + ShortEventsOf(most) + ShortEventOf(d);
      assert GenresOf(a) + (GenresOf(most) + GenreOf(d)) == GenresOf(a) + GenresOf(most) + GenreOf(d);
    }
  }

  /** What one descriptor, wherever it stands, gives to what is parsed: a valid one of its
      kind all it has, any other nothing. */
  lemma OneDescriptor(a: seq<Descriptor>, d: Descriptor, b: seq<Descriptor>)
    ensures ShortEventsOf(a + [d] + b) ==
            if d.ShortEvent? && d.valid then ShortEventsOf(a) + [d.event] + ShortEventsOf(b) else ShortEventsOf(a + b)
    ensures GenresOf(a + [d] + b) ==
            if d.Content? && d.valid then GenresOf(a) + d.genres + GenresOf(b) else GenresOf(a + b)
    ensures DescriptorsText(a + [d] + b) ==
            if d.ExtendedEvent? && d.valid
            then TextOf(Merge(AllEntries(a) + d.entries + AllEntries(b)), AllText(a) + d.text + AllText(b))
            else DescriptorsText(a + b)
  {
    hide ShortEventsOf, GenresOf, Merge, TextOf, AllEntries, AllText;
    DescriptorsJoin(a + [d], b);
    DescriptorsJoin(a, b);
    DescriptorsGrow(a, d);
    assert ShortEventsOf(a) + [] == ShortEventsOf(a) && GenresOf(a) + [] == GenresOf(a);
    OneExtended(a, d, b);
  }

  lemma {:induction false} DescriptorsGrow(descriptors: seq<Descriptor>, d: Descriptor)
    ensures ShortEventsOf(descriptors + [d]) == ShortEventsOf(descriptors) + ShortEventOf(d)
    ensures GenresOf(descriptors + [d]) == GenresOf(descriptors) + GenreOf(d)
    decreases |descriptors|
  {
    hide ShortEventOf, GenreOf;
    if descriptors == [] {
      assert [d][1..] == [] && [] + [d] == [d];
      assert ShortEventOf(d) + [] == [] + ShortEventOf(d) && GenreOf(d) + [] == [] + GenreOf(d);
    } else {
      var first, rest := descriptors[0], descriptors[1..];
      assert (descriptors + [d])[0] == first && (descriptors + [d])[1..] == rest + [d];
      DescriptorsGrow(rest, d);
      assert ShortEventOf(first) + (ShortEventsOf(rest) + ShortEventOf(d))
             == ShortEventsOf(descriptors) + ShortEventOf(d);
      assert GenreOf(first) + (GenresOf(rest) + GenreOf(d)) == GenresOf(descriptors) + GenreOf(d);
    }
  }

  method ParseShortEvents(descriptors: seq<Descriptor>) returns (shortEvents: seq<EitShortEvent>)
    ensures shortEvents == ShortEventsOf(descriptors)
  {
    hide ShortEventsOf;
    shortEvents := [];
    NothingParsed();
    for i := 0 to |descriptors|
      invariant shortEvents == ShortEventsOf(descriptors[..i])
    {
      DescriptorsGrow(descriptors[..i], descriptors[i]);
      assert descriptors[..i + 1] == descriptors[..i] + [descriptors[i]];
      if descriptors[i].ShortEvent? && descriptors[i].valid {
        shortEvents := shortEvents + [descriptors[i].event];
      } else {
        assert shortEvents + [] == shortEvents;
      }
    }
    assert descriptors[..|descriptors|] == descriptors;
  }

  method ParseGenres(descriptors: seq<Descriptor>) returns (genres: seq<EitGenre>)
    ensures genres == GenresOf(descriptors)
  {
    hide GenresOf;
    genres := [];
    NothingParsed();
    for i := 0 to |descriptors|
      invariant genres == GenresOf(descriptors[..i])
    {
      DescriptorsGrow(descriptors[..i], descriptors[i]);
      assert descriptors[..i + 1] == descriptors[..i] + [descriptors[i]];
      if descriptors[i].Content? && descriptors[i].valid {
        genres := PushGenres(genres, descriptors[i].genres);
      } else {
        assert genres + [] == genres;
      }
    }
    assert descriptors[..|descriptors|] == descriptors;
  }

  lemma NothingParsed()
    ensures ShortEventsOf([]) == [] && GenresOf([]) == []
  {
  }

  method PushGenres(genres: seq<EitGenre>, entries: seq<EitGenre>) returns (all: seq<EitGenre>)
    ensures all == genres + entries
  {
    all := genres;
    for k := 0 to |entries|
      invariant all == genres + entries[..k]
    {
      all := all + [entries[k]];
    }
  }

  method ParseDescriptors(descriptors: seq<Descriptor>) returns (out: ParsedEventText)
    ensures out == EventText(descriptors)
  {
    var shortEvents := ParseShortEvents(descriptors);
    var genres := ParseGenres(descriptors);
    var text := ParseExtendedEvents(descriptors);
    return ParsedEventText(genres, shortEvents, text);
  }

  function GetSectionKind(index: nat, presentSectionHasEvent: bool): EitSection {
    if presentSectionHasEvent && index == 0 then Present else Following
  }

  /** The record of event `i` of a table. */
  function RecordOf(eit: DeserializedEit, i: nat): EitRecord
    requires i < |eit.events|
  {
    var e := eit.events[i];
    EitRecord(GetSectionKind(i, eit.presentSectionHasEvent), e.eventId, eit.version,
              eit.serviceId, eit.tsId, eit.networkId, e.startTimeMs,
              if 0 <= e.durationSec <= MAX_DURATION then Some(e.durationSec) else None,
              EventText(e.descriptors))
  }

  /** The records of a table: of its first two events, if it is valid. */
  function RecordsOf(eit: DeserializedEit): seq<EitRecord> {
    if !eit.valid then []
    else
      var n := if |eit.events| < 2 then |eit.events| else 2;
      seq(n, i requires 0 <= i < n => RecordOf(eit, i))
  }

  /** The record tells of event `i` of the table: what the event says, and which table and
      section it is from. */
  ghost predicate Tells(r: EitRecord, eit: DeserializedEit, i: nat)
    requires i < |eit.events|
  {
    var e := eit.events[i];
    && r.eventId == e.eventId && r.startTimeMs == e.startTimeMs
    && (match r.durationSec
        case Some(duration) => duration == e.durationSec && duration < 0x1_0000_0000
        case None => e.durationSec < 0 || e.durationSec >= 0x1_0000_0000)
    && r.text.shortEvents == ShortEventsOf(e.descriptors) && r.text.genres == GenresOf(e.descriptors)
    && r.text.extendedText == DescriptorsText(e.descriptors)
    && r.version == eit.version
    && r.serviceId == eit.serviceId && r.tsId == eit.tsId && r.networkId == eit.networkId
    && (r.section == Present <==> i == 0 && eit.presentSectionHasEvent)
  }

  /** `records` tell of the first two events of a valid table, of as many as there are. */
  ghost predicate AreRecordsOf(records: seq<EitRecord>, eit: DeserializedEit) {
    && |records| == (if !eit.valid then 0 else if |eit.events| > 2 then 2 else |eit.events|)
    && forall i | 0 <= i < |records| :: Tells(records[i], eit, i)
  }

  lemma RecordsTell(eit: DeserializedEit)
    ensures AreRecordsOf(RecordsOf(eit), eit)
  {
    hide ShortEventsOf, GenresOf, DescriptorsText;
  }

  /** What is to be told leaves no choice. */
  lemma RecordsAreDetermined(eit: DeserializedEit, a: seq<EitRecord>, b: seq<EitRecord>)
    requires AreRecordsOf(a, eit) && AreRecordsOf(b, eit)
    ensures a == b
  {
    hide ShortEventsOf, GenresOf, DescriptorsText;
    forall i | 0 <= i < |a| ensures a[i] == b[i] {
      assert Tells(a[i], eit, i) && Tells(b[i], eit, i);
    }
  }

  method ParseEit(eit: DeserializedEit) returns (results: seq<EitRecord>)
    ensures results == RecordsOf(eit)
    ensures AreRecordsOf(results, eit)
  {
    RecordsTell(eit);
    hide EventText, GetSectionKind, AreRecordsOf;
    results := [];
    if !eit.valid || eit.events == [] {
      return;
    }
    var i := 0;
    while i < |eit.events|
      invariant i <= |eit.events| && |results| == i <= 2
      invariant forall k | 0 <= k < i :: results[k] == RecordOf(eit, k)
    {
      if |results| >= 2 {
        break;
      }
      var event := eit.events[i];
      var duration := None;
      if event.durationSec >= 0 && event.durationSec <= MAX_DURATION {
        duration := Some(event.durationSec);
      }
      var text := ParseDescriptors(event.descriptors);
      results := results + [EitRecord(GetSectionKind(|results|, eit.presentSectionHasEvent), event.eventId,
                                      eit.version, eit.serviceId, eit.tsId, eit.networkId,
                                      event.startTimeMs, duration, text)];
      i := i + 1;
    }
  }

  // ---------- Emission ----------

  predicate Selected(mode: EitOutputMode, section: EitSection) {
    || mode == PresentAndFollowing
    || (mode == PresentOnly && section == Present)
    || (mode == FollowingOnly && section == Following)
  }

  function Select(mode: EitOutputMode, records: seq<EitRecord>): seq<EitRecord> {
    if records == [] then []
    else (if Selected(mode, records[0].section) then [records[0]] else []) + Select(mode, records[1..])
  }

  lemma SelectFirst(mode: EitOutputMode, r: EitRecord, rest: seq<EitRecord>)
    ensures Select(mode, [r] + rest) ==
            if Selected(mode, r.section) then [r] + Select(mode, rest) else Select(mode, rest)
  {
    assert ([r] + rest)[1..] == rest;
    assert [] + Select(mode, rest) == Select(mode, rest);
  }

  lemma SelectNone(mode: EitOutputMode)
    ensures Select(mode, []) == []
  {
  }

  lemma {:induction false} SelectJoins(mode: EitOutputMode, a: seq<EitRecord>, b: seq<EitRecord>)
    ensures Select(mode, a + b) == Select(mode, a) + Select(mode, b)
    decreases |a|
  {
    hide Select, Selected;
    if a == [] {
      SelectNone(mode);
      assert a + b == b && [] + Select(mode, b) == Select(mode, b);
    } else {
      var r, rest := a[0], a[1..];
      assert a == [r] + rest && a + b == [r] + (rest + b);
      SelectFirst(mode, r, rest);
      SelectFirst(mode, r, rest + b);
      SelectJoins(mode, rest, b);
      assert [r] + (Select(mode, rest) + Select(mode, b)) == [r] + Select(mode, rest) + Select(mode, b);
    }
  }

  lemma SelectOneMore(mode: EitOutputMode, records: seq<EitRecord>, i: nat)
    requires i < |records|
    ensures var before, r := Select(mode, records[..i]), records[i];
            Select(mode, records[..i + 1]) == if Selected(mode, r.section) then before + [r] else before
  {
    hide Select;
    var before, r := records[..i], records[i];
    assert records[..i + 1] == before + [r] && [r] + [] == [r];
    SelectJoins(mode, before, [r]);
    SelectFirst(mode, r, []);
    SelectNone(mode);
    assert Select(mode, before) + [] == Select(mode, before);
  }

  class EitRecordEmitter {
    const mode: EitOutputMode
    var lastEmittedVersion: Option<nat>
    /** All records given to the sink. */
    var emitted: seq<EitRecord>

    function State(): EmitterState
      reads this
    {
      EmitterState(lastEmittedVersion, emitted)
    }

    constructor (mode: EitOutputMode)
      ensures this.mode == mode && State() == EmitterState(None, [])
    {
      this.mode := mode;
      lastEmittedVersion := None;
      emitted := [];
    }

    /** Emits the selected ones of some records. */
    method EmitSelected(records: seq<EitRecord>)
      modifies this`emitted
      ensures emitted == old(emitted) + Select(mode, records)
    {
      hide Select;
      SelectNone(mode);
      assert emitted + [] == emitted;
      for i := 0 to |records|
        invariant emitted == old(emitted) + Select(mode, records[..i])
      {
        SelectOneMore(mode, records, i);
        if Selected(mode, records[i].section) {
          emitted := emitted + [records[i]];
        }
      }
      assert records[..|records|] == records;
    }

    /** Emits the selected records of a table, unless it repeats the version before it. */
    method HandleEit(eit: DeserializedEit)
      modifies this
      ensures State() == AfterTable(mode, old(State()), eit)
    {
      if lastEmittedVersion == Some(eit.version) {
        return;
      }
      lastEmittedVersion := Some(eit.version);
      var records := ParseEit(eit);
      EmitSelected(records);
    }
  }

  datatype EmitterState = EmitterState(lastVersion: Option<nat>, emitted: seq<EitRecord>)

  function AfterTable(mode: EitOutputMode, s: EmitterState, eit: DeserializedEit): EmitterState {
    if s.lastVersion == Some(eit.version) then s
    else EmitterState(Some(eit.version), s.emitted + Select(mode, RecordsOf(eit)))
  }

  /** The emitter after a run of tables. */
  function RunTables(mode: EitOutputMode, tables: seq<DeserializedEit>): EmitterState
    decreases |tables|
  {
    if tables == [] then EmitterState(None, [])
    else AfterTable(mode, RunTables(mode, tables[..|tables| - 1]), tables[|tables| - 1])
  }

  lemma RunOneMore(mode: EitOutputMode, tables: seq<DeserializedEit>, eit: DeserializedEit)
    ensures RunTables(mode, tables + [eit]) == AfterTable(mode, RunTables(mode, tables), eit)
  {
    assert (tables + [eit])[..|tables|] == tables;
  }

  /** The tables whose version differs from that of the table just before. */
  function Fresh(tables: seq<DeserializedEit>): seq<DeserializedEit> {
    if tables == [] then []
    else
      var last := |tables| - 1;
      Fresh(tables[..last])
      + if last == 0 || tables[last - 1].version != tables[last].version then [tables[last]] else []
  }

  function AllRecords(tables: seq<DeserializedEit>): seq<EitRecord> {
    if tables == [] then [] else AllRecords(tables[..|tables| - 1]) + RecordsOf(tables[|tables| - 1])
  }

  lemma AllRecordsGrow(tables: seq<DeserializedEit>, t: DeserializedEit)
    ensures AllRecords(tables + [t]) == AllRecords(tables) + RecordsOf(t)
  {
    hide RecordsOf;
    assert (tables + [t])[..|tables|] == tables;
  }

  /** Over any run, what is emitted is the selection of the records of exactly the fresh
      tables, in order: a table counts as a repetition only of the one right before it. */
  lemma {:induction false} EmitsExactlyFreshTables(mode: EitOutputMode, tables: seq<DeserializedEit>)
    ensures RunTables(mode, tables).emitted == Select(mode, AllRecords(Fresh(tables)))
    ensures RunTables(mode, tables).lastVersion ==
            if tables == [] then None else Some(tables[|tables| - 1].version)
    decreases |tables|
  {
    hide RecordsOf, Select, AllRecords;
    if tables == [] {
      NothingSelected(mode);
    } else {
      var last := |tables| - 1;
      var most, t := tables[..last], tables[last];
      EmitsExactlyFreshTables(mode, most);
      if last == 0 || tables[last - 1].version != t.version {
        AllRecordsGrow(Fresh(most), t);
        SelectJoins(mode, AllRecords(Fresh(most)), RecordsOf(t));
        assert Fresh(tables) == Fresh(most) + [t];
      } else {
        assert Fresh(tables) == Fresh(most) + [] == Fresh(most);
        assert most[|most| - 1] == tables[last - 1];
      }
    }
  }

  lemma NothingSelected(mode: EitOutputMode)
    ensures Select(mode, AllRecords([])) == []
  {
  }

  // ---------- Against the last version emitted ----------

  /** Something of the table is selected. */
  predicate Shows(mode: EitOutputMode, eit: DeserializedEit) {
    Select(mode, RecordsOf(eit)) != []
  }

  /** When that is so, by the content of the table. */
  lemma ShowsIff(mode: EitOutputMode, eit: DeserializedEit)
    ensures Shows(mode, eit) <==>
            && eit.valid && eit.events != []
            && (mode == PresentOnly ==> eit.presentSectionHasEvent)
            && (mode == FollowingOnly ==> !eit.presentSectionHasEvent || |eit.events| > 1)
  {
    hide EventText, Select;
    var records := RecordsOf(eit);
    SelectsSome(mode, records);
    assert |records| > 0 ==> records[0] == RecordOf(eit, 0);
    assert |records| > 1 ==> records[1] == RecordOf(eit, 1);
  }

  lemma {:induction false} SelectsSome(mode: EitOutputMode, records: seq<EitRecord>)
    ensures Select(mode, records) == [] <==> forall i | 0 <= i < |records| :: !Selected(mode, records[i].section)
    decreases |records|
  {
    if records != [] {
      var rest := records[1..];
      SelectsSome(mode, rest);
      assert forall i | 0 < i < |records| :: records[i] == rest[i - 1];
    }
  }

  /** What an emitter would do that compared with the version it last emitted. */
  function CompareWithEmitted(mode: EitOutputMode, s: EmitterState, eit: DeserializedEit): EmitterState {
    if s.lastVersion == Some(eit.version) || !Shows(mode, eit) then s
    else EmitterState(Some(eit.version), s.emitted + Select(mode, RecordsOf(eit)))
  }

  function RunAgainstEmitted(mode: EitOutputMode, tables: seq<DeserializedEit>): EmitterState
    decreases |tables|
  {
    if tables == [] then EmitterState(None, [])
    else CompareWithEmitted(mode, RunAgainstEmitted(mode, tables[..|tables| - 1]), tables[|tables| - 1])
  }

  /** The version of the last table of which something is selected. */
  function LastShown(mode: EitOutputMode, tables: seq<DeserializedEit>): Option<nat> {
    if tables == [] then None
    else if Shows(mode, tables[|tables| - 1]) then Some(tables[|tables| - 1].version)
    else LastShown(mode, tables[..|tables| - 1])
  }

  ghost predicate Agree(mode: EitOutputMode, tables: seq<DeserializedEit>) {
    RunTables(mode, tables).emitted == RunAgainstEmitted(mode, tables).emitted
  }

  /** If anything of table `i` is selected, it repeats the version of the table before it
      exactly if it repeats that of the last table before it that had a selected record. */
  predicate SameRepetition(mode: EitOutputMode, tables: seq<DeserializedEit>, i: nat)
    requires i < |tables|
  {
    Shows(mode, tables[i]) ==>
      ((i > 0 && tables[i - 1].version == tables[i].version)
       <==> LastShown(mode, tables[..i]) == Some(tables[i].version))
  }

  lemma {:induction false} EmittedIsLastShown(mode: EitOutputMode, tables: seq<DeserializedEit>)
    ensures RunAgainstEmitted(mode, tables).lastVersion == LastShown(mode, tables)
    decreases |tables|
  {
    hide Shows, Select, RecordsOf;
    if tables != [] {
      EmittedIsLastShown(mode, tables[..|tables| - 1]);
    }
  }

  lemma OneMoreTable(mode: EitOutputMode, tables: seq<DeserializedEit>)
    requires tables != [] && Agree(mode, tables[..|tables| - 1])
    ensures Agree(mode, tables) <==> SameRepetition(mode, tables, |tables| - 1)
  {
    hide Select, RecordsOf, LastShown, RunAgainstEmitted;
    var n := |tables| - 1;
    var most := tables[..n];
    EmittedIsLastShown(mode, most);
    EmitsExactlyFreshTables(mode, most);
    assert n > 0 ==> most[n - 1] == tables[n - 1];
    assert RunAgainstEmitted(mode, tables) == CompareWithEmitted(mode, RunAgainstEmitted(mode, most), tables[n]) by {
      StepAgainstEmitted(mode, tables);
    }
    var emitted, news := RunTables(mode, most).emitted, Select(mode, RecordsOf(tables[n]));
    assert emitted + news == emitted <==> news == [] by {
      assert |emitted + news| == |emitted| + |news|;
      assert emitted + [] == emitted;
    }
  }

  lemma StepAgainstEmitted(mode: EitOutputMode, tables: seq<DeserializedEit>)
    requires tables != []
    ensures RunAgainstEmitted(mode, tables)
            == CompareWithEmitted(mode, RunAgainstEmitted(mode, tables[..|tables| - 1]), tables[|tables| - 1])
  {
  }

  /** The emitter compares with the table just before. Comparing with the version last
      emitted gives the same output all along exactly if at every table with a selected
      record the two comparisons agree. */
  lemma {:induction false} ComparesAsWithEmitted(mode: EitOutputMode, tables: seq<DeserializedEit>)
    ensures (forall n: nat | n <= |tables| :: Agree(mode, tables[..n]))
            <==> forall i: nat | i < |tables| :: SameRepetition(mode, tables, i)
    decreases |tables|
  {
    hide Agree, SameRepetition;
    if tables == [] {
      BothStartEmpty(mode);
      assert tables[..0] == [];
    } else {
      var last := |tables| - 1;
      var most := tables[..last];
      ComparesAsWithEmitted(mode, most);
      assert tables[..|tables|] == tables;
      assert forall n: nat | n <= last :: most[..n] == tables[..n];
      forall i: nat | i < last ensures SameRepetition(mode, most, i) == SameRepetition(mode, tables, i) {
        EarlierRepetition(mode, tables, i);
      }
      if Agree(mode, most) {
        OneMoreTable(mode, tables);
      }
      assert most[..last] == most;
    }
  }

  lemma BothStartEmpty(mode: EitOutputMode)
    ensures Agree(mode, [])
  {
  }

  lemma EarlierRepetition(mode: EitOutputMode, tables: seq<DeserializedEit>, i: nat)
    requires i < |tables| - 1
    ensures SameRepetition(mode, tables[..|tables| - 1], i) == SameRepetition(mode, tables, i)
  {
    hide Shows, LastShown;
    assert tables[..|tables| - 1][..i] == tables[..i];
  }

  /** A table with one event, on the air or still to come. */
  function OneEvent(version: nat, onAir: bool): DeserializedEit {
    DeserializedEit(true, 1, 1, 1, [EitEvent(1, None, 0, [])], version, onAir)
  }

  /** Where they differ: version 1 shows its present event, version 2 has none, and version
      1 comes again. The emitter emits the event a second time. */
  lemma EmitsAgainAfterEmptyVersion()
    ensures var tables := [OneEvent(1, true), OneEvent(2, false), OneEvent(1, true)];
            && |RunTables(PresentOnly, tables).emitted| == 2
            && |RunAgainstEmitted(PresentOnly, tables).emitted| == 1
  {
    var a, b := OneEvent(1, true), OneEvent(2, false);
    assert [a, b, a][..2] == [a, b] && [a, b][..1] == [a] && [a][..0] == [];
    OneSelected(1, true);
    OneSelected(2, false);
    hide Select, RecordsOf, OneEvent;
    assert RunTables(PresentOnly, []) == RunAgainstEmitted(PresentOnly, []) == EmitterState(None, []);
  }

  lemma OneSelected(version: nat, onAir: bool)
    ensures |Select(PresentOnly, RecordsOf(OneEvent(version, onAir)))| == if onAir then 1 else 0
  {
    var records := RecordsOf(OneEvent(version, onAir));
    assert |records| == 1 && records[1..] == [];
  }

  /** A table yields at most two records; the present label goes at most to the first,
      and exactly when the present section of a valid table had an event. */
  lemma LabelsOfATable(eit: DeserializedEit)
    ensures |RecordsOf(eit)| <= 2
    ensures forall i | 0 <= i < |RecordsOf(eit)| :: RecordsOf(eit)[i].section == Present ==> i == 0
    ensures (exists r <- RecordsOf(eit) :: r.section == Present) <==>
            eit.valid && eit.events != [] && eit.presentSectionHasEvent
  {
    if eit.valid && eit.events != [] {
      assert RecordsOf(eit)[0] in RecordsOf(eit);
    }
  }

  lemma {:induction false} WideModeSelectsAll(records: seq<EitRecord>)
    ensures Select(PresentAndFollowing, records) == records
    decreases |records|
  {
    if records != [] {
      WideModeSelectsAll(records[1..]);
      assert [records[0]] + records[1..] == records;
    }
  }

  lemma {:induction false} NarrowModesPartition(records: seq<EitRecord>)
    ensures multiset(records) == multiset(Select(PresentOnly, records)) + multiset(Select(FollowingOnly, records))
    decreases |records|
  {
    hide Select, Selected;
    if records == [] {
      SelectNone(PresentOnly);
      SelectNone(FollowingOnly);
    } else {
      var r, rest := records[0], records[1..];
      NarrowModesPartition(rest);
      assert records == [r] + rest;
      SelectFirst(PresentOnly, r, rest);
      SelectFirst(FollowingOnly, r, rest);
      CountFirst(r, rest);
      CountFirst(r, Select(PresentOnly, rest));
      CountFirst(r, Select(FollowingOnly, rest));
      assert Selected(PresentOnly, r.section) != Selected(FollowingOnly, r.section) by {
        OneNarrowMode(r.section);
      }
    }
  }

  lemma OneNarrowMode(section: EitSection)
    ensures Selected(PresentOnly, section) != Selected(FollowingOnly, section)
  {
  }

  lemma CountFirst(r: EitRecord, rest: seq<EitRecord>)
    ensures multiset([r] + rest) == multiset{r} + multiset(rest)
  {
  }

  /** The two narrow modes divide the output of the wide one between them, each keeping
      its order. */
  lemma ModesPartitionTheOutput(tables: seq<DeserializedEit>)
    ensures var both := RunTables(PresentAndFollowing, tables).emitted;
            && RunTables(PresentOnly, tables).emitted == Select(PresentOnly, both)
            && RunTables(FollowingOnly, tables).emitted == Select(FollowingOnly, both)
            && multiset(both) == multiset(RunTables(PresentOnly, tables).emitted)
                                 + multiset(RunTables(FollowingOnly, tables).emitted)
  {
    var all := AllRecords(Fresh(tables));
    EmitsExactlyFreshTables(PresentOnly, tables);
    EmitsExactlyFreshTables(FollowingOnly, tables);
    EmitsExactlyFreshTables(PresentAndFollowing, tables);
    WideModeSelectsAll(all);
    NarrowModesPartition(all);
  }
}
