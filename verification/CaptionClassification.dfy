/** Which elementary streams of a PMT carry captions, and with which profile. */
module CaptionClassification {
  import opened TransportStream

  datatype Profile = ProfileA | ProfileC

  /** A PMT stream entry with the two values its descriptors may give. */
  datatype Stream = Stream(streamType: nat, componentTag: Option<nat>, dataComponentId: Option<nat>)

  const ST_PES_PRIV := 0x06
  const COMPONENT_TAG_DEFAULT_CAPTION := 0x30
  const COMPONENT_TAG_ONE_SEG_CAPTION := 0x87
  const DATA_COMPONENT_PROFILE_A := 0x0008
  const DATA_COMPONENT_PROFILE_C := 0x0012
  const ONE_SEG_PMT_PID_MIN: Pid := 0x1FC8
  const ONE_SEG_PMT_PID_MAX: Pid := 0x1FCF

  predicate IsOneSegPmtPid(pid: Pid) {
    ONE_SEG_PMT_PID_MIN <= pid <= ONE_SEG_PMT_PID_MAX
  }

  function ClassifyCaptionComponent(tag: nat, dataComponentId: Option<nat>, oneSeg: bool): Option<Profile> {
    if tag == COMPONENT_TAG_DEFAULT_CAPTION then
      if oneSeg || !(dataComponentId == None || dataComponentId == Some(DATA_COMPONENT_PROFILE_A)) then None
      else Some(ProfileA)
    else if tag == COMPONENT_TAG_ONE_SEG_CAPTION then
      if !oneSeg || dataComponentId != Some(DATA_COMPONENT_PROFILE_C) then None else Some(ProfileC)
    else None
  }

  function ClassifyCaptionStream(pmtPid: Pid, stream: Stream): Option<Profile> {
    if stream.streamType != ST_PES_PRIV || stream.componentTag.None? then None
    else ClassifyCaptionComponent(stream.componentTag.value, stream.dataComponentId, IsOneSegPmtPid(pmtPid))
  }

  /** The caption streams of a PMT received on `pmtPid`. */
  function Desired(pmtPid: Pid, streams: map<Pid, Stream>): map<Pid, Profile> {
    map pid | pid in streams && ClassifyCaptionStream(pmtPid, streams[pid]).Some?
      :: ClassifyCaptionStream(pmtPid, streams[pid]).value
  }

  /** What a stream of a PMT on `pmtPid` must be to carry captions of a profile. */
  predicate Carries(pmtPid: Pid, stream: Stream, profile: Profile) {
    && stream.streamType == 0x06
    && match profile
       case ProfileA =>
         && !(0x1FC8 <= pmtPid <= 0x1FCF) && stream.componentTag == Some(0x30)
         && (stream.dataComponentId == None || stream.dataComponentId == Some(0x0008))
       case ProfileC =>
         0x1FC8 <= pmtPid <= 0x1FCF && stream.componentTag == Some(0x87) && stream.dataComponentId == Some(0x0012)
  }

  /** `profiles` are the caption streams of a PMT with their profiles, and no others. */
  ghost predicate AreCaptionsOf(profiles: map<Pid, Profile>, pmtPid: Pid, streams: map<Pid, Stream>) {
    forall pid: Pid, profile: Profile ::
      HasCaptions(profiles, pid, profile) <==> pid in streams && Carries(pmtPid, streams[pid], profile)
  }

  predicate HasCaptions(profiles: map<Pid, Profile>, pid: Pid, profile: Profile) {
    pid in profiles && profiles[pid] == profile
  }

  lemma DesiredAreCaptions(pmtPid: Pid, streams: map<Pid, Stream>)
    ensures AreCaptionsOf(Desired(pmtPid, streams), pmtPid, streams)
  {
  }

  /** The PMT's own PID fixes the profile of all its caption streams. */
  lemma OneProfilePerPmt(pmtPid: Pid, streams: map<Pid, Stream>)
    ensures forall p <- Desired(pmtPid, streams) ::
              Desired(pmtPid, streams)[p] == if IsOneSegPmtPid(pmtPid) then ProfileC else ProfileA
  {
  }
}
