/** What framing a byte stream means, said of the whole stream at once: where
    its packets start, and whether the framer is locked at its end.

    Nothing here mentions chunks, buffers or candidates; `PacketFramer` is
    proved against these definitions. */
module Framing {
  import opened TransportStream

  /** Four packets are probed before sync is trusted. */
  const PROBE_SIZE := 4 * PKT_SIZE

  datatype Mode = InitialSync | SeekingSync | Synced

  /** A confirmed sync run: four packets starting at `p`, each with its sync byte. */
  predicate Run(s: seq<Byte>, p: nat) {
    && p + PROBE_SIZE <= |s|
    && s[p] == SYNC_BYTE
    && s[p + PKT_SIZE] == SYNC_BYTE
    && s[p + 2 * PKT_SIZE] == SYNC_BYTE
    && s[p + 3 * PKT_SIZE] == SYNC_BYTE
  }

  /** Some packet boundary of the probe at `p` is already known not to be a sync byte. */
  predicate Refuted(s: seq<Byte>, p: nat) {
    || (p < |s| && s[p] != SYNC_BYTE)
    || (p + PKT_SIZE < |s| && s[p + PKT_SIZE] != SYNC_BYTE)
    || (p + 2 * PKT_SIZE < |s| && s[p + 2 * PKT_SIZE] != SYNC_BYTE)
    || (p + 3 * PKT_SIZE < |s| && s[p + 3 * PKT_SIZE] != SYNC_BYTE)
  }

  /** The least confirmed run at or after `p`. */
  function NextRun(s: seq<Byte>, p: nat): (r: Option<nat>)
    ensures r.Some? ==> FirstRunAt(s, p, r.value)
    ensures r.None? ==> NoRunFrom(s, p)
    decreases |s| - p
  {
    if p + PROBE_SIZE > |s| then None
    else if Run(s, p) then Some(p)
    else NextRun(s, p + 1)
  }

  ghost predicate FirstRunAt(s: seq<Byte>, p: nat, q: nat) {
    p <= q && Run(s, q) && forall i: nat | p <= i < q :: !Run(s, i)
  }

  ghost predicate NoRunFrom(s: seq<Byte>, p: nat) {
    forall i: nat | p <= i :: !Run(s, i)
  }

  /** Where the packets of a stream start, and the mode its end leaves the framer in. */
  datatype Frames = Frames(starts: seq<nat>, mode: Mode) {
    function After(done: seq<nat>): Frames {
      Frames(done + starts, mode)
    }
  }

  /** Packets found from the packet boundary `p` on. A boundary that is not a sync
      byte loses sync; the search then resumes at that very byte. */
  function Locked(s: seq<Byte>, p: nat): Frames
    requires p <= |s|
    decreases |s| - p
  {
    if p == |s| then Frames([], Synced)
    else if s[p] == SYNC_BYTE then
      if p + PKT_SIZE <= |s| then Locked(s, p + PKT_SIZE).After([p]) else Frames([], Synced)
    else
      match NextRun(s, p)
      case Some(q) => Locked(s, q)
      case None => Frames([], SeekingSync)
  }

  /** Packets found when sync was lost and the search stands at `p`. */
  function Seeking(s: seq<Byte>, p: nat): Frames
  {
    match NextRun(s, p)
    case Some(q) => Locked(s, q)
    case None => Frames([], SeekingSync)
  }

  /** Packets found when the initial search stands at `p`: it must lock before
      offset `PKT_SIZE`. */
  function Initial(s: seq<Byte>, p: nat): Frames
  {
    match NextRun(s, p)
    case Some(q) => if q < PKT_SIZE then Locked(s, q) else Frames([], InitialSync)
    case None => Frames([], InitialSync)
  }

  function FrameStream(s: seq<Byte>): Frames
  {
    Initial(s, 0)
  }
}
