/** What the framing of a stream satisfies, for every stream. */
module FramingTheorems {
  import opened TransportStream
  import opened Framing

  // ---------- Packets as bytes ----------

  function PacketAt(s: seq<Byte>, o: nat): seq<Byte> {
    if o + PKT_SIZE <= |s| then s[o..o + PKT_SIZE] else []
  }

  function Packets(s: seq<Byte>, starts: seq<nat>): (ps: seq<seq<Byte>>)
    ensures |ps| == |starts|
    ensures forall i | 0 <= i < |ps| :: ps[i] == PacketAt(s, starts[i])
  {
    seq(|starts|, i requires 0 <= i < |starts| => PacketAt(s, starts[i]))
  }

  lemma SliceOfSlice(s: seq<Byte>, a: nat, b: nat, i: nat, j: nat)
    requires a <= b <= |s| && i <= j <= b - a
    ensures s[a..b][i..j] == s[a + i..a + j]
  {
    var x, y := s[a..b][i..j], s[a + i..a + j];
    forall k | 0 <= k < j - i ensures x[k] == y[k] {
      assert x[k] == s[a..b][i + k];
    }
  }

  lemma SuffixSlice(s: seq<Byte>, data: seq<Byte>, i: nat, j: nat)
    requires |data| <= |s| && data == s[|s| - |data|..] && i <= j <= |data|
    ensures data[i..j] == s[|s| - |data| + i..|s| - |data| + j]
  {
    var offset := |s| - |data|;
    assert data == s[offset..|s|];
    SliceOfSlice(s, offset, |s|, i, j);
  }

  lemma SliceJoin(s: seq<Byte>, a: nat, b: nat, c: nat)
    requires a <= b <= c <= |s|
    ensures s[a..b] + s[b..c] == s[a..c]
  {
  }

  lemma OnePacketFirst(s: seq<Byte>, o: nat, starts: seq<nat>)
    ensures Packets(s, [o] + starts) == [PacketAt(s, o)] + Packets(s, starts)
  {
  }

  lemma PacketsSplit(s: seq<Byte>, a: seq<nat>, b: seq<nat>)
    ensures Packets(s, a + b) == Packets(s, a) + Packets(s, b)
  {
  }

  /** The packets of a stream, in order. */
  function Frame(s: seq<Byte>): (packets: seq<seq<Byte>>)
    ensures |packets| == |FrameStream(s).starts|
  {
    Packets(s, FrameStream(s).starts)
  }

  /** Every packet found lies within the stream and starts with a sync byte. */
  ghost predicate InBounds(s: seq<Byte>, starts: seq<nat>) {
    forall i | 0 <= i < |starts| :: starts[i] + PKT_SIZE <= |s| && s[starts[i]] == SYNC_BYTE
  }

  lemma {:induction false} LockedInBounds(s: seq<Byte>, p: nat)
    requires p <= |s|
    ensures InBounds(s, Locked(s, p).starts)
    decreases |s| - p
  {
    if p < |s| && s[p] == SYNC_BYTE && p + PKT_SIZE <= |s| {
      LockedInBounds(s, p + PKT_SIZE);
    } else if p < |s| && s[p] != SYNC_BYTE && NextRun(s, p).Some? {
      LockedInBounds(s, NextRun(s, p).value);
    }
  }

  lemma FramesInBounds(s: seq<Byte>)
    ensures InBounds(s, FrameStream(s).starts)
  {
    if NextRun(s, 0).Some? {
      LockedInBounds(s, NextRun(s, 0).value);
    }
  }

  /** Where the last packet of `starts` ends, `from` if there is none. */
  function EndOf(from: nat, starts: seq<nat>): nat {
    if starts == [] then from else starts[|starts| - 1] + PKT_SIZE
  }

  // ---------- More input only adds packets ----------

  lemma NextRunSkips(s: seq<Byte>, p: nat, q: nat)
    requires p <= q
    requires forall i: nat | p <= i < q :: !Run(s, i)
    ensures NextRun(s, p) == NextRun(s, q)
  {
    var r := NextRun(s, q);
    if r.Some? {
      forall i: nat | p <= i < r.value ensures !Run(s, i) {}
      OneFirstRun(s, p, r.value, NextRun(s, p).value);
    }
  }

  lemma RunGrows(s: seq<Byte>, t: seq<Byte>, p: nat)
    requires s <= t
    ensures Run(s, p) ==> Run(t, p)
    ensures p + PROBE_SIZE <= |s| ==> Run(s, p) == Run(t, p)
    ensures Refuted(s, p) ==> Refuted(t, p) && !Run(t, p)
  {
  }

  lemma NextRunGrows(s: seq<Byte>, t: seq<Byte>, p: nat)
    requires s <= t && NextRun(s, p).Some?
    ensures NextRun(t, p) == NextRun(s, p)
  {
    var q := NextRun(s, p).value;
    forall i: nat | p <= i < q ensures !Run(t, i) {
      RunGrows(s, t, i);
    }
    RunGrows(s, t, q);
    NextRunSkips(t, p, q);
  }

  lemma {:induction false} LockedGrows(s: seq<Byte>, t: seq<Byte>, p: nat)
    requires s <= t && p <= |s|
    ensures Locked(s, p).starts <= Locked(t, p).starts
    decreases |s| - p
  {
    if p == |s| {
    } else if s[p] == SYNC_BYTE {
      if p + PKT_SIZE <= |s| {
        LockedGrows(s, t, p + PKT_SIZE);
      }
    } else if NextRun(s, p).Some? {
      NextRunGrows(s, t, p);
      LockedGrows(s, t, NextRun(s, p).value);
    }
  }

  /** Delivery is causal: bytes still to come never change a packet already found. */
  lemma FrameGrows(s: seq<Byte>, t: seq<Byte>)
    requires s <= t
    ensures FrameStream(s).starts <= FrameStream(t).starts
    ensures Frame(s) <= Frame(t)
  {
    if NextRun(s, 0).Some? {
      NextRunGrows(s, t, 0);
      if NextRun(s, 0).value < PKT_SIZE {
        LockedGrows(s, t, NextRun(s, 0).value);
      }
    }
    FramesInBounds(s);
    PacketsGrow(s, t, FrameStream(s).starts);
    assert Packets(t, FrameStream(s).starts) <= Frame(t);
  }

  lemma PacketsGrow(s: seq<Byte>, t: seq<Byte>, starts: seq<nat>)
    requires s <= t && InBounds(s, starts)
    ensures Packets(s, starts) == Packets(t, starts)
  {
    forall i | 0 <= i < |starts| ensures PacketAt(s, starts[i]) == PacketAt(t, starts[i]) {
      assert starts[i] in starts;
    }
  }

  // ---------- The framing is the only one its rules allow ----------

  /** The next packet after a boundary `p`: there, if `p` holds a sync byte, and
      otherwise at the least confirmed run from `p` on. */
  ghost predicate Follows(s: seq<Byte>, p: nat, q: nat) {
    if p < |s| && s[p] == SYNC_BYTE then q == p && p + PKT_SIZE <= |s| else p < |s| && FirstRunAt(s, p, q)
  }

  /** No packet can follow the boundary `p`. */
  ghost predicate Ends(s: seq<Byte>, p: nat) {
    if p < |s| && s[p] == SYNC_BYTE then p + PKT_SIZE > |s| else p >= |s| || NoRunFrom(s, p)
  }

  ghost predicate Chain(s: seq<Byte>, p: nat, starts: seq<nat>)
    decreases |starts|
  {
    if starts == [] then Ends(s, p)
    else Follows(s, p, starts[0]) && Chain(s, starts[0] + PKT_SIZE, starts[1..])
  }

  /** The rules a list of packet starts must obey: the first is the least confirmed
      run of the stream and lies below `PKT_SIZE`, each other one follows the one
      before, and the list stops only where no packet can follow. */
  ghost predicate WellFramed(s: seq<Byte>, starts: seq<nat>) {
    if starts == [] then forall q: nat :: FirstRunAt(s, 0, q) ==> q >= PKT_SIZE
    else FirstRunAt(s, 0, starts[0]) && starts[0] < PKT_SIZE && Chain(s, starts[0], starts)
  }

  lemma {:induction false} LockedIsTheChain(s: seq<Byte>, p: nat, starts: seq<nat>)
    requires p <= |s|
    ensures Chain(s, p, starts) <==> starts == Locked(s, p).starts
    decreases |s| - p
  {
    if p < |s| && s[p] == SYNC_BYTE {
      if p + PKT_SIZE <= |s| {
        if starts != [] {
          LockedIsTheChain(s, p + PKT_SIZE, starts[1..]);
          assert starts == [starts[0]] + starts[1..];
        }
      }
    } else if p < |s| {
      var r := NextRun(s, p);
      if r.Some? {
        var q := r.value;
        assert q > p;
        LockedIsTheChain(s, q, starts);
        forall x | FirstRunAt(s, p, x) ensures x == q {
          OneFirstRun(s, p, q, x);
        }
        assert FirstRunAt(s, p, q) && Follows(s, q, q);
      }
    }
  }

  lemma OneFirstRun(s: seq<Byte>, p: nat, q: nat, x: nat)
    requires FirstRunAt(s, p, q) && FirstRunAt(s, p, x)
    ensures q == x
  {
    assert Run(s, q) && Run(s, x);
  }

  /** The declarative rules determine the framing: `FrameStream` obeys them and
      nothing else does. */
  lemma FramingIsDetermined(s: seq<Byte>, starts: seq<nat>)
    ensures WellFramed(s, starts) <==> starts == FrameStream(s).starts
  {
    var r := NextRun(s, 0);
    if r.Some? {
      var q := r.value;
      forall x | FirstRunAt(s, 0, x) ensures x == q {
        OneFirstRun(s, 0, q, x);
      }
      LockedIsTheChain(s, q, starts);
      assert FirstRunAt(s, 0, q) && Follows(s, q, q);
    }
  }

  // ---------- Lock and relock happen on time, and at the right place ----------

  function Burst(q: nat): (starts: seq<nat>)
    ensures |starts| == 4
  {
    [q, q + PKT_SIZE, q + 2 * PKT_SIZE, q + 3 * PKT_SIZE]
  }

  lemma RunIsABurst(t: seq<Byte>, q: nat)
    requires Run(t, q)
    ensures Locked(t, q) == Locked(t, q + PROBE_SIZE).After(Burst(q))
  {
    var r := Locked(t, q + PROBE_SIZE);
    assert Locked(t, q + 3 * PKT_SIZE) == r.After([q + 3 * PKT_SIZE]);
    assert Locked(t, q + 2 * PKT_SIZE) == r.After([q + 2 * PKT_SIZE, q + 3 * PKT_SIZE]);
    assert Locked(t, q + PKT_SIZE) == r.After([q + PKT_SIZE, q + 2 * PKT_SIZE, q + 3 * PKT_SIZE]);
    assert [q] + ([q + PKT_SIZE, q + 2 * PKT_SIZE, q + 3 * PKT_SIZE] + r.starts) == Burst(q) + r.starts;
  }

  /** A search from `p` over a prefix of `s` finds `q` as soon as the prefix holds
      all of its probe, and nothing before. */
  lemma RunIsSeenOnTime(s: seq<Byte>, p: nat, q: nat, n: nat)
    requires FirstRunAt(s, p, q) && n <= |s|
    ensures NextRun(s[..n], p) == if n < q + PROBE_SIZE then None else Some(q)
  {
    var u := s[..n];
    if NextRun(u, p).Some? {
      NextRunGrows(u, s, p);
      OneFirstRun(s, p, q, NextRun(s, p).value);
    }
    if q + PROBE_SIZE <= n {
      RunGrows(u, s, q);
      assert Run(u, q);
    }
  }

  /** Initial lock: not one byte before the probe of the least run is complete, and
      with that very byte. */
  lemma InitialLockIsOnTime(s: seq<Byte>, q: nat, n: nat)
    requires FirstRunAt(s, 0, q) && q < PKT_SIZE && n <= q + PROBE_SIZE
    ensures FrameStream(s[..n]) ==
            if n < q + PROBE_SIZE then Frames([], InitialSync) else Frames(Burst(q), Synced)
  {
    RunIsSeenOnTime(s, 0, q, n);
    if n == q + PROBE_SIZE {
      RunGrows(s[..n], s, q);
      RunIsABurst(s[..n], q);
      assert Burst(q) + [] == Burst(q);
    }
  }

  /** The first packet that `u` shows from a boundary is the first in any longer stream:
      at the boundary, or where sync is found again. */
  lemma FirstPacket(u: seq<Byte>, t: seq<Byte>, p: nat) returns (o: nat)
    requires u <= t && p <= |u| && Locked(u, p).starts != []
    ensures p <= o && o + PKT_SIZE <= |u| && u[o] == SYNC_BYTE && (p < o ==> u[p] != SYNC_BYTE)
    ensures Locked(u, p) == Locked(u, o + PKT_SIZE).After([o])
    ensures Locked(t, p) == Locked(t, o + PKT_SIZE).After([o])
  {
    if u[p] == SYNC_BYTE {
      o := p;
    } else {
      o := NextRun(u, p).value;
      NextRunGrows(u, t, p);
    }
  }

  lemma AfterTwice(f: Frames, a: seq<nat>, b: seq<nat>)
    ensures f.After(b).After(a) == f.After(a + b)
    ensures f.After([]) == f
  {
    assert a + (b + f.starts) == a + b + f.starts;
    assert [] + f.starts == f.starts;
  }

  lemma EndOfFirst(p: nat, o: nat, starts: seq<nat>)
    ensures EndOf(p, [o] + starts) == EndOf(o + PKT_SIZE, starts)
  {
  }

  /** What `u` shows from a boundary on stands, and any longer stream goes on from the
      boundary where that ends. */
  lemma {:induction false} LockedResumes(u: seq<Byte>, t: seq<Byte>, p: nat)
    requires u <= t && p <= |u|
    ensures var starts := Locked(u, p).starts;
            p <= EndOf(p, starts) <= |u| && Locked(t, p) == Locked(t, EndOf(p, starts)).After(starts)
    decreases |u| - p
  {
    hide Locked;
    if Locked(u, p).starts == [] {
      AfterTwice(Locked(t, p), [], []);
    } else {
      var o := FirstPacket(u, t, p);
      var rest := Locked(u, o + PKT_SIZE).starts;
      LockedResumes(u, t, o + PKT_SIZE);
      EndOfFirst(p, o, rest);
      AfterTwice(Locked(t, EndOf(o + PKT_SIZE, rest)), [o], rest);
    }
  }

  /** The boundary where the packets of a stream end: nothing is found from there on. */
  lemma LockedEnds(s: seq<Byte>, p: nat)
    requires p <= |s|
    ensures var f := Locked(s, p);
            var end := EndOf(p, f.starts);
            && p <= end <= |s|
            && Locked(s, end) == Frames([], f.mode)
            && (f.mode == Synced ==> end == |s| || (s[end] == SYNC_BYTE && |s| < end + PKT_SIZE))
            && (f.mode == SeekingSync ==> end < |s| && s[end] != SYNC_BYTE && NoRunFrom(s, end))
            && f.mode != InitialSync
  {
    LockedResumes(s, s, p);
    var f := Locked(s, p);
    NothingFrom(s, EndOf(p, f.starts));
  }

  lemma NothingFrom(s: seq<Byte>, p: nat)
    requires p <= |s| && Locked(s, p).starts == []
    ensures Locked(s, p).mode == if p < |s| && s[p] != SYNC_BYTE then SeekingSync else Synced
    ensures p < |s| && s[p] == SYNC_BYTE ==> |s| < p + PKT_SIZE
    ensures p < |s| && s[p] != SYNC_BYTE ==> NoRunFrom(s, p)
  {
    if p < |s| && s[p] != SYNC_BYTE && NextRun(s, p).Some? {
      RunIsABurst(s, NextRun(s, p).value);
    }
  }

  /** The framing of a stream with a packet is that of its first confirmed run. */
  lemma FramedFromFirstRun(s: seq<Byte>) returns (q: nat)
    requires FrameStream(s).starts != []
    ensures FirstRunAt(s, 0, q) && q < PKT_SIZE && q <= |s| && FrameStream(s) == Locked(s, q)
    ensures FrameStream(s).starts[0] == q
  {
    q := NextRun(s, 0).value;
  }

  /** What a stream shows stands, and any longer stream goes on from the boundary where
      its last packet ends. */
  lemma FramingResumes(u: seq<Byte>, t: seq<Byte>)
    requires u <= t && FrameStream(u).starts != []
    ensures var starts := FrameStream(u).starts;
            EndOf(0, starts) <= |u| && FrameStream(t) == Locked(t, EndOf(0, starts)).After(starts)
  {
    var q := FramedFromFirstRun(u);
    NextRunGrows(u, t, 0);
    LockedResumes(u, t, q);
  }

  /** Resynchronisation: from the packet boundary `p` where sync is lost, the framer
      seeks until the probe of the least run at or after `p` is complete, and locks
      with that very byte. No false candidate delays it. */
  lemma RelockIsOnTime(s: seq<Byte>, p: nat, q: nat, n: nat)
    requires p < |s| && s[p] != SYNC_BYTE && FirstRunAt(s, p, q)
    requires FrameStream(s[..p]).starts != [] && EndOf(0, FrameStream(s[..p]).starts) == p
    requires p < n <= q + PROBE_SIZE
    ensures FrameStream(s[..n]) ==
            if n < q + PROBE_SIZE then Frames(FrameStream(s[..p]).starts, SeekingSync)
            else Frames(FrameStream(s[..p]).starts + Burst(q), Synced)
  {
    var starts := FrameStream(s[..p]).starts;
    assert s[..p] <= s[..n];
    FramingResumes(s[..p], s[..n]);
    RunIsSeenOnTime(s, p, q, n);
    assert starts + [] == starts;
    if n == q + PROBE_SIZE {
      RunGrows(s[..n], s, q);
      RunIsABurst(s[..n], q);
      assert Burst(q) + [] == Burst(q);
    }
  }

  // ---------- Conservation ----------

  /** The stream cut into what the framer skipped, what it delivered and what it holds. */
  datatype Segment = Skipped(bytes: seq<Byte>) | Delivered(bytes: seq<Byte>) | Held(bytes: seq<Byte>)

  /** One packet at `o`, and what was skipped from `p` to get there, ahead of `rest`. */
  function Prefixed(s: seq<Byte>, p: nat, o: nat, rest: seq<Segment>): seq<Segment> {
    var tail := [Delivered(PacketAt(s, o))] + rest;
    if p < o <= |s| then [Skipped(s[p..o])] + tail else tail
  }

  function Segments(s: seq<Byte>, from: nat, starts: seq<nat>): seq<Segment>
    decreases |starts|
  {
    if starts == [] then []
    else
      Prefixed(s, from, starts[0], Segments(s, starts[0] + PKT_SIZE, starts[1..]))
  }

  function Flatten(segments: seq<Segment>): seq<Byte> {
    if segments == [] then [] else segments[0].bytes + Flatten(segments[1..])
  }

  function DeliveredOf(segments: seq<Segment>): seq<seq<Byte>> {
    if segments == [] then []
    else (if segments[0].Delivered? then [segments[0].bytes] else []) + DeliveredOf(segments[1..])
  }

  predicate LosesSync(segment: Segment) {
    segment.bytes != [] && segment.bytes[0] != SYNC_BYTE
  }

  /** Sync is only ever given up behind a packet, at a byte that is not a sync byte; what
      is held comes last. */
  predicate MayFollow(x: Segment, y: Segment) {
    !x.Held? && (y.Skipped? ==> x.Delivered? && LosesSync(y))
  }

  ghost predicate WellCut(segments: seq<Segment>) {
    && (forall i | 0 <= i < |segments| :: segments[i].bytes != [])
    && forall i | 0 < i < |segments| :: MayFollow(segments[i - 1], segments[i])
  }

  /** Segments from a packet boundary to the end of a packet. */
  ghost predicate BetweenPackets(segments: seq<Segment>) {
    && WellCut(segments)
    && (segments != [] ==> (segments[0].Skipped? ==> LosesSync(segments[0])) && segments[|segments| - 1].Delivered?)
  }

  lemma CutJoins(a: seq<Segment>, b: seq<Segment>)
    requires WellCut(a) && WellCut(b)
    requires a != [] && b != [] ==> MayFollow(a[|a| - 1], b[0])
    ensures WellCut(a + b)
  {
    hide MayFollow;
    var all := a + b;
    forall i | 0 < i < |all| ensures MayFollow(all[i - 1], all[i]) {
      if i == |a| {
        assert all[i - 1] == a[|a| - 1] && all[i] == b[0];
      } else if i > |a| {
        assert all[i - 1] == b[i - |a| - 1] && all[i] == b[i - |a|];
      }
    }
  }

  lemma CutOne(x: Segment)
    requires x.bytes != []
    ensures WellCut([x])
  {
  }

  ghost predicate Accounts(s: seq<Byte>, p: nat, starts: seq<nat>, segments: seq<Segment>) {
    && p <= EndOf(p, starts) <= |s|
    && Flatten(segments) == s[p..EndOf(p, starts)]
    && DeliveredOf(segments) == Packets(s, starts)
    && BetweenPackets(segments)
  }

  lemma {:induction false} LockedConserves(s: seq<Byte>, p: nat)
    requires p <= |s|
    ensures Accounts(s, p, Locked(s, p).starts, Segments(s, p, Locked(s, p).starts))
    decreases |s| - p
  {
    hide Locked, Accounts, Segments, Packets, EndOf;
    if Locked(s, p).starts == [] {
      AccountsForNone(s, p);
    } else {
      var o := FirstPacket(s, s, p);
      LockedConserves(s, o + PKT_SIZE);
      AccountsForOneMore(s, p, o, Locked(s, o + PKT_SIZE).starts);
    }
  }

  lemma AccountsForNone(s: seq<Byte>, p: nat)
    requires p <= |s|
    ensures Accounts(s, p, [], Segments(s, p, []))
  {
  }

  lemma AccountsForOneMore(s: seq<Byte>, p: nat, o: nat, starts: seq<nat>)
    requires p <= o && o + PKT_SIZE <= |s| && (p < o ==> s[p] != SYNC_BYTE)
    requires Accounts(s, o + PKT_SIZE, starts, Segments(s, o + PKT_SIZE, starts))
    ensures Accounts(s, p, [o] + starts, Segments(s, p, [o] + starts))
  {
    hide Flatten, DeliveredOf, BetweenPackets, PacketAt, Packets, Segments, EndOf;
    SegmentsUnroll(s, p, o, starts);
    OnePacketFirst(s, o, starts);
    OnePacketMore(s, p, o, EndOf(o + PKT_SIZE, starts), Segments(s, o + PKT_SIZE, starts));
  }

  lemma SegmentsUnroll(s: seq<Byte>, p: nat, o: nat, starts: seq<nat>)
    ensures Segments(s, p, [o] + starts) == Prefixed(s, p, o, Segments(s, o + PKT_SIZE, starts))
    ensures EndOf(p, [o] + starts) == EndOf(o + PKT_SIZE, starts)
  {
    var all := [o] + starts;
    assert all[0] == o && all[1..] == starts;
  }

  /** The account of the segments, one gap and one packet longer at its front. */
  lemma OnePacketMore(s: seq<Byte>, p: nat, o: nat, end: nat, rest: seq<Segment>)
    requires p <= o && o + PKT_SIZE <= end <= |s|
    requires p < o ==> s[p] != SYNC_BYTE
    requires Flatten(rest) == s[o + PKT_SIZE..end] && BetweenPackets(rest)
    ensures var segments := Prefixed(s, p, o, rest);
            && Flatten(segments) == s[p..end]
            && DeliveredOf(segments) == [PacketAt(s, o)] + DeliveredOf(rest)
            && BetweenPackets(segments)
  {
    hide BetweenPackets;
    var packet := Delivered(PacketAt(s, o));
    OneSegmentMore(packet, rest);
    SliceJoin(s, o, o + PKT_SIZE, end);
    PacketAhead(packet, rest);
    if p < o {
      var gap := Skipped(s[p..o]);
      OneSegmentMore(gap, [packet] + rest);
      SliceJoin(s, p, o, end);
      LossAhead(gap, [packet] + rest);
    }
  }

  lemma PacketAhead(packet: Segment, rest: seq<Segment>)
    requires packet.Delivered? && packet.bytes != [] && BetweenPackets(rest)
    ensures BetweenPackets([packet] + rest)
  {
    CutOne(packet);
    CutJoins([packet], rest);
    assert rest != [] ==> ([packet] + rest)[|rest|] == rest[|rest| - 1];
  }

  lemma LossAhead(gap: Segment, rest: seq<Segment>)
    requires gap.Skipped? && LosesSync(gap) && BetweenPackets(rest) && rest != [] && rest[0].Delivered?
    ensures BetweenPackets([gap] + rest)
  {
    CutOne(gap);
    CutJoins([gap], rest);
    assert ([gap] + rest)[|rest|] == rest[|rest| - 1];
  }

  lemma OneSegmentMore(x: Segment, rest: seq<Segment>)
    ensures Flatten([x] + rest) == x.bytes + Flatten(rest)
    ensures DeliveredOf([x] + rest) == (if x.Delivered? then [x.bytes] else []) + DeliveredOf(rest)
  {
    var all := [x] + rest;
    assert all[1..] == rest;
  }

  // ---------- The whole stream ----------

  /** The bytes from `from` to `to`, as skipped if there are any. */
  function Gap(s: seq<Byte>, from: nat, to: nat): seq<Segment> {
    if from < to <= |s| then [Skipped(s[from..to])] else []
  }

  function Kept(s: seq<Byte>, held: nat): seq<Segment>
    requires held <= |s|
  {
    if held > 0 then [Held(s[|s| - held..])] else []
  }

  /** The skip ahead of the first packet, and the packets with the skips between them. */
  function Head(s: seq<Byte>, starts: seq<nat>): seq<Segment>
    requires starts != []
  {
    Gap(s, 0, starts[0]) + Segments(s, starts[0], starts)
  }

  /** What comes behind the last packet: a skip, if sync is lost there, and what is held. */
  function Tail(s: seq<Byte>, end: nat, held: nat): seq<Segment>
    requires held <= |s|
  {
    Gap(s, end, |s| - held) + Kept(s, held)
  }

  /** All of a stream of which the framer holds the last `held` bytes. */
  function Account(s: seq<Byte>, starts: seq<nat>, held: nat): seq<Segment>
    requires held <= |s|
  {
    if starts == [] then Tail(s, 0, held) else Head(s, starts) + Tail(s, EndOf(0, starts), held)
  }

  lemma {:induction false} FlattenJoins(a: seq<Segment>, b: seq<Segment>)
    ensures Flatten(a + b) == Flatten(a) + Flatten(b)
    ensures DeliveredOf(a + b) == DeliveredOf(a) + DeliveredOf(b)
    decreases |a|
  {
    hide Flatten, DeliveredOf;
    if a == [] {
      NothingFlat();
      assert a + b == b && [] + Flatten(b) == Flatten(b) && [] + DeliveredOf(b) == DeliveredOf(b);
    } else {
      var x, rest := a[0], a[1..];
      assert a == [x] + rest && a + b == [x] + (rest + b);
      OneSegmentMore(x, rest);
      OneSegmentMore(x, rest + b);
      FlattenJoins(rest, b);
      assert x.bytes + (Flatten(rest) + Flatten(b)) == x.bytes + Flatten(rest) + Flatten(b);
      var d := if x.Delivered? then [x.bytes] else [];
      assert d + (DeliveredOf(rest) + DeliveredOf(b)) == d + DeliveredOf(rest) + DeliveredOf(b);
    }
  }

  lemma NothingFlat()
    ensures Flatten([]) == [] && DeliveredOf([]) == []
  {
  }

  lemma GapBytes(s: seq<Byte>, from: nat, to: nat)
    requires from <= to <= |s|
    ensures Flatten(Gap(s, from, to)) == s[from..to] && DeliveredOf(Gap(s, from, to)) == []
  {
    if from < to {
      OneSegmentMore(Skipped(s[from..to]), []);
      assert [Skipped(s[from..to])] + [] == Gap(s, from, to);
    }
  }

  lemma GapIsCut(s: seq<Byte>, from: nat, to: nat)
    requires from <= to <= |s|
    ensures WellCut(Gap(s, from, to))
    ensures Gap(s, from, to) != [] ==> LosesSync(Gap(s, from, to)[0]) == (s[from] != SYNC_BYTE)
  {
  }

  lemma KeptBytes(s: seq<Byte>, held: nat)
    requires held <= |s|
    ensures Flatten(Kept(s, held)) == s[|s| - held..] && DeliveredOf(Kept(s, held)) == [] && WellCut(Kept(s, held))
  {
    if held > 0 {
      OneSegmentMore(Held(s[|s| - held..]), []);
      assert [Held(s[|s| - held..])] + [] == Kept(s, held);
    }
  }

  lemma TailIsAccountedFor(s: seq<Byte>, end: nat, held: nat)
    requires end + held <= |s|
    ensures var tail := Tail(s, end, held);
            && Flatten(tail) == s[end..] && DeliveredOf(tail) == [] && WellCut(tail)
            && (held > 0 ==> tail != [] && tail[|tail| - 1] == Held(s[|s| - held..]))
            && (tail != [] ==> if end + held < |s| then tail[0] == Skipped(s[end..|s| - held]) else tail[0].Held?)
  {
    hide Flatten, DeliveredOf, WellCut;
    var gap, rest := Gap(s, end, |s| - held), Kept(s, held);
    GapBytes(s, end, |s| - held);
    GapIsCut(s, end, |s| - held);
    KeptBytes(s, held);
    FlattenJoins(gap, rest);
    assert s[end..|s| - held] + s[|s| - held..] == s[end..];
    CutJoins(gap, rest);
  }

  lemma HeadIsAccountedFor(s: seq<Byte>)
    requires FrameStream(s).starts != []
    ensures var starts := FrameStream(s).starts;
            var head := Head(s, starts);
            && EndOf(0, starts) <= |s|
            && Flatten(head) == s[..EndOf(0, starts)] && DeliveredOf(head) == Frame(s) && WellCut(head)
            && head != [] && head[|head| - 1].Delivered?
            && (head[0].Skipped? ==> |head[0].bytes| < PKT_SIZE)
  {
    var q := FramedFromFirstRun(s);
    hide Flatten, DeliveredOf, WellCut, Locked, FrameStream, Frame, Segments, Gap;
    SegmentsOfFrames(s, q);
    LeadThenPackets(s, q, EndOf(0, FrameStream(s).starts), Segments(s, q, FrameStream(s).starts));
  }

  lemma SegmentsOfFrames(s: seq<Byte>, q: nat)
    requires q <= |s| && FrameStream(s) == Locked(s, q) && FrameStream(s).starts != []
    requires FrameStream(s).starts[0] == q
    ensures var starts := FrameStream(s).starts;
            var segments := Segments(s, q, starts);
            && q <= EndOf(0, starts) <= |s|
            && Flatten(segments) == s[q..EndOf(0, starts)] && DeliveredOf(segments) == Frame(s) && WellCut(segments)
            && segments != [] && segments[0].Delivered? && segments[|segments| - 1].Delivered?
  {
    hide Flatten, DeliveredOf, WellCut, Locked, FrameStream;
    LockedConserves(s, q);
    assert Segments(s, q, FrameStream(s).starts)[0] == Delivered(PacketAt(s, q));
  }

  lemma LeadThenPackets(s: seq<Byte>, q: nat, end: nat, segments: seq<Segment>)
    requires q <= end <= |s| && Flatten(segments) == s[q..end] && WellCut(segments)
    requires segments != [] && segments[0].Delivered? && segments[|segments| - 1].Delivered?
    ensures var head := Gap(s, 0, q) + segments;
            && Flatten(head) == s[..end] && DeliveredOf(head) == DeliveredOf(segments) && WellCut(head)
            && head != [] && head[|head| - 1].Delivered?
            && (head[0].Skipped? ==> |head[0].bytes| == q)
  {
    hide Flatten, DeliveredOf, WellCut;
    var lead := Gap(s, 0, q);
    GapBytes(s, 0, q);
    GapIsCut(s, 0, q);
    FlattenJoins(lead, segments);
    SliceJoin(s, 0, q, end);
    assert s[..end] == s[0..end];
    assert [] + DeliveredOf(segments) == DeliveredOf(segments);
    CutJoins(lead, segments);
  }

  /** `account` divides `s` into skipped, delivered and held bytes: the delivered are the
      frames, the held are the last `held` bytes. */
  ghost predicate AccountsForAll(s: seq<Byte>, held: nat, account: seq<Segment>)
    requires held <= |s|
  {
    && Flatten(account) == s && DeliveredOf(account) == Frame(s) && WellCut(account)
    && (Frame(s) != [] ==> account != [] && (account[0].Skipped? ==> |account[0].bytes| < PKT_SIZE))
    && (held > 0 ==> account != [] && account[|account| - 1] == Held(s[|s| - held..]))
  }

  /** Every byte of the stream is skipped, delivered or held, in order and exactly once,
      when the framer holds the last `held` bytes: all beyond the last packet while it is
      synced. The delivered parts are the frames. Fewer than `PKT_SIZE` bytes are skipped
      ahead of them; later ones are skipped only from a packet on where sync is lost. */
  lemma Conservation(s: seq<Byte>, held: nat)
    requires EndOf(0, FrameStream(s).starts) + held <= |s|
    requires FrameStream(s).mode == Synced ==> EndOf(0, FrameStream(s).starts) + held == |s|
    ensures AccountsForAll(s, held, Account(s, FrameStream(s).starts, held))
  {
    if FrameStream(s).starts == [] {
      NoPacketAccount(s, held);
    } else {
      PacketsAccount(s, held);
    }
  }

  lemma NoPacketAccount(s: seq<Byte>, held: nat)
    requires held <= |s| && FrameStream(s).starts == []
    ensures AccountsForAll(s, held, Account(s, [], held))
  {
    hide Flatten, DeliveredOf, WellCut, FrameStream, Tail;
    TailIsAccountedFor(s, 0, held);
    assert |Frame(s)| == 0 && s[0..] == s;
  }

  lemma PacketsAccount(s: seq<Byte>, held: nat)
    requires EndOf(0, FrameStream(s).starts) + held <= |s| && FrameStream(s).starts != []
    requires FrameStream(s).mode == Synced ==> EndOf(0, FrameStream(s).starts) + held == |s|
    ensures AccountsForAll(s, held, Account(s, FrameStream(s).starts, held))
  {
    var starts := FrameStream(s).starts;
    var end := EndOf(0, starts);
    var q := FramedFromFirstRun(s);
    LockedEnds(s, q);
    hide Flatten, DeliveredOf, WellCut, Locked, Head, Tail, FrameStream, Frame, AccountsForAll;
    HeadIsAccountedFor(s);
    TailIsAccountedFor(s, end, held);
    HeadThenTail(s, end, held, Head(s, starts), Tail(s, end, held));
  }

  lemma HeadThenTail(s: seq<Byte>, end: nat, held: nat, head: seq<Segment>, tail: seq<Segment>)
    requires end <= |s| && held <= |s|
    requires Flatten(head) == s[..end] && DeliveredOf(head) == Frame(s) && WellCut(head)
    requires head != [] && head[|head| - 1].Delivered? && (head[0].Skipped? ==> |head[0].bytes| < PKT_SIZE)
    requires Flatten(tail) == s[end..] && DeliveredOf(tail) == [] && WellCut(tail)
    requires held > 0 ==> tail != [] && tail[|tail| - 1] == Held(s[|s| - held..])
    requires tail != [] && tail[0].Skipped? ==> LosesSync(tail[0])
    ensures AccountsForAll(s, held, head + tail)
  {
    hide Flatten, DeliveredOf, WellCut, Frame;
    FlattenJoins(head, tail);
    assert s[..end] + s[end..] == s;
    assert Frame(s) + [] == Frame(s);
    CutJoins(head, tail);
  }
}
